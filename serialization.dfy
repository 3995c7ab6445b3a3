/** What an entity's `getVariables` and `toArray` compute, as functions of its
    snapshot. Nested entities are serialised through the same functions, which
    is how `toArray` treats them: by calling their own `toArray()`. */
module Serialization {
  import opened Values
  import opened Helper

  /** `array_merge($this->_primary, $this->_columns)`, followed by
      `$this->_relations` when relations are included. `array_unique` does not
      change which names are members, so it is left out. */
  function Wanted(s: Snapshot, includeRelations: bool): seq<string>
  {
    s.primary + s.columns + (if includeRelations then s.relations else [])
  }

  /** `getVariables`: the properties whose snake-case name is wanted, in
      declaration order, with their current values. */
  function Variables(fields: seq<Entry>, wanted: seq<string>): (vars: seq<Entry>)
    ensures forall e {:trigger e in vars} {:trigger e in fields} :: e in vars <==> e in fields && ToSnakeCase(e.key) in wanted
  {
    if fields == [] then []
    else
      var last := fields[|fields| - 1];
      assert forall e :: e in fields <==> e in fields[..|fields| - 1] || e == last;
      Variables(fields[..|fields| - 1], wanted) + (if ToSnakeCase(last.key) in wanted then [last] else [])
  }

  /** The inner loop of `toArray` over an array property: every member that is
      an entity is stored as its `toArray()` under its snake-case key (a later
      member with the same snake-case key overwrites an earlier one); other
      members are dropped. */
  function EntityRows(es: seq<Entry>): seq<Entry>
    decreases es
  {
    if es == [] then []
    else
      var rest := EntityRows(es[..|es| - 1]);
      var e := es[|es| - 1];
      if e.val.Ent? then Put(rest, ToSnakeCase(e.key), Arr(ArrayOf(e.val.obj, false))) else rest
  }

  /** What one selected property puts into the result of `toArray`: an array
      becomes the rows of its entities, and nothing at all when it holds none;
      any other value is copied. */
  function Cell(e: Entry): Option<Value>
    decreases e, 0
  {
    if e.val.Arr? then
      var rows := EntityRows(e.val.entries);
      if rows == [] then None else Some(Arr(rows))
    else Some(e.val)
  }

  /** The outer loop of `toArray` over the selected properties `vars` of `s`. */
  function Serialize(s: Snapshot, vars: seq<Entry>): seq<Entry>
    requires forall e :: e in vars ==> e in s.fields
    decreases s, 0, |vars|
  {
    if vars == [] then []
    else
      var e := vars[|vars| - 1];
      assert e in s.fields;
      var acc := Serialize(s, vars[..|vars| - 1]);
      match Cell(e)
      case None => acc
      case Some(c) => Put(acc, ToSnakeCase(e.key), c)
  }

  /** `toArray($onlyColumns)`. */
  function ArrayOf(s: Snapshot, onlyColumns: bool): seq<Entry>
    decreases s, 1
  {
    Serialize(s, Variables(s.fields, Wanted(s, !onlyColumns)))
  }

  /** The rows `insert` and `update` send: `toArray(true)` filtered by `filterValuable`. */
  function Payload(s: Snapshot): seq<Entry>
  {
    FilterEntries(ArrayOf(s, true), FilterValuable)
  }

  /** No two properties share a snake-case name. */
  ghost predicate SnakeKeysDistinct(fields: seq<Entry>)
  {
    forall e1, e2 {:trigger e1 in fields, e2 in fields} :: e1 in fields && e2 in fields && ToSnakeCase(e1.key) == ToSnakeCase(e2.key) ==> e1 == e2
  }

  /** No two entity members of an array property share a snake-case key. */
  ghost predicate EntitySnakeKeysDistinct(es: seq<Entry>)
  {
    forall e1, e2 {:trigger e1 in es, e2 in es} ::
      e1 in es && e2 in es && e1.val.Ent? && e2.val.Ent? && ToSnakeCase(e1.key) == ToSnakeCase(e2.key) ==> e1 == e2
  }

  /** One more property: what the loop of `getVariables` does with it, when
      its key is not already taken. */
  lemma VariablesStep(fields: seq<Entry>, wanted: seq<string>, i: int)
    requires 0 <= i < |fields|
    requires fields[i].key !in KeysOf(Variables(fields[..i], wanted))
    ensures Variables(fields[..i + 1], wanted) ==
      if ToSnakeCase(fields[i].key) in wanted then Put(Variables(fields[..i], wanted), fields[i].key, fields[i].val)
      else Variables(fields[..i], wanted)
  {
    assert fields[..i + 1][..i] == fields[..i];
  }

  /** One more selected property: what the outer loop of `toArray` does with it. */
  lemma SerializeStep(s: Snapshot, vars: seq<Entry>, i: int)
    requires forall e :: e in vars ==> e in s.fields
    requires 0 <= i < |vars|
    ensures forall e :: e in vars[..i] ==> e in s.fields
    ensures Serialize(s, vars[..i + 1]) ==
      match Cell(vars[i])
      case None => Serialize(s, vars[..i])
      case Some(c) => Put(Serialize(s, vars[..i]), ToSnakeCase(vars[i].key), c)
  {
    assert vars[..i + 1][..i] == vars[..i];
    assert forall e :: e in vars[..i + 1] ==> e in vars;
  }

  /** One more member of an array property: what the inner loop of `toArray` does with it. */
  lemma EntityRowsStep(es: seq<Entry>, j: int)
    requires 0 <= j < |es|
    ensures EntityRows(es[..j + 1]) ==
      if es[j].val.Ent? then Put(EntityRows(es[..j]), ToSnakeCase(es[j].key), Arr(ArrayOf(es[j].val.obj, false)))
      else EntityRows(es[..j])
  {
    assert es[..j + 1][..j] == es[..j];
  }

  // ---------------------------------------------------------------------------
  // Properties

  /** Every key of `toArray`'s result is the snake-case name of a selected property. */
  lemma {:induction false} SerializeKeys(s: Snapshot, vars: seq<Entry>)
    requires forall e :: e in vars ==> e in s.fields
    ensures forall k :: k in KeysOf(Serialize(s, vars)) ==> exists e {:trigger e in vars} :: e in vars && ToSnakeCase(e.key) == k
  {
    if vars != [] {
      var pre := vars[..|vars| - 1];
      var e := vars[|vars| - 1];
      SerializeKeys(s, pre);
      var acc := Serialize(s, pre);
      forall k | k in KeysOf(Serialize(s, vars))
        ensures exists x {:trigger x in vars} :: x in vars && ToSnakeCase(x.key) == k
      {
        match Cell(e)
        case None =>
          var x :| x in pre && ToSnakeCase(x.key) == k;
          assert x in vars;
        case Some(c) =>
          PutKeys(acc, ToSnakeCase(e.key), c);
          if k == ToSnakeCase(e.key) {
            assert e in vars;
          } else {
            var x :| x in pre && ToSnakeCase(x.key) == k;
            assert x in vars;
          }
      }
    }
  }

  /** `toArray(true)` holds only primary-key and column names: a property listed
      only among the relations never reaches it. */
  lemma ColumnsOnlyKeys(s: Snapshot)
    ensures forall k :: k in KeysOf(ArrayOf(s, true)) ==> k in s.primary || k in s.columns
  {
    var vars := Variables(s.fields, Wanted(s, false));
    SerializeKeys(s, vars);
  }

  /** With distinct snake-case names, each selected property appears in the
      result of `toArray` exactly as `Cell` says: under its snake-case key with
      the copied value or the entity rows, or not at all. */
  lemma {:induction false} SerializeEntry(s: Snapshot, vars: seq<Entry>, e: Entry)
    requires forall x :: x in vars ==> x in s.fields
    requires SnakeKeysDistinct(vars) && e in vars
    ensures Cell(e).None? ==> ToSnakeCase(e.key) !in KeysOf(Serialize(s, vars))
    ensures Cell(e).Some? ==> ToSnakeCase(e.key) in KeysOf(Serialize(s, vars))
    ensures Cell(e).Some? ==> Get(Serialize(s, vars), ToSnakeCase(e.key)) == Cell(e).value
  {
    var pre := vars[..|vars| - 1];
    var last := vars[|vars| - 1];
    var acc := Serialize(s, pre);
    var k := ToSnakeCase(e.key);
    assert forall x :: x in vars <==> x in pre || x == last;
    assert SnakeKeysDistinct(pre);
    if e in pre {
      SerializeEntry(s, pre, e);
    } else {
      SerializeKeys(s, pre);
      forall x | x in pre ensures ToSnakeCase(x.key) != k {
        assert x in vars;
      }
      assert k !in KeysOf(acc);
    }
    match Cell(last)
    case None =>
    case Some(c) =>
      var lk := ToSnakeCase(last.key);
      PutKeys(acc, lk, c);
      PutGet(acc, lk, c, k);
      if lk == k {
        assert last in vars;
        assert last == e;
      }
  }

  /** `toArray` copies every selected non-array property under its snake-case
      name, stores an array property as the rows of its entities, and leaves an
      array property without entities out entirely. */
  lemma ToArrayEntry(s: Snapshot, onlyColumns: bool, e: Entry)
    requires SnakeKeysDistinct(s.fields)
    requires e in s.fields && ToSnakeCase(e.key) in Wanted(s, !onlyColumns)
    ensures !e.val.Arr? ==> ToSnakeCase(e.key) in KeysOf(ArrayOf(s, onlyColumns))
    ensures !e.val.Arr? ==> Get(ArrayOf(s, onlyColumns), ToSnakeCase(e.key)) == e.val
    ensures e.val.Arr? && EntityRows(e.val.entries) != [] ==>
      Get(ArrayOf(s, onlyColumns), ToSnakeCase(e.key)) == Arr(EntityRows(e.val.entries))
    ensures e.val.Arr? && EntityRows(e.val.entries) == [] ==>
      ToSnakeCase(e.key) !in KeysOf(ArrayOf(s, onlyColumns))
  {
    var vars := Variables(s.fields, Wanted(s, !onlyColumns));
    SerializeEntry(s, vars, e);
  }

  /** The rows made of an array property: their keys are snake-case keys of
      entity members, each value is that member's own `toArray()`, and there are
      none exactly when no member is an entity. */
  lemma {:induction false} EntityRowsSpec(es: seq<Entry>)
    ensures EntityRows(es) == [] <==> forall e {:trigger e in es} :: e in es ==> !e.val.Ent?
    ensures forall r :: r in EntityRows(es) ==>
      exists e {:trigger e in es} :: e in es && e.val.Ent? && r == Entry(ToSnakeCase(e.key), Arr(ArrayOf(e.val.obj, false)))
  {
    if es != [] {
      var pre := es[..|es| - 1];
      var last := es[|es| - 1];
      EntityRowsSpec(pre);
      assert forall x :: x in es <==> x in pre || x == last;
      if last.val.Ent? {
        var row := Arr(ArrayOf(last.val.obj, false));
        PutKeys(EntityRows(pre), ToSnakeCase(last.key), row);
        assert ToSnakeCase(last.key) in KeysOf(EntityRows(es));
        assert last in es;
      }
    }
  }

  /** Every entity member of an array property has a row under its snake-case key. */
  lemma {:induction false} EntityRowsCover(es: seq<Entry>)
    ensures forall e {:trigger e in es} :: e in es && e.val.Ent? ==> ToSnakeCase(e.key) in KeysOf(EntityRows(es))
  {
    if es != [] {
      var pre := es[..|es| - 1];
      var last := es[|es| - 1];
      EntityRowsCover(pre);
      var rest := EntityRows(pre);
      forall e | e in es && e.val.Ent? ensures ToSnakeCase(e.key) in KeysOf(EntityRows(es)) {
        if last.val.Ent? {
          PutKeys(rest, ToSnakeCase(last.key), Arr(ArrayOf(last.val.obj, false)));
        }
        if e != last {
          assert e in pre;
        }
      }
    }
  }

  /** When no two entity members of an array property share a snake-case key,
      each one's row is its own `toArray()`. */
  lemma {:induction false} EntityRowsValue(es: seq<Entry>)
    requires EntitySnakeKeysDistinct(es)
    ensures forall e {:trigger e in es} :: e in es && e.val.Ent? ==>
      Get(EntityRows(es), ToSnakeCase(e.key)) == Arr(ArrayOf(e.val.obj, false))
  {
    if es != [] {
      var pre := es[..|es| - 1];
      var last := es[|es| - 1];
      forall e1, e2 | e1 in pre && e2 in pre && e1.val.Ent? && e2.val.Ent? && ToSnakeCase(e1.key) == ToSnakeCase(e2.key)
        ensures e1 == e2
      {
        assert e1 in es && e2 in es;
      }
      EntityRowsValue(pre);
      var rest := EntityRows(pre);
      forall e | e in es && e.val.Ent?
        ensures Get(EntityRows(es), ToSnakeCase(e.key)) == Arr(ArrayOf(e.val.obj, false))
      {
        var k := ToSnakeCase(e.key);
        if e != last {
          assert e in pre;
        }
        if last.val.Ent? {
          var lk := ToSnakeCase(last.key);
          assert EntityRows(es) == Put(rest, lk, Arr(ArrayOf(last.val.obj, false)));
          PutGet(rest, lk, Arr(ArrayOf(last.val.obj, false)), k);
          if k == lk {
            assert last in es;
            assert e == last;
          }
        } else {
          assert EntityRows(es) == rest;
        }
      }
    }
  }

  /** `insert` and `update` send only numbers, strings and booleans, and only
      under primary-key and column names taken from `toArray(true)`. */
  lemma PayloadSpec(s: Snapshot)
    ensures forall e :: e in Payload(s) ==> e in ArrayOf(s, true)
    ensures forall e {:trigger e in Payload(s)} :: e in Payload(s) ==> e.val.Int? || e.val.Str? || e.val.Bool?
    ensures forall e {:trigger e in Payload(s)} :: e in Payload(s) ==> e.key in s.primary || e.key in s.columns
  {
    ColumnsOnlyKeys(s);
    forall e | e in Payload(s) ensures e.key in KeysOf(ArrayOf(s, true)) {
      var a := ArrayOf(s, true);
      var m :| 0 <= m < |a| && a[m] == e;
      assert KeysOf(a)[m] == e.key;
    }
  }
}
