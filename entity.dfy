/** The persistence base class: an in-memory record bound to a table, whose
    metadata (primary key, columns, relations) decides what `toArray` selects,
    what `insert` and `update` send to the database, and how `update` builds
    its WHERE clause. */
module Entities {
  import opened Values
  import opened Helper
  import opened Serialization

  /** What the setter that `assemble` finds for a record key does with its
      argument. The table from record keys to setters stands for both
      `'set' . SpoonFilter::toCamelCase($key)` and `method_exists`. */
  datatype Setter =
    | SetsId                      // the inherited setId: stores (int)$id
    | SetsTable                   // the inherited setTable
    | SetsQuery                   // the inherited setQuery
    | SetsProperty(name: string)  // a setter of the concrete entity: stores the value as given

  /** The setters every entity inherits, under the record keys that reach them. */
  const InheritedSetters: map<string, Setter> := map["id" := SetsId, "table" := SetsTable, "query" := SetsQuery]

  /** One call to the database handle. */
  datatype Call =
    | GetRecord(query: Value, parameters: seq<Value>)
    | Insert(table: Value, row: seq<Entry>)
    | Update(table: Value, row: seq<Entry>, where: string, whereValues: seq<Value>)

  /** The exception `update` throws: "Field <field> does not exist within <table>". */
  datatype Failure = MissingField(field: string, table: Value)

  // ---------------------------------------------------------------------------
  // The constructor's column list: array_unique(array_merge($_primary, $_columns))

  /** `array_unique`: the first occurrence of every value, in order. It keeps
      every value of its input, and each only once. */
  function Unique(s: seq<string>): (r: seq<string>)
    ensures forall x :: x in r <==> x in s
    ensures forall i, j :: 0 <= i < j < |r| ==> r[i] != r[j]
  {
    if s == [] then []
    else
      var r := Unique(s[..|s| - 1]);
      if s[|s| - 1] in r then r else r + [s[|s| - 1]]
  }

  /** The position of the first occurrence of `x` in `s`. */
  function FirstIndex(s: seq<string>, x: string): (i: nat)
    requires x in s
    ensures i < |s| && s[i] == x && x !in s[..i]
  {
    if x in s[..|s| - 1] then FirstIndex(s[..|s| - 1], x) else |s| - 1
  }

  /** `array_unique` lists the values in the order of their first occurrences. */
  lemma {:induction false} UniqueSpec(s: seq<string>)
    ensures forall i, j :: 0 <= i < j < |Unique(s)| ==> FirstIndex(s, Unique(s)[i]) < FirstIndex(s, Unique(s)[j])
  {
    if s != [] {
      var pre := s[..|s| - 1];
      var last := s[|s| - 1];
      UniqueSpec(pre);
      assert forall x :: x in s <==> x in pre || x == last;
      assert forall x :: x in pre ==> FirstIndex(s, x) == FirstIndex(pre, x);
      if last !in pre {
        assert FirstIndex(s, last) == |s| - 1;
      }
    }
  }

  // ---------------------------------------------------------------------------
  // What assemble's setters do, as functions of the state they change

  /** The part of the entity that setters can change. */
  datatype Props = Props(table: Value, query: Value, fields: seq<Entry>)

  function ApplySetter(p: Props, setter: Setter, v: Value): Props
  {
    match setter
    case SetsId => p.(fields := Put(p.fields, "id", Int(IntCast(v))))
    case SetsTable => p.(table := v)
    case SetsQuery => p.(query := v)
    case SetsProperty(n) => p.(fields := Put(p.fields, n, v))
  }

  /** The `foreach` of `assemble`: every record key that has a setter applies
      it to its value, null included; keys without a setter do nothing. */
  function ApplyRecord(p: Props, setters: map<string, Setter>, record: seq<Entry>): Props
  {
    if record == [] then p
    else
      var q := ApplyRecord(p, setters, record[..|record| - 1]);
      var e := record[|record| - 1];
      if e.key in setters then ApplySetter(q, setters[e.key], e.val) else q
  }

  /** One more record entry: what the `foreach` of `assemble` does with it. */
  lemma ApplyRecordStep(p: Props, setters: map<string, Setter>, record: seq<Entry>, i: int)
    requires 0 <= i < |record|
    ensures ApplyRecord(p, setters, record[..i + 1]) ==
      if record[i].key in setters then ApplySetter(ApplyRecord(p, setters, record[..i]), setters[record[i].key], record[i].val)
      else ApplyRecord(p, setters, record[..i])
  {
    assert record[..i + 1][..i] == record[..i];
  }

  /** `if (empty($this->_columns)) $this->_columns = array_keys($record);` */
  function ColumnsAfter(columns: seq<string>, record: seq<Entry>): seq<string>
  {
    if columns == [] then KeysOf(record) else columns
  }

  /** A place a setter writes. */
  datatype Slot = Property(name: string) | TableSlot | QuerySlot

  function SlotOf(setter: Setter): Slot
  {
    match setter
    case SetsId => Property("id")
    case SetsTable => TableSlot
    case SetsQuery => QuerySlot
    case SetsProperty(n) => Property(n)
  }

  function Read(p: Props, slot: Slot): Value
  {
    match slot
    case Property(n) => Get(p.fields, n)
    case TableSlot => p.table
    case QuerySlot => p.query
  }

  /** The value a setter stores for its argument. */
  function Stored(setter: Setter, v: Value): Value
  {
    if setter.SetsId? then Int(IntCast(v)) else v
  }

  /** The value the last record entry whose setter writes `slot` stores there. */
  function LastWrite(setters: map<string, Setter>, record: seq<Entry>, slot: Slot): Option<Value>
  {
    if record == [] then None
    else
      var e := record[|record| - 1];
      if e.key in setters && SlotOf(setters[e.key]) == slot then Some(Stored(setters[e.key], e.val))
      else LastWrite(setters, record[..|record| - 1], slot)
  }

  /** After `assemble`, every place holds what the last record entry writing
      it stored, null values included, and places no entry writes keep their
      value. */
  lemma {:induction false} AssembleLastWriteWins(p: Props, setters: map<string, Setter>, record: seq<Entry>, slot: Slot)
    ensures Read(ApplyRecord(p, setters, record), slot) ==
      match LastWrite(setters, record, slot)
      case Some(v) => v
      case None => Read(p, slot)
  {
    if record != [] {
      var pre := record[..|record| - 1];
      var e := record[|record| - 1];
      AssembleLastWriteWins(p, setters, pre, slot);
      var q := ApplyRecord(p, setters, pre);
      if e.key in setters && slot.Property? {
        match setters[e.key]
        case SetsId => PutGet(q.fields, "id", Int(IntCast(e.val)), slot.name);
        case SetsProperty(m) => PutGet(q.fields, m, e.val, slot.name);
        case SetsTable =>
        case SetsQuery =>
      }
    }
  }

  /** A record value of null reaches the property: it does not keep its old value. */
  lemma AssembleStoresNull(p: Props, setters: map<string, Setter>, key: string, n: string)
    requires key in setters && setters[key] == SetsProperty(n)
    ensures Get(ApplyRecord(p, setters, [Entry(key, Null)]).fields, n) == Null
  {
    AssembleLastWriteWins(p, setters, [Entry(key, Null)], Property(n));
  }

  /** `setId(null)`, reached from a record whose `id` is null, stores 0. */
  lemma AssembleNullId(p: Props, setters: map<string, Setter>)
    requires "id" in setters && setters["id"] == SetsId
    ensures Get(ApplyRecord(p, setters, [Entry("id", Null)]).fields, "id") == Int(0)
  {
    AssembleLastWriteWins(p, setters, [Entry("id", Null)], Property("id"));
  }

  /** After `assemble`, the properties are the old ones and those a record
      entry writes. */
  lemma {:induction false} AssembleKeys(p: Props, setters: map<string, Setter>, record: seq<Entry>)
    ensures forall k {:trigger k in KeysOf(ApplyRecord(p, setters, record).fields)} :: k in KeysOf(ApplyRecord(p, setters, record).fields) ==>
      k in KeysOf(p.fields) || LastWrite(setters, record, Property(k)).Some?
    ensures forall k {:trigger LastWrite(setters, record, Property(k))} :: LastWrite(setters, record, Property(k)).Some? ==> k in KeysOf(ApplyRecord(p, setters, record).fields)
  {
    if record != [] {
      var pre := record[..|record| - 1];
      var e := record[|record| - 1];
      AssembleKeys(p, setters, pre);
      var q := ApplyRecord(p, setters, pre);
      if e.key in setters {
        match setters[e.key]
        case SetsId => PutKeys(q.fields, "id", Int(IntCast(e.val)));
        case SetsProperty(m) => PutKeys(q.fields, m, e.val);
        case SetsTable =>
        case SetsQuery =>
      }
    }
  }

  /** When every property a record writes is already there, `assemble` keeps
      the property names and their order. */
  lemma {:induction false} AssembleKeepsKeys(p: Props, setters: map<string, Setter>, record: seq<Entry>)
    requires forall k {:trigger LastWrite(setters, record, Property(k))} :: LastWrite(setters, record, Property(k)).Some? ==> k in KeysOf(p.fields)
    ensures KeysOf(ApplyRecord(p, setters, record).fields) == KeysOf(p.fields)
  {
    if record != [] {
      var pre := record[..|record| - 1];
      var e := record[|record| - 1];
      forall k {:trigger LastWrite(setters, pre, Property(k))} | LastWrite(setters, pre, Property(k)).Some? ensures k in KeysOf(p.fields) {
        assert LastWrite(setters, record, Property(k)).Some?;
      }
      AssembleKeepsKeys(p, setters, pre);
      if e.key in setters && SlotOf(setters[e.key]).Property? {
        assert LastWrite(setters, record, SlotOf(setters[e.key])).Some?;
      }
    }
  }

  /** `assemble` keeps the property names distinct. */
  lemma {:induction false} AssembleDistinct(p: Props, setters: map<string, Setter>, record: seq<Entry>)
    requires DistinctKeys(p.fields)
    ensures DistinctKeys(ApplyRecord(p, setters, record).fields)
  {
    if record != [] {
      var pre := record[..|record| - 1];
      var e := record[|record| - 1];
      AssembleDistinct(p, setters, pre);
      var q := ApplyRecord(p, setters, pre);
      if e.key in setters {
        match setters[e.key]
        case SetsId => PutDistinct(q.fields, "id", Int(IntCast(e.val)));
        case SetsProperty(m) => PutDistinct(q.fields, m, e.val);
        case SetsTable =>
        case SetsQuery =>
      }
    }
  }

  /** Two property lists with distinct keys, the same keys in the same order
      and the same value under every key are the same list. */
  lemma EntriesEqual(a: seq<Entry>, b: seq<Entry>)
    requires DistinctKeys(a) && KeysOf(a) == KeysOf(b)
    requires forall k :: Get(a, k) == Get(b, k)
    ensures a == b
  {
    assert DistinctKeys(b) by {
      forall i, j | 0 <= i < j < |b| ensures KeyAt(b, i) != KeyAt(b, j) {
        assert KeysOf(a)[i] == KeysOf(b)[i] && KeysOf(a)[j] == KeysOf(b)[j];
        assert KeyAt(a, i) != KeyAt(a, j);
      }
    }
    forall i | 0 <= i < |a| ensures a[i] == b[i] {
      assert KeysOf(a)[i] == KeysOf(b)[i];
      GetEntry(a, a[i]);
      GetEntry(b, b[i]);
    }
  }

  /** Assembling the same record twice leaves the entity as assembling it once. */
  lemma AssembleIdempotent(p: Props, setters: map<string, Setter>, columns: seq<string>, record: seq<Entry>)
    requires DistinctKeys(p.fields)
    ensures ApplyRecord(ApplyRecord(p, setters, record), setters, record) == ApplyRecord(p, setters, record)
    ensures ColumnsAfter(ColumnsAfter(columns, record), record) == ColumnsAfter(columns, record)
  {
    var once := ApplyRecord(p, setters, record);
    var twice := ApplyRecord(once, setters, record);
    AssembleKeys(p, setters, record);
    AssembleDistinct(p, setters, record);
    AssembleKeepsKeys(once, setters, record);
    forall slot ensures Read(twice, slot) == Read(once, slot) {
      AssembleLastWriteWins(p, setters, record, slot);
      AssembleLastWriteWins(once, setters, record, slot);
    }
    assert twice.table == once.table by { assert Read(twice, TableSlot) == Read(once, TableSlot); }
    assert twice.query == once.query by { assert Read(twice, QuerySlot) == Read(once, QuerySlot); }
    forall k ensures Get(once.fields, k) == Get(twice.fields, k) {
      assert Read(twice, Property(k)) == Read(once, Property(k));
    }
    EntriesEqual(once.fields, twice.fields);
  }

  /** `$result[$key] = $value` in `getVariables` appends: an earlier property
      never has the key of a later one. */
  lemma VariablesNewKey(fields: seq<Entry>, wanted: seq<string>, i: int)
    requires DistinctKeys(fields) && 0 <= i < |fields|
    ensures fields[i].key !in KeysOf(Variables(fields[..i], wanted))
  {
    var vs := Variables(fields[..i], wanted);
    forall m | 0 <= m < |vs| ensures KeysOf(vs)[m] != fields[i].key {
      assert vs[m] in vs;
      var j :| 0 <= j < i && fields[..i][j] == vs[m];
      assert fields[j] == vs[m];
      assert KeyAt(fields, j) != KeyAt(fields, i);
    }
  }

  // ---------------------------------------------------------------------------
  // update's WHERE clause

  /** Whether `isset($arrayToSave[$primary[i]])` holds when the loop of
      `update` reaches key `i`: the key is in the row and no earlier, equal
      key has already unset it. */
  predicate KeyBound(primary: seq<string>, row: seq<Entry>, i: int)
    requires 0 <= i < |primary|
  {
    primary[i] in KeysOf(row) && primary[i] !in primary[..i]
  }

  /** The first primary key `update` cannot find, if any. */
  function FirstUnbound(primary: seq<string>, row: seq<Entry>, from: nat): (r: Option<nat>)
    requires from <= |primary|
    ensures r.Some? ==> from <= r.value < |primary| && !KeyBound(primary, row, r.value)
    ensures r.Some? ==> forall j :: from <= j < r.value ==> KeyBound(primary, row, j)
    ensures r.None? ==> forall j :: from <= j < |primary| ==> KeyBound(primary, row, j)
    decreases |primary| - from
  {
    if from == |primary| then None
    else if !KeyBound(primary, row, from) then Some(from)
    else FirstUnbound(primary, row, from + 1)
  }

  /** `update` finds every key exactly when the row holds every primary key
      and no key is listed twice. */
  lemma UpdateFindsAllKeys(primary: seq<string>, row: seq<Entry>)
    ensures FirstUnbound(primary, row, 0).None? <==>
      (forall p :: p in primary ==> p in KeysOf(row)) &&
      (forall i, j :: 0 <= i < j < |primary| ==> primary[i] != primary[j])
  {
    if FirstUnbound(primary, row, 0).None? {
      forall p | p in primary ensures p in KeysOf(row) {
        var i :| 0 <= i < |primary| && primary[i] == p;
        assert KeyBound(primary, row, i);
      }
      forall i, j | 0 <= i < j < |primary| ensures primary[i] != primary[j] {
        assert KeyBound(primary, row, j);
        assert primary[..j][i] == primary[i];
      }
    } else {
      var i := FirstUnbound(primary, row, 0).value;
      assert primary[i] in primary;
      if primary[i] in KeysOf(row) {
        var j :| 0 <= j < i && primary[..i][j] == primary[i];
        assert primary[j] == primary[i];
      }
    }
  }

  /** `FirstUnbound` names the first key that is not bound. */
  lemma {:induction false} FirstUnboundAt(primary: seq<string>, row: seq<Entry>, from: nat, i: nat)
    requires from <= i < |primary|
    requires forall j :: from <= j < i ==> KeyBound(primary, row, j)
    requires !KeyBound(primary, row, i)
    ensures FirstUnbound(primary, row, from) == Some(i)
    decreases i - from
  {
    if from < i {
      FirstUnboundAt(primary, row, from + 1, i);
    }
  }

  /** `isset($a[k])`: the key is present and its value is not null. */
  predicate Isset(a: seq<Entry>, k: string)
  {
    k in KeysOf(a) && Get(a, k) != Null
  }

  /** In an array with distinct keys, `isset($a[k])` holds exactly when some
      entry with key `k` holds a value other than null. */
  lemma IssetEntry(a: seq<Entry>, k: string)
    requires DistinctKeys(a)
    ensures Isset(a, k) <==> exists e {:trigger e in a} :: e in a && e.key == k && e.val != Null
  {
    if Isset(a, k) {
      GetPresent(a, k);
      assert Entry(k, Get(a, k)) in a;
    } else {
      forall e | e in a && e.key == k ensures e.val == Null {
        var m :| 0 <= m < |a| && a[m] == e;
        assert KeysOf(a)[m] == k;
        GetEntry(a, e);
      }
    }
  }

  /** In a row without null values, `isset` after unsetting `ks` holds
      exactly for the keys of the row that are not in `ks`, which read as
      before. */
  lemma IssetAfterUnset(row: seq<Entry>, ks: seq<string>, p: string)
    requires forall e {:trigger e in row} :: e in row ==> e.val != Null
    ensures Isset(RemoveKeys(row, ks), p) <==> p in KeysOf(row) && p !in ks
    ensures p !in ks ==> Get(RemoveKeys(row, ks), p) == Get(row, p)
  {
    RemoveKeysGet(row, ks, p);
    if p in KeysOf(row) && p !in ks {
      GetPresent(row, p);
    }
  }

  /** One turn of `update`'s loop over the primary keys, on a row without
      null values of which the keys before `i` are already unset: `isset`
      decides whether key `i` is bound; if it is not, it is the first unbound
      key; if it is, unsetting it and reading it continue the loop. */
  lemma UpdateStep(primary: seq<string>, row: seq<Entry>, i: int)
    requires forall e {:trigger e in row} :: e in row ==> e.val != Null
    requires 0 <= i < |primary|
    requires forall j :: 0 <= j < i ==> KeyBound(primary, row, j)
    ensures Isset(RemoveKeys(row, primary[..i]), primary[i]) <==> KeyBound(primary, row, i)
    ensures !KeyBound(primary, row, i) ==> FirstUnbound(primary, row, 0) == Some(i)
    ensures KeyBound(primary, row, i) ==>
      (forall j :: 0 <= j < i + 1 ==> KeyBound(primary, row, j)) &&
      Get(RemoveKeys(row, primary[..i]), primary[i]) == Get(row, primary[i]) &&
      RemoveKeys(RemoveKeys(row, primary[..i]), [primary[i]]) == RemoveKeys(row, primary[..i + 1])
  {
    var p := primary[i];
    IssetAfterUnset(row, primary[..i], p);
    if KeyBound(primary, row, i) {
      RemoveOneMore(row, primary[..i], p);
      TakeOneMore(primary, i);
    } else {
      FirstUnboundAt(primary, row, 0, i);
    }
  }

  /** The `"p = ?"` fragments, one per primary key, in order. */
  function Fragments(primary: seq<string>): seq<string>
  {
    seq(|primary|, i requires 0 <= i < |primary| => primary[i] + " = ?")
  }

  /** `implode($sep, $parts)`. */
  function Join(parts: seq<string>, sep: string): string
  {
    if |parts| == 0 then ""
    else if |parts| == 1 then parts[0]
    else Join(parts[..|parts| - 1], sep) + sep + parts[|parts| - 1]
  }

  /** `f` applied to every key, in order. */
  function MapKeys(keys: seq<string>, f: string -> Value): seq<Value>
  {
    seq(|keys|, i requires 0 <= i < |keys| => f(keys[i]))
  }

  /** Reading `$row[k]`. */
  function Lookup(row: seq<Entry>): string -> Value
  {
    k => Get(row, k)
  }

  /** The bound values, one per primary key, in the same order. */
  function WhereValues(primary: seq<string>, row: seq<Entry>): seq<Value>
  {
    MapKeys(primary, Lookup(row))
  }

  /** One more primary key: one more fragment, at the end. */
  lemma FragmentsStep(primary: seq<string>, i: int)
    requires 0 <= i < |primary|
    ensures Fragments(primary[..i + 1]) == Fragments(primary[..i]) + [primary[i] + " = ?"]
  {
  }

  /** One more primary key: one more bound value, at the end. */
  lemma WhereValuesStep(primary: seq<string>, row: seq<Entry>, i: int)
    requires 0 <= i < |primary|
    ensures WhereValues(primary[..i + 1], row) == WhereValues(primary[..i], row) + [Get(row, primary[i])]
  {
    MapKeysStep(primary, Lookup(row), i);
  }

  /** One more key: one more value, at the end. */
  lemma MapKeysStep(keys: seq<string>, f: string -> Value, i: int)
    requires 0 <= i < |keys|
    ensures MapKeys(keys[..i + 1], f) == MapKeys(keys[..i], f) + [f(keys[i])]
  {
  }

  /** `implode` of two non-empty lists one after the other is their two
      implodes joined by the separator. */
  lemma {:induction false} JoinAppend(p: seq<string>, q: seq<string>, sep: string)
    requires p != [] && q != []
    ensures Join(p + q, sep) == Join(p, sep) + sep + Join(q, sep)
  {
    var pq := p + q;
    if |q| == 1 {
      assert pq[..|pq| - 1] == p;
    } else {
      var front := q[..|q| - 1];
      JoinAppend(p, front, sep);
      assert pq[..|pq| - 1] == p + front;
      assert pq[|pq| - 1] == q[|q| - 1];
    }
  }

  /** Each further primary key adds `" AND p = ?"` to the WHERE clause. */
  lemma WhereClauseStep(primary: seq<string>, p: string)
    requires primary != []
    ensures Join(Fragments(primary + [p]), " AND ") == Join(Fragments(primary), " AND ") + " AND " + p + " = ?"
  {
    assert Fragments(primary + [p]) == Fragments(primary) + [p + " = ?"];
    JoinAppend(Fragments(primary), [p + " = ?"], " AND ");
  }

  /** What `update` does for an entity in state `s` bound to `table`: the
      exception it throws for the first primary key missing from the
      payload, or the one call it makes. */
  function UpdateOutcome(s: Snapshot, table: Value): Result<Call, Failure>
  {
    var row := Payload(s);
    match FirstUnbound(s.primary, row, 0)
    case Some(i) => Err(MissingField(s.primary[i], table))
    case None => Ok(Call.Update(table, RemoveKeys(row, s.primary), Join(Fragments(s.primary), " AND "), WhereValues(s.primary, row)))
  }

  /** What the loop of `update` over the primary keys leaves behind: the row
      without the primary keys, the `"p = ?"` fragments and the bound values. */
  datatype Binding = Binding(rest: seq<Entry>, where: seq<string>, whereValues: seq<Value>)

  /** The loop of `update` over the primary keys, on the filtered row (which
      holds no null value): throws for the first key `isset` rejects, and
      otherwise collects one fragment and one bound value per key, unsetting
      each key as it goes. `table` only appears in the exception. */
  method BindPrimaryKeys(primary: seq<string>, row: seq<Entry>, table: Value) returns (r: Result<Binding, Failure>)
    requires forall e {:trigger e in row} :: e in row ==> e.val != Null
    ensures match FirstUnbound(primary, row, 0)
      case Some(i) => r == Err(MissingField(primary[i], table))
      case None => r == Ok(Binding(RemoveKeys(row, primary), Fragments(primary), WhereValues(primary, row)))
  {
    var arrayToSave := row;
    RemoveNothing(row);
    var whereValues: seq<Value> := [];
    var where: seq<string> := [];
    for i := 0 to |primary|
      invariant arrayToSave == RemoveKeys(row, primary[..i])
      invariant where == Fragments(primary[..i])
      invariant whereValues == WhereValues(primary[..i], row)
      invariant forall j :: 0 <= j < i ==> KeyBound(primary, row, j)
    {
      var p := primary[i];
      UpdateStep(primary, row, i);
      if !Isset(arrayToSave, p) {
        return Err(MissingField(p, table));
      }
      FragmentsStep(primary, i);
      WhereValuesStep(primary, row, i);
      where := where + [p + " = ?"];
      whereValues := whereValues + [Get(arrayToSave, p)];
      arrayToSave := RemoveKeys(arrayToSave, [p]);
    }
    assert primary[..|primary|] == primary;
    assert FirstUnbound(primary, row, 0).None?;
    r := Ok(Binding(arrayToSave, where, whereValues));
  }

  // ---------------------------------------------------------------------------
  // The entity

  class AbstractEntity {
    var table: Value
    var query: Value
    var primary: seq<string>
    var columns: seq<string>
    var relations: seq<string>
    var loaded: bool
    /** The data properties, `id` among them, in the order `get_object_vars` lists them. */
    var fields: seq<Entry>
    /** Which record keys `assemble` finds a setter for, and what it does. */
    const setters: map<string, Setter>
    /** The calls made to the database handle, oldest first. */
    ghost var calls: seq<Call>

    ghost predicate Valid()
      reads this`fields, this`primary, this`columns
    {
      DistinctKeys(fields) && HasKey(fields, "id") && (forall p :: p in primary ==> p in columns)
    }

    /** What `toArray` reads. */
    function State(): Snapshot
      reads this`primary, this`columns, this`relations, this`fields
    {
      Snapshot(primary, columns, relations, fields)
    }

    /** What the setters can change. */
    function Current(): Props
      reads this`table, this`query, this`fields
    {
      Props(table, query, fields)
    }

    /** `getId`. */
    function Id(): Value
      reads this`fields
    {
      Get(fields, "id")
    }

    /** `isLoaded`: the id is numeric. */
    predicate IsLoaded()
      reads this`fields
      ensures Id().Int? ==> IsLoaded()
      ensures !Id().Int? && !Id().Str? ==> !IsLoaded()
    {
      IsNumeric(Id())
    }

    /** The constructor of a concrete entity: its class declares the table,
        the query, the key, column and relation lists, its data properties
        with their defaults and its own setters. */
    constructor (table: Value, query: Value, primary: seq<string>, columns: seq<string>,
                 relations: seq<string>, properties: seq<Entry>, ownSetters: map<string, Setter>)
      requires DistinctKeys(properties) && "id" in KeysOf(properties)
      ensures Valid()
      ensures this.columns == Unique(primary + columns)
      ensures this.table == table && this.query == query && this.primary == primary
      ensures this.relations == relations && this.fields == properties
      ensures this.setters == InheritedSetters + ownSetters
      ensures !loaded && calls == []
      ensures Get(properties, "id") == Null ==> !IsLoaded()
    {
      this.table := table;
      this.query := query;
      this.primary := primary;
      this.relations := relations;
      this.fields := properties;
      this.setters := InheritedSetters + ownSetters;
      this.loaded := false;
      this.calls := [];
      this.columns := Unique(primary + columns);
      new;
      HasKeyIn(properties, "id");
      UniqueSpec(primary + columns);
    }

    /** `setId`: stores the int cast of its argument, so the entity is loaded afterwards. */
    method SetId(id: Value)
      requires Valid()
      modifies this`fields
      ensures Valid()
      ensures fields == Put(old(fields), "id", Int(IntCast(id)))
      ensures Id() == Int(IntCast(id)) && IsLoaded()
    {
      StoreId(IntCast(id));
    }

    /** `$this->id = id`. */
    method StoreId(id: int)
      requires Valid()
      modifies this`fields
      ensures Valid()
      ensures fields == Put(old(fields), "id", Int(id))
      ensures Id() == Int(id) && IsLoaded()
    {
      PutDistinct(fields, "id", Int(id));
      PutKeepsKey(fields, "id", Int(id), "id");
      PutGet(fields, "id", Int(id), "id");
      fields := Put(fields, "id", Int(id));
    }

    /** `setTable`. */
    method SetTable(t: Value)
      modifies this`table
      ensures table == t
    {
      table := t;
    }

    /** `setQuery`. */
    method SetQuery(q: Value)
      modifies this`query
      ensures query == q
    {
      query := q;
    }

    /** `assemble`: marks the entity loaded, takes the record's keys as the
        columns when there are none yet, and hands every value that has a
        setter to it. */
    method Assemble(record: seq<Entry>)
      requires Valid()
      modifies this`loaded, this`columns, this`table, this`query, this`fields
      ensures Valid()
      ensures loaded
      ensures columns == ColumnsAfter(old(columns), record)
      ensures Current() == ApplyRecord(old(Current()), setters, record)
    {
      loaded := true;
      if |columns| == 0 {
        columns := KeysOf(record);
      }
      for i := 0 to |record|
        invariant Valid() && loaded
        invariant columns == ColumnsAfter(old(columns), record)
        invariant Current() == ApplyRecord(old(Current()), setters, record[..i])
      {
        var e := record[i];
        ApplyRecordStep(old(Current()), setters, record, i);
        if e.key in setters {
          match setters[e.key]
          case SetsId => SetId(e.val);
          case SetsTable => SetTable(e.val);
          case SetsQuery => SetQuery(e.val);
          case SetsProperty(n) =>
            PutDistinct(fields, n, e.val);
            PutKeepsKey(fields, n, e.val, "id");
            fields := Put(fields, n, e.val);
        }
      }
      assert record[..|record|] == record;
    }

    /** `load`: with a query, fetches one record with the given parameters
        (`reply` is what the database returns, `None` for no row, which the
        array cast turns into an empty record) and assembles it; without a
        query, does nothing. */
    method Load(parameters: seq<Value>, reply: Option<seq<Entry>>)
      requires Valid()
      modifies this`loaded, this`columns, this`table, this`query, this`fields, this`calls
      ensures Valid()
      ensures IsEmpty(old(query)) ==>
        calls == old(calls) && loaded == old(loaded) && columns == old(columns) && Current() == old(Current())
      ensures !IsEmpty(old(query)) ==>
        var record := if reply.Some? then reply.value else [];
        calls == old(calls) + [GetRecord(old(query), parameters)] && loaded &&
        columns == ColumnsAfter(old(columns), record) &&
        Current() == ApplyRecord(old(Current()), setters, record)
    {
      if !IsEmpty(query) {
        calls := calls + [GetRecord(query, parameters)];
        var record := if reply.Some? then reply.value else [];
        Assemble(record);
      }
    }

    /** `getVariables`: the properties whose snake-case name is a primary key
        or a column, or a relation when relations are included. */
    method GetVariables(includeRelations: bool) returns (result: seq<Entry>)
      requires Valid()
      ensures result == Variables(fields, Wanted(State(), includeRelations))
    {
      var wanted := primary + columns;
      if includeRelations {
        wanted := wanted + relations;
      }
      assert wanted == Wanted(State(), includeRelations);
      result := [];
      for i := 0 to |fields|
        invariant result == Variables(fields[..i], wanted)
      {
        var f := fields[i];
        VariablesNewKey(fields, wanted, i);
        VariablesStep(fields, wanted, i);
        if ToSnakeCase(f.key) in wanted {
          result := Put(result, f.key, f.val);
        }
      }
      assert fields[..|fields|] == fields;
    }

    /** `isAffected`: some selected property, relations included, is not null. */
    method IsAffected() returns (affected: bool)
      requires Valid()
      ensures affected <==> exists e {:trigger e in fields} :: e in fields && ToSnakeCase(e.key) in Wanted(State(), true) && e.val != Null
    {
      var vars := GetVariables(true);
      var kept := FilterEntries(vars, FilterNotNull);
      affected := kept != [];
      if affected {
        assert kept[0] in kept;
      }
    }

    /** `toArray`: the selected properties under their snake-case names; an
        array property becomes the `toArray()` of its entity members, and is
        left out when it has none. The entity itself is not changed. */
    method ToArray(onlyColumns: bool) returns (result: seq<Entry>)
      requires Valid()
      ensures result == ArrayOf(State(), onlyColumns)
    {
      ghost var s := State();
      var vars := GetVariables(!onlyColumns);
      result := [];
      for i := 0 to |vars|
        invariant forall e :: e in vars[..i] ==> e in s.fields
        invariant result == Serialize(s, vars[..i])
      {
        SerializeStep(s, vars, i);
        var key := ToSnakeCase(vars[i].key);
        var value := vars[i].val;
        if value.Arr? {
          // `rows` is `$result[$key]` while the members are visited
          var rows := [];
          for j := 0 to |value.entries|
            invariant rows == EntityRows(value.entries[..j])
          {
            EntityRowsStep(value.entries, j);
            var member := value.entries[j];
            if member.val.Ent? {
              rows := Put(rows, ToSnakeCase(member.key), Arr(ArrayOf(member.val.obj, false)));
            }
          }
          assert value.entries[..|value.entries|] == value.entries;
          if rows != [] {
            result := Put(result, key, Arr(rows));
          }
        } else {
          result := Put(result, key, value);
        }
      }
      assert vars[..|vars|] == vars;
    }

    /** `insert`: sends the valuable part of `toArray(true)` and returns the
        int cast of what the database returns (`reply`). */
    method Insert(reply: Value) returns (id: int)
      requires Valid()
      modifies this`calls
      ensures calls == old(calls) + [Call.Insert(table, Payload(State()))]
      ensures id == IntCast(reply)
    {
      var all := ToArray(true);
      var row := FilterEntries(all, FilterValuable);
      calls := calls + [Call.Insert(table, row)];
      id := IntCast(reply);
    }

    /** `update`: sends the valuable part of `toArray(true)` without the
        primary keys, with a WHERE clause of one `"p = ?"` per primary key
        joined by `" AND "` and the key values bound in the same order; a
        primary key missing from the row throws instead, before any call. */
    method Update(reply: Value) returns (r: Result<int, Failure>)
      requires Valid()
      modifies this`calls
      ensures match UpdateOutcome(State(), table)
        case Err(f) => r == Err(f) && calls == old(calls)
        case Ok(c) => r == Ok(IntCast(reply)) && calls == old(calls) + [c]
    {
      var all := ToArray(true);
      var arrayToSave := FilterEntries(all, FilterValuable);
      var bound := BindPrimaryKeys(primary, arrayToSave, table);
      if bound.Err? {
        r := Err(bound.error);
        return;
      }
      var Binding(rest, where, whereValues) := bound.value;
      calls := calls + [Call.Update(table, rest, Join(where, " AND "), whereValues)];
      r := Ok(IntCast(reply));
    }

    /** `save`: inserts when the id is empty or the entity was never
        assembled, overwriting the id with the generated one and returning
        it; otherwise updates and returns the id unchanged. The loaded flag is
        never changed. `reply` is what the database returns to the one call
        made. */
    method Save(reply: Value) returns (r: Result<Value, Failure>)
      requires Valid()
      modifies this`fields, this`calls
      ensures Valid() && loaded == old(loaded)
      ensures old(IsEmpty(Id()) || !loaded) ==>
        calls == old(calls) + [Call.Insert(table, Payload(old(State())))] &&
        fields == Put(old(fields), "id", Int(IntCast(reply))) &&
        r == Ok(Int(IntCast(reply))) && Id() == Int(IntCast(reply)) && IsLoaded()
      ensures old(!IsEmpty(Id()) && loaded) ==>
        fields == old(fields) &&
        match UpdateOutcome(State(), table)
        case Err(f) => r == Err(f) && calls == old(calls)
        case Ok(c) => r == Ok(Id()) && calls == old(calls) + [c]
    {
      if IsEmpty(Id()) || !loaded {
        var id := Insert(reply);
        StoreId(id);
        r := Ok(Int(id));
      } else {
        var u := Update(reply);
        if u.Err? {
          r := Err(u.error);
        } else {
          r := Ok(Id());
        }
      }
    }
  }
}
