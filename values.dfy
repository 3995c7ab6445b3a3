/** PHP values as the entity layer handles them, PHP's ordered arrays, and the
    few PHP conversions the layer relies on (`empty`, `is_numeric`, `(int)`). */
module Values {

  datatype Option<T> = None | Some(value: T)

  datatype Result<T, E> = Ok(value: T) | Err(error: E)

  /** A PHP value. Arrays and objects are ordered lists of entries; an entity
      object is represented by a snapshot of the state its `toArray` reads. */
  datatype Value =
    | Null
    | Int(i: int)
    | Str(s: string)
    | Bool(b: bool)
    | Arr(entries: seq<Entry>)
    | Ent(obj: Snapshot)
    | Object(cls: string)

  /** One key/value pair of a PHP array, or one property of an object. */
  datatype Entry = Entry(key: string, val: Value)

  /** The part of an entity that `toArray` reads: the metadata lists and the
      data properties, in declaration order. */
  datatype Snapshot = Snapshot(
    primary: seq<string>,
    columns: seq<string>,
    relations: seq<string>,
    fields: seq<Entry>)

  // ---------------------------------------------------------------------------
  // Ordered arrays

  /** A prefix one element longer. */
  lemma TakeOneMore<T>(s: seq<T>, i: int)
    requires 0 <= i < |s|
    ensures s[..i + 1] == s[..i] + [s[i]]
  {
  }

  /** `array_keys`. */
  function KeysOf(a: seq<Entry>): (ks: seq<string>)
    ensures |ks| == |a|
    ensures forall i :: 0 <= i < |a| ==> ks[i] == a[i].key
  {
    if a == [] then [] else [a[0].key] + KeysOf(a[1..])
  }

  /** The key of entry `i`. */
  function KeyAt(a: seq<Entry>, i: int): string
    requires 0 <= i < |a|
  {
    a[i].key
  }

  /** What every PHP array and every object's property list satisfies. */
  ghost predicate DistinctKeys(a: seq<Entry>)
  {
    forall i, j {:trigger KeyAt(a, i), KeyAt(a, j)} :: 0 <= i < j < |a| ==> KeyAt(a, i) != KeyAt(a, j)
  }

  /** `$a[k]` for a key that is present; a missing key reads as null. */
  function Get(a: seq<Entry>, k: string): (v: Value)
    ensures k !in KeysOf(a) ==> v == Null
  {
    if a == [] then Null
    else if a[0].key == k then a[0].val
    else Get(a[1..], k)
  }

  lemma {:induction false} DistinctTail(a: seq<Entry>)
    requires a != [] && DistinctKeys(a)
    ensures DistinctKeys(a[1..])
    ensures a[0].key !in KeysOf(a[1..])
  {
    forall i, j | 0 <= i < j < |a[1..]| ensures KeyAt(a[1..], i) != KeyAt(a[1..], j) {
      assert a[1..][i] == a[i + 1] && a[1..][j] == a[j + 1];
      assert KeyAt(a, i + 1) != KeyAt(a, j + 1);
    }
    forall m | 0 <= m < |a[1..]| ensures KeysOf(a[1..])[m] != a[0].key {
      assert a[1..][m] == a[m + 1];
      assert KeyAt(a, 0) != KeyAt(a, m + 1);
    }
  }

  /** In an array with distinct keys, each entry is what its key reads. */
  lemma {:induction false} GetEntry(a: seq<Entry>, e: Entry)
    requires DistinctKeys(a) && e in a
    ensures Get(a, e.key) == e.val
  {
    DistinctTail(a);
    if a[0] != e {
      assert e in a[1..];
      assert e.key in KeysOf(a[1..]) by {
        var m :| 0 <= m < |a[1..]| && a[1..][m] == e;
        assert KeysOf(a[1..])[m] == e.key;
      }
      GetEntry(a[1..], e);
    }
  }

  /** `$a[k] = v`: replaces the value in place when `k` is present, appends otherwise. */
  function Put(a: seq<Entry>, k: string, v: Value): (r: seq<Entry>)
    ensures k in KeysOf(a) ==> KeysOf(r) == KeysOf(a)
    ensures k !in KeysOf(a) ==> r == a + [Entry(k, v)]
  {
    if a == [] then [Entry(k, v)]
    else if a[0].key == k then
      var r := [Entry(k, v)] + a[1..];
      assert r[1..] == a[1..];
      assert KeysOf(r) == [k] + KeysOf(a[1..]);
      r
    else
      var rest := Put(a[1..], k, v);
      var r := [a[0]] + rest;
      assert r[1..] == rest;
      assert KeysOf(a) == [a[0].key] + KeysOf(a[1..]);
      assert KeysOf(r) == [a[0].key] + KeysOf(rest);
      assert k !in KeysOf(a) ==> r == [a[0]] + (a[1..] + [Entry(k, v)]) == a + [Entry(k, v)];
      r
  }

  /** After `$a[k] = v`, `$a[k]` is `v` and every other key reads as before. */
  lemma {:induction false} PutGet(a: seq<Entry>, k: string, v: Value, k': string)
    ensures Get(Put(a, k, v), k') == if k' == k then v else Get(a, k')
  {
    if a != [] && a[0].key != k {
      PutGet(a[1..], k, v, k');
      assert Put(a, k, v) == [a[0]] + Put(a[1..], k, v);
    }
  }

  /** The keys after `$a[k] = v` are the old keys and `k`; no other entry appears. */
  lemma {:induction false} PutKeys(a: seq<Entry>, k: string, v: Value)
    ensures forall k' :: k' in KeysOf(Put(a, k, v)) <==> k' in KeysOf(a) || k' == k
    ensures forall e :: e in Put(a, k, v) ==> e in a || e == Entry(k, v)
  {
    if k !in KeysOf(a) {
      assert KeysOf(a + [Entry(k, v)]) == KeysOf(a) + [k];
    } else if a[0].key == k {
      assert Put(a, k, v)[1..] == a[1..];
    } else {
      assert KeysOf(a) == [a[0].key] + KeysOf(a[1..]);
      PutKeys(a[1..], k, v);
      var rest := Put(a[1..], k, v);
      assert Put(a, k, v) == [a[0]] + rest;
    }
  }

  /** Some entry of `a` has key `k`, read one entry at a time. */
  predicate HasKey(a: seq<Entry>, k: string)
  {
    a != [] && (a[0].key == k || HasKey(a[1..], k))
  }

  /** `HasKey` is membership among the keys. */
  lemma {:induction false} HasKeyIn(a: seq<Entry>, k: string)
    ensures HasKey(a, k) <==> k in KeysOf(a)
  {
    if a != [] {
      HasKeyIn(a[1..], k);
      assert KeysOf(a) == [a[0].key] + KeysOf(a[1..]);
    }
  }

  /** `$a[k] = v` keeps every key the array had. */
  lemma PutKeepsKey(a: seq<Entry>, k: string, v: Value, k': string)
    requires HasKey(a, k')
    ensures HasKey(Put(a, k, v), k')
  {
    HasKeyIn(a, k');
    HasKeyIn(Put(a, k, v), k');
    if k !in KeysOf(a) {
      var m :| 0 <= m < |a| && KeysOf(a)[m] == k';
      assert KeysOf(Put(a, k, v))[m] == k';
    }
  }

  /** `$a[k] = v` keeps the keys of an array distinct. */
  lemma {:induction false} PutDistinct(a: seq<Entry>, k: string, v: Value)
    requires DistinctKeys(a)
    ensures DistinctKeys(Put(a, k, v))
  {
    var r := Put(a, k, v);
    if k !in KeysOf(a) {
      forall i, j | 0 <= i < j < |r| ensures KeyAt(r, i) != KeyAt(r, j) {
        if j == |a| {
          assert KeysOf(a)[i] == a[i].key;
        } else {
          assert KeyAt(a, i) != KeyAt(a, j);
        }
      }
    } else {
      forall i, j | 0 <= i < j < |r| ensures KeyAt(r, i) != KeyAt(r, j) {
        assert KeysOf(r)[i] == KeysOf(a)[i] && KeysOf(r)[j] == KeysOf(a)[j];
        assert KeyAt(a, i) != KeyAt(a, j);
      }
    }
  }

  /** `unset` of every key in `ks`; the remaining entries keep their order. */
  function RemoveKeys(a: seq<Entry>, ks: seq<string>): seq<Entry>
  {
    if a == [] then []
    else (if a[0].key in ks then [] else [a[0]]) + RemoveKeys(a[1..], ks)
  }

  /** Unsetting no key changes nothing. */
  lemma {:induction false} RemoveNothing(a: seq<Entry>)
    ensures RemoveKeys(a, []) == a
  {
    if a != [] {
      RemoveNothing(a[1..]);
    }
  }

  lemma {:induction false} RemoveOneMore(a: seq<Entry>, ks: seq<string>, k: string)
    ensures RemoveKeys(RemoveKeys(a, ks), [k]) == RemoveKeys(a, ks + [k])
  {
    if a != [] {
      RemoveOneMore(a[1..], ks, k);
      var rest := RemoveKeys(a[1..], ks);
      if a[0].key !in ks {
        var r := [a[0]] + rest;
        assert RemoveKeys(a, ks) == r;
        assert r[0] == a[0] && r[1..] == rest;
        assert (a[0].key in ks + [k]) == (a[0].key in [k]);
      } else {
        assert a[0].key in ks + [k];
        assert RemoveKeys(a, ks) == rest;
        assert RemoveKeys(a, ks + [k]) == RemoveKeys(a[1..], ks + [k]);
      }
    }
  }

  /** Removing keys never adds one; a removed key is gone; any other key keeps its value. */
  lemma {:induction false} RemoveKeysGet(a: seq<Entry>, ks: seq<string>, k: string)
    ensures k in ks ==> k !in KeysOf(RemoveKeys(a, ks))
    ensures k !in ks ==> (k in KeysOf(RemoveKeys(a, ks)) <==> k in KeysOf(a))
    ensures k !in ks ==> Get(RemoveKeys(a, ks), k) == Get(a, k)
  {
    if a != [] {
      RemoveKeysGet(a[1..], ks, k);
      assert KeysOf(a) == [a[0].key] + KeysOf(a[1..]);
      var rest := RemoveKeys(a[1..], ks);
      if a[0].key !in ks {
        var r := [a[0]] + rest;
        assert RemoveKeys(a, ks) == r;
        assert r[0] == a[0] && r[1..] == rest;
        assert KeysOf(r) == [a[0].key] + KeysOf(rest);
      } else {
        assert RemoveKeys(a, ks) == rest;
      }
    }
  }

  /** A key that is present reads as the value of one of its entries. */
  lemma {:induction false} GetPresent(a: seq<Entry>, k: string)
    requires k in KeysOf(a)
    ensures Entry(k, Get(a, k)) in a
  {
    assert KeysOf(a) == [a[0].key] + KeysOf(a[1..]);
    if a[0].key != k {
      GetPresent(a[1..], k);
    }
  }

  /** `array_filter($a, keep)`: keys are preserved, order is kept. */
  function FilterEntries(a: seq<Entry>, keep: Value -> bool): (r: seq<Entry>)
    ensures forall e {:trigger e in r} {:trigger e in a} :: e in r <==> e in a && keep(e.val)
    ensures |r| <= |a|
  {
    if a == [] then []
    else (if keep(a[0].val) then [a[0]] else []) + FilterEntries(a[1..], keep)
  }

  /** `array_filter` keeps order: filtering two arrays one after the other is
      filtering their concatenation. */
  lemma {:induction false} FilterAppend(a: seq<Entry>, b: seq<Entry>, keep: Value -> bool)
    ensures FilterEntries(a + b, keep) == FilterEntries(a, keep) + FilterEntries(b, keep)
  {
    if a != [] {
      var head := if keep(a[0].val) then [a[0]] else [];
      assert (a + b)[0] == a[0] && (a + b)[1..] == a[1..] + b;
      FilterAppend(a[1..], b, keep);
      assert FilterEntries(a + b, keep) == head + FilterEntries(a[1..] + b, keep);
      assert FilterEntries(a, keep) == head + FilterEntries(a[1..], keep);
    } else {
      assert a + b == b;
    }
  }

  // ---------------------------------------------------------------------------
  // PHP conversions

  predicate IsDigit(c: char) { '0' <= c <= '9' }

  predicate IsSpace(c: char) { c == ' ' || c == '\t' || c == '\n' || c == '\r' || c == '\U{B}' || c == '\U{C}' }

  function TrimLeft(s: string): (t: string)
    ensures |t| <= |s| && t == s[|s| - |t|..]
    ensures t == [] || !IsSpace(t[0])
  {
    if s != [] && IsSpace(s[0]) then TrimLeft(s[1..]) else s
  }

  /** The longest prefix of decimal digits. */
  function LeadingDigits(s: string): (d: string)
    ensures d <= s
    ensures forall i :: 0 <= i < |d| ==> IsDigit(d[i])
    ensures |d| == |s| || !IsDigit(s[|d|])
  {
    if s != [] && IsDigit(s[0]) then [s[0]] + LeadingDigits(s[1..]) else []
  }

  function DigitsValue(d: string): nat
    requires forall i :: 0 <= i < |d| ==> IsDigit(d[i])
  {
    if d == [] then 0
    else
      assert IsDigit(d[|d| - 1]);
      DigitsValue(d[..|d| - 1]) * 10 + (d[|d| - 1] as int - '0' as int)
  }

  /** `(int)` applied to a string: leading whitespace, an optional sign, and the
      digits that follow; anything else reads as 0. */
  function StringToInt(s: string): int
  {
    var t := TrimLeft(s);
    if t != [] && (t[0] == '-' || t[0] == '+') then
      var n: int := DigitsValue(LeadingDigits(t[1..]));
      if t[0] == '-' then -n else n
    else DigitsValue(LeadingDigits(t))
  }

  /** PHP's `(int)` cast. */
  function IntCast(v: Value): int
  {
    match v
    case Null => 0
    case Int(i) => i
    case Str(s) => StringToInt(s)
    case Bool(b) => if b then 1 else 0
    case Arr(es) => if es == [] then 0 else 1
    case Ent(_) => 1
    case Object(_) => 1
  }

  /** A string that `is_numeric` accepts in its integer form. */
  predicate IsNumericString(s: string)
  {
    var t := TrimLeft(s);
    var body := if t != [] && (t[0] == '-' || t[0] == '+') then t[1..] else t;
    body != [] && forall i :: 0 <= i < |body| ==> IsDigit(body[i])
  }

  /** `is_numeric`. */
  predicate IsNumeric(v: Value)
  {
    v.Int? || (v.Str? && IsNumericString(v.s))
  }

  /** PHP's `empty`. */
  predicate IsEmpty(v: Value)
  {
    match v
    case Null => true
    case Int(i) => i == 0
    case Str(s) => s == "" || s == "0"
    case Bool(b) => !b
    case Arr(es) => es == []
    case Ent(_) => false
    case Object(_) => false
  }

  /** The character of a decimal digit. */
  function DigitChar(d: nat): char
    requires d < 10
  {
    ('0' as int + d) as char
  }

  /** The decimal digits of a natural number, most significant first. */
  function Digits(n: nat): (d: string)
    ensures d != [] && forall i :: 0 <= i < |d| ==> IsDigit(d[i])
    ensures DigitsValue(d) == n
  {
    if n < 10 then [DigitChar(n)]
    else
      var d := Digits(n / 10) + [DigitChar(n % 10)];
      assert d[..|d| - 1] == Digits(n / 10);
      d
  }

  /** How PHP writes an integer as a string, as a database returns an id. */
  function Decimal(n: int): string
  {
    if n < 0 then "-" + Digits(-n) else Digits(n)
  }

  /** A string that starts with a digit or a minus sign has no leading
      whitespace to skip. */
  lemma NoLeadingSpace(s: string)
    requires s != [] && (IsDigit(s[0]) || s[0] == '-')
    ensures TrimLeft(s) == s
  {
  }

  /** `(int)` reads an integer back from its decimal string. */
  lemma DecimalIntCast(n: int)
    ensures IntCast(Str(Decimal(n))) == n
  {
    if n < 0 {
      var d := Digits(-n);
      var s := "-" + d;
      assert s[0] == '-' && s[1..] == d;
      NoLeadingSpace(s);
      assert LeadingDigits(d) == d;
      assert StringToInt(s) == n;
    } else {
      var d := Digits(n);
      NoLeadingSpace(d);
      assert LeadingDigits(d) == d;
      assert StringToInt(d) == n;
    }
  }

  /** `is_numeric` accepts the decimal string of every integer. */
  lemma DecimalIsNumeric(n: int)
    ensures IsNumeric(Str(Decimal(n)))
  {
    if n < 0 {
      var d := Digits(-n);
      var s := "-" + d;
      assert s[0] == '-' && s[1..] == d;
      NoLeadingSpace(s);
    } else {
      NoLeadingSpace(Digits(n));
    }
  }

  /** `(int)` of "0" is 0. */
  lemma ZeroStringIntCast()
    ensures IntCast(Str("0")) == 0
  {
    assert TrimLeft("0") == "0";
    assert LeadingDigits("0") == "0";
    assert DigitsValue("0") == DigitsValue("") * 10 + 0;
    assert LeadingDigits("") == "";
  }

  /** What `empty` accepts casts to 0; on null, integers and booleans `empty`
      is exactly being 0. */
  lemma EmptyIntCast(v: Value)
    ensures IsEmpty(v) ==> IntCast(v) == 0
    ensures (v.Null? || v.Int? || v.Bool?) ==> (IsEmpty(v) <==> IntCast(v) == 0)
  {
    ZeroStringIntCast();
  }

  /** The decimal string of an integer is empty exactly when the integer is 0. */
  lemma DecimalEmpty(n: int)
    ensures IsEmpty(Str(Decimal(n))) <==> n == 0
  {
    ZeroStringIntCast();
    DecimalIntCast(n);
  }
}
