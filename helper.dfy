/** The static helpers the entity layer uses: two value filters and the
    conversion of property names to column names. */
module Helper {
  import opened Values

  /** `filterNotNull`: the `array_filter` callback that keeps every non-null value. */
  function FilterNotNull(v: Value): (keep: bool)
    ensures keep <==> v != Null
  {
    !v.Null?
  }

  /** `filterValuable`: `is_numeric || is_string || is_bool`. Null, arrays and
      objects (entities included) are rejected, so only flat scalars survive. */
  function FilterValuable(v: Value): (keep: bool)
    ensures keep <==> v.Int? || v.Str? || v.Bool?
    ensures keep ==> FilterNotNull(v)
  {
    IsNumeric(v) || v.Str? || v.Bool?
  }

  // ---------------------------------------------------------------------------
  // toSnakeCase, over ASCII letters

  predicate IsUpper(c: char) { 'A' <= c <= 'Z' }

  /** `strtolower` on one character. */
  function Lower(c: char): (d: char)
    ensures !IsUpper(d)
    ensures !IsUpper(c) ==> d == c
  {
    if IsUpper(c) then (c as int - 'A' as int + 'a' as int) as char else c
  }

  predicate NoUpper(s: string)
  {
    forall i :: 0 <= i < |s| ==> !IsUpper(s[i])
  }

  /** `strtolower`. */
  function LowerString(s: string): (t: string)
    ensures |t| == |s|
    ensures forall i :: 0 <= i < |s| ==> t[i] == Lower(s[i])
  {
    if s == [] then [] else [Lower(s[0])] + LowerString(s[1..])
  }

  /** The inner `preg_replace('/(?!^)[[:upper:]]+/', '_$0', s)`: a match may not
      start at position 0, so scanning starts at position 1 outside a match. */
  function MarkRuns(s: string): string
  {
    if s == [] then [] else [s[0]] + MarkFrom(s[1..], false)
  }

  /** Scans the rest of the subject; `inRun` is true while the greedy
      `[[:upper:]]+` match that started earlier is still extending. */
  function MarkFrom(s: string, inRun: bool): string
  {
    if s == [] then []
    else if IsUpper(s[0]) then (if inRun then [s[0]] else ['_', s[0]]) + MarkFrom(s[1..], true)
    else [s[0]] + MarkFrom(s[1..], false)
  }

  /** `toSnakeCase`. The outer `preg_replace` replaces every match of
      `(?!^)[[:upper:]][[:lower:]]` by `$0`, the match itself, so it changes
      nothing and is not modelled; `strtolower` follows. */
  function ToSnakeCase(s: string): (r: string)
    ensures NoUpper(r)
  {
    LowerString(MarkRuns(s))
  }

  // ---------------------------------------------------------------------------
  // An independent description of toSnakeCase, one source character at a time

  /** The code puts an underscore before position `i` exactly when `s[i]` is
      upper case, `i` is not 0, and `i` is 1 or `s[i - 1]` is not upper case:
      one underscore per run of capitals, except that a run at the very start
      loses its first letter to position 0 and is split after it. */
  predicate Boundary(s: string, i: int)
  {
    1 <= i < |s| && IsUpper(s[i]) && (i == 1 || !IsUpper(s[i - 1]))
  }

  /** What source character `i` becomes in the output. */
  function Piece(s: string, i: int): string
    requires 0 <= i < |s|
  {
    (if Boundary(s, i) then "_" else "") + [Lower(s[i])]
  }

  function Pieces(s: string, i: nat): string
    requires i <= |s|
    decreases |s| - i
  {
    if i == |s| then "" else Piece(s, i) + Pieces(s, i + 1)
  }

  /** How many underscores the code inserts into `s[i..]`. */
  function BoundariesFrom(s: string, i: nat): nat
    requires i <= |s|
    decreases |s| - i
  {
    if i == |s| then 0 else (if Boundary(s, i) then 1 else 0) + BoundariesFrom(s, i + 1)
  }

  lemma {:induction false} LowerConcat(a: string, b: string)
    ensures LowerString(a + b) == LowerString(a) + LowerString(b)
  {
  }

  lemma {:induction false} MarkFromPieces(s: string, i: nat)
    requires 1 <= i <= |s|
    ensures LowerString(MarkFrom(s[i..], i >= 2 && IsUpper(s[i - 1]))) == Pieces(s, i)
    decreases |s| - i
  {
    if i < |s| {
      MarkFromPieces(s, i + 1);
      var inRun := i >= 2 && IsUpper(s[i - 1]);
      assert s[i..][1..] == s[i + 1..];
      var head := if IsUpper(s[i]) && !inRun then ['_', s[i]] else [s[i]];
      assert MarkFrom(s[i..], inRun) == head + MarkFrom(s[i + 1..], IsUpper(s[i]));
      LowerConcat(head, MarkFrom(s[i + 1..], IsUpper(s[i])));
      assert LowerString(head) == Piece(s, i);
    }
  }

  /** toSnakeCase is, piece by piece, the lower-cased source with one
      underscore before each `Boundary` position and nowhere else. */
  lemma {:induction false} SnakeCaseByPieces(s: string)
    ensures ToSnakeCase(s) == Pieces(s, 0)
  {
    if s != [] {
      var rest := MarkFrom(s[1..], false);
      MarkFromPieces(s, 1);
      assert LowerString(rest) == Pieces(s, 1);
      LowerConcat([s[0]], rest);
      assert ToSnakeCase(s) == LowerString([s[0]] + rest);
      assert Piece(s, 0) == LowerString([s[0]]);
    }
  }

  lemma {:induction false} PiecesLength(s: string, i: nat)
    requires i <= |s|
    ensures |Pieces(s, i)| == |s| - i + BoundariesFrom(s, i)
    decreases |s| - i
  {
    if i < |s| {
      PiecesLength(s, i + 1);
    }
  }

  /** The output is the input plus one character per inserted underscore. */
  lemma SnakeCaseLength(s: string)
    ensures |ToSnakeCase(s)| == |s| + BoundariesFrom(s, 0)
  {
    SnakeCaseByPieces(s);
    PiecesLength(s, 0);
  }

  lemma {:induction false} PiecesWithoutUpper(s: string, i: nat)
    requires i <= |s| && NoUpper(s)
    ensures Pieces(s, i) == s[i..]
    decreases |s| - i
  {
    if i < |s| {
      PiecesWithoutUpper(s, i + 1);
      assert s[i..] == [s[i]] + s[i + 1..];
    }
  }

  /** A name without capitals, such as `id` or `created_on`, is its own snake case. */
  lemma SnakeCaseFixesLowerNames(s: string)
    requires NoUpper(s)
    ensures ToSnakeCase(s) == s
  {
    SnakeCaseByPieces(s);
    PiecesWithoutUpper(s, 0);
  }

  /** Converting twice is converting once. */
  lemma SnakeCaseIdempotent(s: string)
    ensures ToSnakeCase(ToSnakeCase(s)) == ToSnakeCase(s)
  {
    SnakeCaseFixesLowerNames(ToSnakeCase(s));
  }
}
