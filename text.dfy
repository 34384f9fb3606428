/**
 * Character classes and string operations the query pipeline relies on.
 *
 * .NET's `\s`, `\w`, `\d`, `char.IsWhiteSpace` and ordinal case folding are
 * Unicode-aware; here they are restricted to ASCII.
 */
module Text {

  import opened Wrappers

  /** `\s` and `char.IsWhiteSpace`, restricted to ASCII: space, tab, LF, VT, FF, CR. */
  predicate IsSpace(c: char) {
    c == ' ' || c == '\t' || c == '\n' || c == '\U{000B}' || c == '\U{000C}' || c == '\r'
  }

  predicate IsDigit(c: char) {
    '0' <= c <= '9'
  }

  /** `\w` restricted to ASCII: letters, digits and underscore. */
  predicate IsWordChar(c: char) {
    'a' <= c <= 'z' || 'A' <= c <= 'Z' || IsDigit(c) || c == '_'
  }

  /** `[\d.\-]`: the characters of an unquoted number in a query. */
  predicate IsNumberChar(c: char) {
    IsDigit(c) || c == '.' || c == '-'
  }

  /** The character classes the recognisers scan runs of. */
  datatype CharClass = Whitespace | Word | NumberChar

  predicate InClass(c: char, cls: CharClass) {
    match cls
    case Whitespace => IsSpace(c)
    case Word => IsWordChar(c)
    case NumberChar => IsNumberChar(c)
  }

  /** A string with no whitespace at either end, as `Trim` leaves it. */
  predicate IsTrimmed(s: string) {
    s == [] || (!IsSpace(s[0]) && !IsSpace(s[|s| - 1]))
  }

  /**
   * The end of the run of characters of one class that starts at `i`: how far
   * a greedy `[class]*` reaches from `i`.
   */
  function RunEnd(s: string, i: nat, cls: CharClass): (j: nat)
    requires i <= |s|
    ensures i <= j <= |s|
    ensures j == |s| || !InClass(s[j], cls)
    decreases |s| - i
  {
    if i < |s| && InClass(s[i], cls) then RunEnd(s, i + 1, cls) else i
  }

  /** Every character the run passes over is in the class. */
  lemma {:induction false} RunEndSpan(s: string, i: nat, cls: CharClass)
    requires i <= |s|
    ensures forall k :: i <= k < RunEnd(s, i, cls) ==> InClass(s[k], cls)
    decreases |s| - i
  {
    if i < |s| && InClass(s[i], cls) {
      RunEndSpan(s, i + 1, cls);
    }
  }

  /** A run is determined by where it stops: a class run from `i` that is followed by a non-member ends there. */
  lemma {:induction false} RunEndAt(s: string, i: nat, j: nat, cls: CharClass)
    requires i <= j <= |s|
    requires forall k :: i <= k < j ==> InClass(s[k], cls)
    requires j == |s| || !InClass(s[j], cls)
    ensures RunEnd(s, i, cls) == j
    decreases j - i
  {
    if i < j {
      RunEndAt(s, i + 1, j, cls);
    }
  }

  /** `string.IsNullOrWhiteSpace` for a non-null string. */
  predicate AllSpace(s: string) {
    forall i :: 0 <= i < |s| ==> IsSpace(s[i])
  }

  /** `char.ToUpperInvariant` restricted to ASCII. */
  function UpperChar(c: char): char {
    if 'a' <= c <= 'z' then (c as int - 32) as char else c
  }

  /** `string.ToUpperInvariant`, character by character. */
  function Upper(s: string): (r: string)
    ensures |r| == |s|
    ensures forall i :: 0 <= i < |s| ==> r[i] == UpperChar(s[i])
  {
    seq(|s|, i requires 0 <= i < |s| => UpperChar(s[i]))
  }

  lemma UpperIdempotent(s: string)
    ensures Upper(Upper(s)) == Upper(s)
  {
  }

  /** `string.TrimStart()`: drops the leading whitespace. */
  function TrimStart(s: string): (r: string)
    ensures |r| <= |s| && r == s[|s| - |r|..]
    ensures r == [] || !IsSpace(r[0])
    ensures AllSpace(s[..|s| - |r|])
  {
    if s != [] && IsSpace(s[0]) then TrimStart(s[1..]) else s
  }

  /** `string.TrimEnd()`: drops the trailing whitespace. */
  function TrimEnd(s: string): (r: string)
    ensures |r| <= |s| && r == s[..|r|]
    ensures r == [] || !IsSpace(r[|r| - 1])
    ensures AllSpace(s[|r|..])
  {
    if s != [] && IsSpace(s[|s| - 1]) then
      var r := TrimEnd(s[..|s| - 1]);
      assert s[..|s| - 1][..|r|] == s[..|r|];
      assert s[|r|..] == s[..|s| - 1][|r|..] + [s[|s| - 1]];
      r
    else s
  }

  /** `string.Trim()`: drops whitespace at both ends. */
  function Trim(s: string): (r: string)
    ensures |r| <= |s|
    ensures IsTrimmed(r)
    ensures r == [] <==> AllSpace(s)
  {
    var t := TrimStart(s);
    var r := TrimEnd(t);
    TrimmedParts(s, |s| - |t|, t, r);
    r
  }

  /**
   * Cutting leading whitespace and then trailing whitespace leaves a trimmed
   * text, empty exactly when the whole text was whitespace.
   */
  lemma TrimmedParts(s: string, p: nat, t: string, r: string)
    requires p <= |s| && t == s[p..] && AllSpace(s[..p]) && (t == [] || !IsSpace(t[0]))
    requires |r| <= |t| && r == t[..|r|] && (r == [] || !IsSpace(r[|r| - 1])) && AllSpace(t[|r|..])
    ensures IsTrimmed(r)
    ensures r == [] <==> AllSpace(s)
  {
    if r != [] {
      assert r[0] == t[0];
    }
    if t != [] {
      assert t[0] == s[p];
    }
    if r == [] {
      assert t == t[|r|..];
      assert t == [];
      assert s == s[..p];
    }
  }

  /** `Trim` keeps one stretch of the text and drops only whitespace around it. */
  lemma TrimKeepsMiddle(s: string)
    ensures exists p: nat :: && p + |Trim(s)| <= |s|
                             && Trim(s) == s[p..p + |Trim(s)|]
                             && AllSpace(s[..p])
                             && AllSpace(s[p + |Trim(s)|..])
  {
    var t := TrimStart(s);
    var r := TrimEnd(t);
    var p := |s| - |t|;
    assert r == Trim(s);
    assert r == s[p..p + |r|];
    assert s[p + |r|..] == t[|r|..];
  }

  /** A string whose ends are not whitespace is its own trim. */
  lemma TrimUnchanged(s: string)
    requires IsTrimmed(s)
    ensures Trim(s) == s
  {
  }

  /**
   * Ordinal comparison: the sign of `string.CompareOrdinal` as -1, 0 or 1.
   * A proper prefix sorts first.
   */
  function CompareOrdinal(a: string, b: string): (r: int)
    ensures -1 <= r <= 1
    ensures r == 0 <==> a == b
  {
    if a == [] && b == [] then 0
    else if a == [] then -1
    else if b == [] then 1
    else if a[0] < b[0] then -1
    else if a[0] > b[0] then 1
    else
      var r := CompareOrdinal(a[1..], b[1..]);
      assert a == [a[0]] + a[1..] && b == [b[0]] + b[1..];
      r
  }

  lemma {:induction false} CompareOrdinalAntisymmetric(a: string, b: string)
    ensures CompareOrdinal(b, a) == -CompareOrdinal(a, b)
  {
    if a != [] && b != [] && a[0] == b[0] {
      CompareOrdinalAntisymmetric(a[1..], b[1..]);
    }
  }

  /** `string.Equals(a, b, StringComparison.OrdinalIgnoreCase)`. */
  predicate EqualsIgnoreCase(a: string, b: string) {
    Upper(a) == Upper(b)
  }

  /** The sign of `string.Compare(a, b, StringComparison.OrdinalIgnoreCase)`: ordinal order of the upper-cased strings. */
  function CompareIgnoreCase(a: string, b: string): (r: int)
    ensures -1 <= r <= 1
    ensures r == 0 <==> EqualsIgnoreCase(a, b)
  {
    CompareOrdinal(Upper(a), Upper(b))
  }

  /** `s.Replace(c.ToString(), repl)`: every occurrence of one character replaced by a string. */
  function ReplaceChar(s: string, c: char, repl: string): string {
    if s == [] then []
    else (if s[0] == c then repl else [s[0]]) + ReplaceChar(s[1..], c, repl)
  }

  lemma {:induction false} ReplaceCharAppend(s: string, t: string, c: char, repl: string)
    ensures ReplaceChar(s + t, c, repl) == ReplaceChar(s, c, repl) + ReplaceChar(t, c, repl)
  {
    if s != [] {
      assert (s + t)[1..] == s[1..] + t;
      ReplaceCharAppend(s[1..], t, c, repl);
    } else {
      assert s + t == t;
    }
  }

  /** Index of the first occurrence of `c` in `s` at or after `from`. */
  function IndexOf(s: string, c: char, from: nat): (r: Option<nat>)
    decreases |s| - from
    ensures r.Some? ==> from <= r.value < |s| && s[r.value] == c
    ensures r.Some? ==> forall k :: from <= k < r.value ==> s[k] != c
    ensures r.None? ==> forall k :: from <= k < |s| ==> s[k] != c
  {
    if from >= |s| then None
    else if s[from] == c then Some(from)
    else IndexOf(s, c, from + 1)
  }

  /** The first occurrence from `from` is the one with no occurrence before it. */
  lemma {:induction false} IndexOfAt(s: string, c: char, from: nat, j: nat)
    requires from <= j < |s| && s[j] == c
    requires forall k :: from <= k < j ==> s[k] != c
    ensures IndexOf(s, c, from) == Some(j)
    decreases j - from
  {
    if from < j {
      IndexOfAt(s, c, from + 1, j);
    }
  }

  /** `string.LastIndexOf(char)`, with -1 for "absent". */
  function LastIndexOf(s: string, c: char): (r: int)
    ensures -1 <= r < |s|
    ensures r >= 0 ==> s[r] == c
    ensures forall k :: r < k < |s| ==> s[k] != c
  {
    if s == [] then -1
    else if s[|s| - 1] == c then |s| - 1
    else LastIndexOf(s[..|s| - 1], c)
  }

  /** `string.Join(sep, xs)`: the strings in order with `sep` between neighbours. */
  function Join(sep: string, xs: seq<string>): (r: string)
    ensures xs == [] ==> r == []
    ensures |xs| == 1 ==> r == xs[0]
  {
    if xs == [] then []
    else if |xs| == 1 then xs[0]
    else xs[0] + sep + Join(sep, xs[1..])
  }

  /** Appending one more string adds the separator and that string. */
  lemma {:induction false} JoinAppend(sep: string, xs: seq<string>, x: string)
    requires xs != []
    ensures Join(sep, xs + [x]) == Join(sep, xs) + sep + x
    decreases |xs|
  {
    if |xs| > 1 {
      assert (xs + [x])[1..] == xs[1..] + [x];
      JoinAppend(sep, xs[1..], x);
    }
  }
}
