/**
 * The data file's text before it reaches the JSON reader: comments are
 * removed, a `var name = [` assignment is reduced to its array, the text is
 * trimmed, and an array cut short is closed after its last complete object.
 */
module Loader {
  import opened Wrappers
  import opened Text

  /** The two characters `a`, `b` stand at `i` and `i + 1`. */
  predicate PairAt(s: string, i: nat, a: char, b: char) {
    i + 1 < |s| && s[i] == a && s[i + 1] == b
  }

  /** `a` directly followed by `b` occurs nowhere in `s`. */
  predicate NoPair(s: string, a: char, b: char) {
    forall i: nat :: i < |s| ==> !PairAt(s, i, a, b)
  }

  /** The first `a` `b` pair at or after `from`. */
  function PairFrom(s: string, a: char, b: char, from: nat): (r: Option<nat>)
    decreases |s| - from
    ensures r.Some? ==> from <= r.value && PairAt(s, r.value, a, b)
    ensures r.Some? ==> forall k :: from <= k < r.value ==> !PairAt(s, k, a, b)
    ensures r.None? ==> forall k :: from <= k ==> !PairAt(s, k, a, b)
  {
    if from + 1 >= |s| then None
    else if PairAt(s, from, a, b) then Some(from)
    else PairFrom(s, a, b, from + 1)
  }

  /** The pairs of `s` without its first character are those of `s`, one place earlier. */
  lemma PairTail(s: string, a: char, b: char)
    requires s != []
    ensures forall i: nat :: PairAt(s[1..], i, a, b) == PairAt(s, i + 1, a, b)
  {
  }

  /**
   * No pair starts inside `pre` in `pre + t` when `pre` holds none and its
   * last character does not pair with the first of `t`.
   */
  lemma PrefixFree(pre: string, t: string, a: char, b: char)
    requires NoPair(pre, a, b)
    requires pre == [] || t == [] || pre[|pre| - 1] != a || t[0] != b
    ensures forall i: nat :: i < |pre| ==> !PairAt(pre + t, i, a, b)
  {
    forall i: nat | i < |pre|
      ensures !PairAt(pre + t, i, a, b)
    {
      if i + 1 < |pre| {
        assert !PairAt(pre, i, a, b);
      }
    }
  }

  // ---------------------------------------------------------------------
  // Block comments, from slash-star to star-slash
  // ---------------------------------------------------------------------

  /**
   * The lazy single-line pattern for block comments, replaced by nothing:
   * scanning from the left, an opening slash-star with a closing star-slash
   * after it is removed up to the first such closing pair; an opening pair
   * with none after it is kept and the scan moves on one character.
   */
  function StripBlockComments(s: string): (r: string)
    decreases |s|
    ensures |r| <= |s|
  {
    if s == [] then []
    else if PairAt(s, 0, '/', '*') then
      match PairFrom(s, '*', '/', 2)
      case Some(k) => StripBlockComments(s[k + 2..])
      case None => [s[0]] + StripBlockComments(s[1..])
    else [s[0]] + StripBlockComments(s[1..])
  }

  /** Text in front of which no comment opens passes through unchanged. */
  lemma {:induction false} BlockSkipsText(pre: string, rest: string)
    requires forall i: nat :: i < |pre| ==> !PairAt(pre + rest, i, '/', '*')
    ensures StripBlockComments(pre + rest) == pre + StripBlockComments(rest)
  {
    if pre == [] {
      assert pre + rest == rest;
    } else {
      var s := pre + rest;
      assert s[0] == pre[0] && !PairAt(s, 0, '/', '*');
      assert s[1..] == pre[1..] + rest;
      PairTail(s, '/', '*');
      BlockSkipsText(pre[1..], rest);
      calc {
        StripBlockComments(s);
        [s[0]] + StripBlockComments(s[1..]);
        [pre[0]] + (pre[1..] + StripBlockComments(rest));
        { assert [pre[0]] + pre[1..] == pre; }
        pre + StripBlockComments(rest);
      }
    }
  }

  /** Text in which no comment opens is unchanged. */
  lemma BlockFreeUnchanged(s: string)
    requires NoPair(s, '/', '*')
    ensures StripBlockComments(s) == s
  {
    assert s + [] == s;
    BlockSkipsText(s, []);
  }

  /**
   * Text in which no comment closes is unchanged: nothing it opens is ever
   * closed. A closing pair at index 1 is no exception, since it overlaps
   * any opening pair at index 0.
   */
  lemma {:induction false} UnclosedUnchanged(s: string)
    requires forall i: nat :: 2 <= i ==> !PairAt(s, i, '*', '/')
    ensures StripBlockComments(s) == s
  {
    if s != [] {
      PairTail(s, '*', '/');
      UnclosedUnchanged(s[1..]);
      assert [s[0]] + s[1..] == s;
    }
  }

  /**
   * A comment is removed through its first closing pair, together with its
   * delimiters, and the text before it is kept.
   */
  lemma BlockCommentRemoved(pre: string, body: string, rest: string)
    requires NoPair(pre, '/', '*') && NoPair(body, '*', '/')
    ensures StripBlockComments(pre + "/*" + body + "*/" + rest) == pre + StripBlockComments(rest)
  {
    var t := "/*" + body + "*/" + rest;
    assert pre + "/*" + body + "*/" + rest == pre + t;
    PrefixFree(pre, t, '/', '*');
    BlockSkipsText(pre, t);
    var k := 2 + |body|;
    assert PairAt(t, k, '*', '/');
    forall j: nat | 2 <= j < k
      ensures !PairAt(t, j, '*', '/')
    {
      if j + 1 < k {
        assert t[j] == body[j - 2] && t[j + 1] == body[j - 1];
        assert !PairAt(body, j - 2, '*', '/');
      }
    }
    assert PairFrom(t, '*', '/', 2) == Some(k);
    assert t[k + 2..] == rest;
  }

  /** A comment that is never closed stays, and so does everything after it. */
  lemma UnclosedCommentKept(pre: string, body: string)
    requires NoPair(pre, '/', '*') && NoPair(body, '*', '/')
    ensures StripBlockComments(pre + "/*" + body) == pre + "/*" + body
  {
    var t := "/*" + body;
    assert pre + "/*" + body == pre + t;
    PrefixFree(pre, t, '/', '*');
    BlockSkipsText(pre, t);
    forall j: nat | 2 <= j
      ensures !PairAt(t, j, '*', '/')
    {
      if j + 1 < |t| {
        assert t[j] == body[j - 2] && t[j + 1] == body[j - 1];
        assert !PairAt(body, j - 2, '*', '/');
      }
    }
    UnclosedUnchanged(t);
  }

  // ---------------------------------------------------------------------
  // Line comments: `//.*?$`, multi-line mode
  // ---------------------------------------------------------------------

  /** Where a line comment starting at the beginning of `s` ends: the next line break, or the end. */
  function LineEnd(s: string): (e: nat)
    requires 2 <= |s|
    ensures 2 <= e <= |s| && (e == |s| || s[e] == '\n')
    ensures forall k :: 2 <= k < e ==> s[k] != '\n'
  {
    match IndexOf(s, '\n', 2)
    case Some(k) => k
    case None => |s|
  }

  /**
   * `Regex.Replace(content, @"//.*?$", "", RegexOptions.Multiline)`: every
   * `//` is removed with the rest of its line, up to but not including the
   * line break.
   */
  function StripLineComments(s: string): (r: string)
    decreases |s|
    ensures |r| <= |s|
    ensures r == [] || r[0] == s[0] || r[0] == '\n'
  {
    if s == [] then []
    else if PairAt(s, 0, '/', '/') then StripLineComments(s[LineEnd(s)..])
    else [s[0]] + StripLineComments(s[1..])
  }

  /** No `//` survives: a comment is always removed to the end of its line. */
  lemma {:induction false} NoLineCommentLeft(s: string)
    ensures NoPair(StripLineComments(s), '/', '/')
  {
    if s == [] {
    } else if PairAt(s, 0, '/', '/') {
      NoLineCommentLeft(s[LineEnd(s)..]);
    } else {
      var t := StripLineComments(s[1..]);
      var r := [s[0]] + t;
      assert StripLineComments(s) == r;
      NoLineCommentLeft(s[1..]);
      assert r[1..] == t;
      PairTail(r, '/', '/');
      forall i: nat | i < |r|
        ensures !PairAt(r, i, '/', '/')
      {
        if i == 0 {
          if |s| >= 2 && t != [] {
            assert s[1..][0] == s[1];
          }
        } else {
          assert !PairAt(t, i - 1, '/', '/');
        }
      }
    }
  }

  /** Every line break is kept, so the text keeps its lines. */
  lemma {:induction false} LineBreaksKept(s: string)
    ensures multiset(StripLineComments(s))['\n'] == multiset(s)['\n']
  {
    if s == [] {
    } else if PairAt(s, 0, '/', '/') {
      var e := LineEnd(s);
      LineBreaksKept(s[e..]);
      assert s == s[..e] + s[e..];
      assert '\n' !in multiset(s[..e]);
    } else {
      LineBreaksKept(s[1..]);
      assert s == [s[0]] + s[1..];
    }
  }

  /** Text holding no `//` is unchanged. */
  lemma {:induction false} LineFreeUnchanged(s: string)
    requires NoPair(s, '/', '/')
    ensures StripLineComments(s) == s
  {
    if s != [] {
      PairTail(s, '/', '/');
      LineFreeUnchanged(s[1..]);
      assert [s[0]] + s[1..] == s;
    }
  }

  /** Removing line comments twice removes nothing more. */
  lemma LineStripIdempotent(s: string)
    ensures StripLineComments(StripLineComments(s)) == StripLineComments(s)
  {
    NoLineCommentLeft(s);
    LineFreeUnchanged(StripLineComments(s));
  }

  /** Text in front of which no comment opens passes through unchanged. */
  lemma {:induction false} LineSkipsText(pre: string, rest: string)
    requires forall i: nat :: i < |pre| ==> !PairAt(pre + rest, i, '/', '/')
    ensures StripLineComments(pre + rest) == pre + StripLineComments(rest)
  {
    if pre == [] {
      assert pre + rest == rest;
    } else {
      var s := pre + rest;
      assert s[0] == pre[0] && !PairAt(s, 0, '/', '/');
      assert s[1..] == pre[1..] + rest;
      PairTail(s, '/', '/');
      LineSkipsText(pre[1..], rest);
      calc {
        StripLineComments(s);
        [s[0]] + StripLineComments(s[1..]);
        [pre[0]] + (pre[1..] + StripLineComments(rest));
        { assert [pre[0]] + pre[1..] == pre; }
        pre + StripLineComments(rest);
      }
    }
  }

  /**
   * A comment is removed to the end of its line and the line break stays;
   * the text before it is kept when it holds no `//` and does not end in
   * `/`.
   */
  lemma LineCommentRemoved(pre: string, comment: string, rest: string)
    requires NoPair(pre, '/', '/') && (pre == [] || pre[|pre| - 1] != '/')
    requires '\n' !in comment && (rest == [] || rest[0] == '\n')
    ensures StripLineComments(pre + "//" + comment + rest) == pre + StripLineComments(rest)
  {
    var t := "//" + comment + rest;
    assert pre + "//" + comment + rest == pre + t;
    PrefixFree(pre, t, '/', '/');
    LineSkipsText(pre, t);
    LineCommentDropped(comment, rest);
  }

  /** A comment at the very start goes, up to its line break. */
  lemma LineCommentDropped(comment: string, rest: string)
    requires '\n' !in comment && (rest == [] || rest[0] == '\n')
    ensures StripLineComments("//" + comment + rest) == StripLineComments(rest)
  {
    var t := "//" + comment + rest;
    var e := 2 + |comment|;
    assert e == |t| || t[e] == '\n';
    forall k | 2 <= k < e
      ensures t[k] != '\n'
    {
      assert t[k] == comment[k - 2];
    }
    if e < |t| {
      IndexOfAt(t, '\n', 2, e);
    }
    assert t[e..] == rest;
  }

  // ---------------------------------------------------------------------
  // The `var name = [` assignment: `var\s+\w+\s*=\s*\[`
  // ---------------------------------------------------------------------

  /** The keyword `var` starts at `i`. */
  predicate VarAt(s: string, i: nat) {
    i + 3 <= |s| && s[i] == 'v' && s[i + 1] == 'a' && s[i + 2] == 'r'
  }

  /**
   * The assignment pattern matched at `i`: the index of its `[`. Each part
   * is a run of one class followed by a character outside it, so the match
   * at a given start is unique.
   */
  function AssignmentAt(s: string, i: nat): (r: Option<nat>)
    requires i <= |s|
    ensures r.Some? ==> i + 6 <= r.value < |s| && s[r.value] == '['
  {
    if VarAt(s, i) then
      var a := RunEnd(s, i + 3, Whitespace);
      var b := RunEnd(s, a, Word);
      var c := RunEnd(s, b, Whitespace);
      if a == i + 3 || b == a || c == |s| || s[c] != '=' then None
      else
        var d := RunEnd(s, c + 1, Whitespace);
        if d < |s| && s[d] == '[' then Some(d) else None
    else None
  }

  /** The leftmost match from `i` on: the index of its `[`. */
  function FindAssignment(s: string, i: nat): (r: Option<nat>)
    requires i <= |s|
    decreases |s| - i
    ensures r.Some? ==> r.value < |s| && s[r.value] == '['
  {
    if i == |s| then None
    else match AssignmentAt(s, i)
      case Some(d) => Some(d)
      case None => FindAssignment(s, i + 1)
  }

  /** Everything before the assignment's `[` is dropped; without an assignment nothing is. */
  function DropAssignment(s: string): (r: string)
    ensures |r| <= |s|
    ensures r == s || (r != [] && r[0] == '[' && r == s[|s| - |r|..])
  {
    match FindAssignment(s, 0)
    case Some(d) => s[d..]
    case None => s
  }

  /** The search returns the match at `j` when no match starts between `i` and `j`. */
  lemma {:induction false} FindAssignmentAt(s: string, i: nat, j: nat)
    requires i <= j < |s| && AssignmentAt(s, j).Some?
    requires forall x :: i <= x < j ==> AssignmentAt(s, x).None?
    ensures FindAssignment(s, i) == AssignmentAt(s, j)
    decreases j - i
  {
    if i < j {
      FindAssignmentAt(s, i + 1, j);
    }
  }

  /** A found `[` belongs to the leftmost match from `i` on. */
  lemma {:induction false} FindAssignmentFound(s: string, i: nat)
    requires i <= |s| && FindAssignment(s, i).Some?
    ensures exists j ::
      && i <= j < |s|
      && AssignmentAt(s, j) == FindAssignment(s, i)
      && forall x :: i <= x < j ==> AssignmentAt(s, x).None?
    decreases |s| - i
  {
    if AssignmentAt(s, i).None? {
      FindAssignmentFound(s, i + 1);
    }
  }

  /** The search finds nothing exactly when the pattern matches nowhere from `i` on. */
  lemma {:induction false} FindAssignmentNone(s: string, i: nat)
    requires i <= |s|
    ensures FindAssignment(s, i).None? <==> forall x :: i <= x < |s| ==> AssignmentAt(s, x).None?
    decreases |s| - i
  {
    if i < |s| {
      FindAssignmentNone(s, i + 1);
    }
  }

  /**
   * Wherever the leftmost `var name = [` stands, everything before its `[`
   * is dropped.
   */
  lemma DropAssignmentLeftmost(s: string, j: nat)
    requires j < |s| && AssignmentAt(s, j).Some?
    requires forall x :: 0 <= x < j ==> AssignmentAt(s, x).None?
    ensures DropAssignment(s) == s[AssignmentAt(s, j).value..]
  {
    FindAssignmentAt(s, 0, j);
  }

  /** Without a match anywhere the text is kept whole; with one it is not. */
  lemma DropAssignmentKeeps(s: string)
    ensures DropAssignment(s) == s <==> forall x :: 0 <= x < |s| ==> AssignmentAt(s, x).None?
  {
    FindAssignmentNone(s, 0);
    if FindAssignment(s, 0).Some? {
      FindAssignmentFound(s, 0);
      assert |DropAssignment(s)| < |s|;
    }
  }

  /** Text with no `var` in it is left alone. */
  lemma {:induction false} NoAssignmentFrom(s: string, i: nat)
    requires i <= |s|
    requires forall j: nat :: i <= j ==> !VarAt(s, j)
    decreases |s| - i
    ensures FindAssignment(s, i) == None
  {
    if i < |s| {
      NoAssignmentFrom(s, i + 1);
    }
  }

  /**
   * `var`, whitespace, a name, an `=` between optional whitespace and then
   * the array: only the array is kept.
   */
  lemma AssignmentDropped(sp1: string, name: string, sp2: string, sp3: string, arr: string)
    requires sp1 != [] && AllSpace(sp1) && AllSpace(sp2) && AllSpace(sp3)
    requires name != [] && forall k :: 0 <= k < |name| ==> IsWordChar(name[k])
    requires arr != [] && arr[0] == '['
    ensures DropAssignment("var" + sp1 + name + sp2 + "=" + sp3 + arr) == arr
  {
    var s := "var" + sp1 + name + sp2 + "=" + sp3 + arr;
    var a := 3 + |sp1|;
    var b := a + |name|;
    var c := b + |sp2|;
    var d := c + 1 + |sp3|;
    assert VarAt(s, 0);
    forall k | 3 <= k < a ensures IsSpace(s[k]) { assert s[k] == sp1[k - 3]; }
    assert s[a] == name[0];
    RunEndAt(s, 3, a, Whitespace);
    forall k | a <= k < b ensures IsWordChar(s[k]) { assert s[k] == name[k - a]; }
    assert s[b] == if sp2 == [] then '=' else sp2[0];
    RunEndAt(s, a, b, Word);
    forall k | b <= k < c ensures IsSpace(s[k]) { assert s[k] == sp2[k - b]; }
    assert s[c] == '=';
    RunEndAt(s, b, c, Whitespace);
    forall k | c + 1 <= k < d ensures IsSpace(s[k]) { assert s[k] == sp3[k - c - 1]; }
    assert s[d] == '[';
    RunEndAt(s, c + 1, d, Whitespace);
    assert AssignmentAt(s, 0) == Some(d);
    assert s[d..] == arr;
  }

  // ---------------------------------------------------------------------
  // Closing an array that was cut short
  // ---------------------------------------------------------------------

  /** The last `c` in `s` lies in its first `n` characters when none follows them. */
  lemma {:induction false} LastIndexOfPrefix(s: string, n: nat, c: char)
    requires n <= |s| && forall k :: n <= k < |s| ==> s[k] != c
    decreases |s| - n
    ensures LastIndexOf(s[..n], c) == LastIndexOf(s, c)
  {
    if n < |s| {
      var t := s[..|s| - 1];
      assert t[..n] == s[..n];
      LastIndexOfPrefix(t, n, c);
    }
  }

  /** The text without a trailing comma. */
  function DropTrailingComma(s: string): (r: string)
    ensures r == s || (s != [] && s[|s| - 1] == ',' && r == s[..|s| - 1])
    ensures r == s[..|r|] && forall k :: |r| <= k < |s| ==> s[k] == ','
  {
    if s != [] && s[|s| - 1] == ',' then s[..|s| - 1] else s
  }

  predicate StartsWith(s: string, c: char) {
    s != [] && s[0] == c
  }

  predicate EndsWith(s: string, c: char) {
    s != [] && s[|s| - 1] == c
  }

  /**
   * An array that opens with `[` but does not close is cut after its last
   * `}` and closed with `]`; the trailing-comma and ends-with-`}` branches
   * are the cases where that `}` is last or next to last. Other text is
   * returned as it is, and an array with no `}` after its `[` loses only
   * a trailing comma and stays open.
   */
  function Repair(content: string): (r: string)
    ensures !StartsWith(content, '[') || EndsWith(TrimEnd(content), ']') ==> r == content
    ensures StartsWith(content, '[') && !EndsWith(TrimEnd(content), ']') ==>
      var k := LastIndexOf(content, '}');
      && (k > 0 ==> r == content[..k + 1] + "]")
      && (k <= 0 ==> r == DropTrailingComma(TrimEnd(content)))
  {
    if StartsWith(content, '[') && !EndsWith(TrimEnd(content), ']') then
      var t := TrimEnd(content);
      LastIndexOfPrefix(content, |t|, '}');
      var u := DropTrailingComma(t);
      assert t[..|u|] == u && content[..|u|] == u;
      LastIndexOfPrefix(t, |u|, '}');
      if EndsWith(u, '}') then
        u + "]"
      else
        var lastBrace := LastIndexOf(u, '}');
        if lastBrace > 0 then u[..lastBrace + 1] + "]" else u
    else
      content
  }

  /** A repaired array is closed, and repairing it again changes nothing. */
  lemma RepairCloses(content: string)
    requires StartsWith(content, '[') && !EndsWith(TrimEnd(content), ']') && LastIndexOf(content, '}') > 0
    ensures StartsWith(Repair(content), '[') && EndsWith(Repair(content), ']')
    ensures Repair(Repair(content)) == Repair(content)
  {
    var r := Repair(content);
    assert r[0] == '[' && r[|r| - 1] == ']';
    assert TrimEnd(r) == r;
  }

  /** The text that reaches the repair: comments removed, the assignment dropped, trimmed. */
  function Prepared(content: string): (p: string)
    ensures IsTrimmed(p)
  {
    Trim(DropAssignment(StripLineComments(StripBlockComments(content))))
  }

  /**
   * `ExtractJsonArray`: the prepared text, with a truncated array closed
   * after its last `}`. A text that is not an open array passes unchanged.
   */
  function ExtractJsonArray(content: string): (r: string)
    ensures var p := Prepared(content);
      && (!StartsWith(p, '[') || EndsWith(p, ']') ==> r == p)
      && (StartsWith(p, '[') && !EndsWith(p, ']') && LastIndexOf(p, '}') > 0 ==>
            r == p[..LastIndexOf(p, '}') + 1] + "]")
      && (StartsWith(p, '[') && !EndsWith(p, ']') && LastIndexOf(p, '}') <= 0 ==>
            r == DropTrailingComma(p))
  {
    var p := Prepared(content);
    TrimEndTrimmed(p);
    Repair(p)
  }

  /** Trimmed text has nothing to trim at its end. */
  lemma TrimEndTrimmed(s: string)
    requires IsTrimmed(s)
    ensures TrimEnd(s) == s
  {
  }

  /** Text with no `/` at all holds no pair starting with `/`. */
  lemma NoSlashNoPair(s: string, b: char)
    requires forall k :: 0 <= k < |s| ==> s[k] != '/'
    ensures NoPair(s, '/', b)
  {
  }

  /** Joining two texts makes no new pair when the seam does not form one. */
  lemma NoPairJoin(x: string, y: string, a: char, b: char)
    requires NoPair(x, a, b) && NoPair(y, a, b)
    requires x == [] || y == [] || x[|x| - 1] != a || y[0] != b
    ensures NoPair(x + y, a, b)
  {
    PrefixFree(x, y, a, b);
    forall i: nat | |x| <= i < |x + y|
      ensures !PairAt(x + y, i, a, b)
    {
      if i + 1 < |x + y| {
        assert !PairAt(y, i - |x|, a, b);
      }
    }
  }

  /** The text `var name = ` holds no `/`. */
  lemma HeadHasNoSlash(name: string)
    requires forall k :: 0 <= k < |name| ==> IsWordChar(name[k])
    ensures forall k :: 0 <= k < |"var " + name + " = "| ==> ("var " + name + " = ")[k] != '/'
  {
    var head := "var " + name + " = ";
    forall k | 0 <= k < |head| ensures head[k] != '/' {
      if 4 <= k < 4 + |name| { assert head[k] == name[k - 4]; }
    }
  }

  /**
   * An array assigned to a variable, with no comments in it and nothing
   * around it to trim, is what reaches the repair.
   */
  lemma AssignmentPrepared(name: string, arr: string)
    requires name != [] && forall k :: 0 <= k < |name| ==> IsWordChar(name[k])
    requires StartsWith(arr, '[') && IsTrimmed(arr)
    requires NoPair(arr, '/', '*') && NoPair(arr, '/', '/')
    ensures Prepared("var " + name + " = " + arr) == arr
  {
    var head := "var " + name + " = ";
    HeadHasNoSlash(name);
    NoSlashNoPair(head, '*');
    NoSlashNoPair(head, '/');
    NoPairJoin(head, arr, '/', '*');
    NoPairJoin(head, arr, '/', '/');
    var s := head + arr;
    BlockFreeUnchanged(s);
    LineFreeUnchanged(s);
    assert s == "var" + " " + name + " " + "=" + " " + arr;
    AssignmentDropped(" ", name, " ", " ", arr);
    TrimUnchanged(arr);
  }

  /**
   * A `var` assignment of an array cut short, with no comments in it, gives
   * the array up to its last complete object, closed.
   */
  lemma TruncatedAssignmentClosed(name: string, arr: string)
    requires name != [] && forall k :: 0 <= k < |name| ==> IsWordChar(name[k])
    requires StartsWith(arr, '[') && IsTrimmed(arr) && !EndsWith(arr, ']')
    requires NoPair(arr, '/', '*') && NoPair(arr, '/', '/')
    requires LastIndexOf(arr, '}') > 0
    ensures ExtractJsonArray("var " + name + " = " + arr)
      == arr[..LastIndexOf(arr, '}') + 1] + "]"
  {
    AssignmentPrepared(name, arr);
  }
}
