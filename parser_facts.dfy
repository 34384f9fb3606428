/**
 * Properties of the query grammar of Core/QueryParser.cs that relate
 * several recognisers: the WHERE prefix round trip, how the AND separator
 * splits the WHERE group, and worked examples of the unanchored condition
 * pattern.
 */
module ParserFacts {

  import opened Wrappers
  import opened Text
  import opened Numbers
  import opened Conditions
  import opened Parser

  // ---------------------------------------------------------------------
  // WHERE

  /**
   * `WHERE` in any case, then whitespace, then a trimmed body on one line:
   * the WHERE pattern yields exactly that body. With the `ensures` of
   * `WhereBody`, which says every accepted line has this shape, this is an
   * if-and-only-if.
   */
  lemma WhereRoundTrip(w: string, ws: string, body: string)
    requires |w| == 5 && Upper(w) == "WHERE"
    requires ws != [] && AllSpace(ws)
    requires body != [] && IsTrimmed(body) && '\n' !in body
    ensures IsTrimmed(w + ws + body)
    ensures WhereBody(w + ws + body) == Some(body)
  {
    var t := w + ws + body;
    var j := 5 + |ws|;
    assert t[..5] == w && t[5..j] == ws && t[j..] == body;
    assert UpperChar(t[0]) == Upper(w)[0] == 'W';
    forall k | 5 <= k < j
      ensures InClass(t[k], Whitespace)
    {
      assert t[k] == ws[k - 5];
    }
    assert t[j] == body[0] && t[|t| - 1] == body[|body| - 1];
    RunEndAt(t, 5, j, Whitespace);
  }

  /** The pieces of a `WHERE` line are the pieces of the text after `WHERE` and its spaces. */
  lemma WhereLinePieces(query: string, w: string, ws: string, body: string)
    requires query == w + ws + body
    requires |w| == 5 && Upper(w) == "WHERE"
    requires ws != [] && AllSpace(ws)
    requires body != [] && IsTrimmed(body) && '\n' !in body
    ensures !AllSpace(query)
    ensures WherePieces(query) == Some(SplitAnd(body))
  {
    WhereRoundTrip(w, ws, body);
    TrimUnchanged(query);
    TrimUnchanged(body);
  }

  // ---------------------------------------------------------------------
  // AND splitting

  /** A separator inside a slice is a separator of the whole text at the corresponding position. */
  lemma SeparatorInSlice(s: string, a: nat, b: nat, p: nat)
    requires a <= b <= |s| && p <= b - a
    requires SeparatorAt(s[a..b], p).Some?
    ensures SeparatorAt(s, a + p).Some?
  {
    var x := s[a..b];
    var q := RunEnd(x, p, Whitespace);
    RunEndSpan(x, p, Whitespace);
    forall k | a + p <= k < a + q
      ensures InClass(s[k], Whitespace)
    {
      assert s[k] == x[k - a];
    }
    assert UpperChar(x[q]) == Upper(x[q..q + 3])[0] == 'A';
    assert s[a + q] == x[q];
    RunEndAt(s, a + p, a + q, Whitespace);
    SliceOfSlice(s, a, b, q, q + 3);
    assert s[a + q + 3] == x[q + 3];
  }

  lemma SliceOfSlice(s: string, a: nat, b: nat, i: nat, j: nat)
    requires a <= b <= |s| && i <= j <= b - a
    ensures s[a..b][i..j] == s[a + i..a + j]
  {
    assert forall k :: 0 <= k < j - i ==> s[a..b][i..j][k] == s[a + i + k];
  }

  /** When no separator is found from `from`, there is none at any position from there. */
  lemma {:induction false} FindSeparatorNone(s: string, from: nat)
    requires from <= |s| && FindSeparator(s, from).None?
    ensures forall p :: from <= p <= |s| ==> SeparatorAt(s, p).None?
    decreases |s| - from
  {
    if from < |s| {
      FindSeparatorNone(s, from + 1);
    }
  }

  /** The separator found is the leftmost one. */
  lemma {:induction false} FindSeparatorLeftmost(s: string, from: nat)
    requires from <= |s| && FindSeparator(s, from).Some?
    ensures forall x :: from <= x < FindSeparator(s, from).value.0 ==> SeparatorAt(s, x).None?
    decreases |s| - from
  {
    if SeparatorAt(s, from).None? {
      FindSeparatorLeftmost(s, from + 1);
    }
  }

  /** The search finds the first separator when there is none before it. */
  lemma {:induction false} FindSeparatorAt(s: string, from: nat, p: nat, e: nat)
    requires from <= p <= |s| && SeparatorAt(s, p) == Some(e)
    requires forall x :: from <= x < p ==> SeparatorAt(s, x).None?
    ensures FindSeparator(s, from) == Some((p, e))
    decreases p - from
  {
    if from < p {
      FindSeparatorAt(s, from + 1, p, e);
    }
  }

  /** The search finds nothing when there is no separator from `from` on. */
  lemma {:induction false} FindSeparatorAbsent(s: string, from: nat)
    requires from <= |s|
    requires forall x :: from <= x < |s| ==> SeparatorAt(s, x).None?
    ensures FindSeparator(s, from).None?
    decreases |s| - from
  {
    if from < |s| {
      FindSeparatorAbsent(s, from + 1);
    }
  }

  /** A stretch of text in which no separator starts holds no separator once cut out. */
  lemma CleanSlice(s: string, a: nat, b: nat)
    requires a <= b <= |s|
    requires forall x :: a <= x < b ==> SeparatorAt(s, x).None?
    ensures forall y: nat :: y <= b - a ==> SeparatorAt(s[a..b], y).None?
  {
    forall y: nat | y <= b - a
      ensures SeparatorAt(s[a..b], y).None?
    {
      if SeparatorAt(s[a..b], y).Some? {
        SeparatorInSlice(s, a, b, y);
      }
    }
  }

  /** No piece of `SplitFrom` holds a separator. */
  lemma {:induction false} SplitFromPiecesClean(s: string, start: nat)
    requires start <= |s|
    ensures var parts := SplitFrom(s, start);
      forall k: nat, y: nat :: k < |parts| && y <= |parts[k]| ==> SeparatorAt(parts[k], y).None?
    decreases |s| - start
  {
    var parts := SplitFrom(s, start);
    match FindSeparator(s, start)
    case None =>
      FindSeparatorNone(s, start);
      CleanSlice(s, start, |s|);
      assert parts == [s[start..]];
      assert s[start..] == s[start..|s|];
    case Some((p, e)) =>
      FindSeparatorLeftmost(s, start);
      CleanSlice(s, start, p);
      SplitFromPiecesClean(s, e);
      assert parts == [s[start..p]] + SplitFrom(s, e);
  }

  /**
   * `Regex.Split` on the AND separator leaves no separator inside any
   * piece: every ` AND ` of the WHERE group, quoted or not, splits it.
   */
  lemma PiecesHaveNoSeparator(s: string)
    ensures forall k: nat, y: nat :: k < |SplitAnd(s)| && y <= |SplitAnd(s)[k]| ==> SeparatorAt(SplitAnd(s)[k], y).None?
  {
    SplitFromPiecesClean(s, 0);
    assert SplitAnd(s) == SplitFrom(s, 0);
  }

  /** A text is a single piece exactly when it holds no separator. */
  lemma SinglePieceIffNoSeparator(s: string)
    ensures SplitAnd(s) == [s] <==> forall p: nat :: p <= |s| ==> SeparatorAt(s, p).None?
  {
    match FindSeparator(s, 0)
    case None =>
      FindSeparatorNone(s, 0);
      assert s[0..] == s;
    case Some((p, e)) =>
      assert |SplitAnd(s)| >= 2;
  }

  /** The separator matches `SplitFrom` cuts at, as (start, end) spans, left to right. */
  function Separators(s: string, start: nat): (spans: seq<(nat, nat)>)
    requires start <= |s|
    decreases |s| - start
    ensures forall k :: 0 <= k < |spans| ==>
      start <= spans[k].0 < spans[k].1 <= |s| && SeparatorAt(s, spans[k].0) == Some(spans[k].1)
    ensures forall k :: 0 < k < |spans| ==> spans[k - 1].1 <= spans[k].0
  {
    match FindSeparator(s, start)
    case None => []
    case Some((p, e)) => [(p, e)] + Separators(s, e)
  }

  /** The text a span covers; a span outside the text covers nothing. */
  function SpanText(s: string, span: (nat, nat)): string {
    if span.0 <= span.1 <= |s| then s[span.0..span.1] else []
  }

  /** The pieces with the text of each separator span put back between neighbours. */
  function Interleave(s: string, parts: seq<string>, spans: seq<(nat, nat)>): string
    requires |parts| == |spans| + 1
    decreases |spans|
  {
    if spans == [] then parts[0]
    else parts[0] + SpanText(s, spans[0]) + Interleave(s, parts[1..], spans[1..])
  }

  /**
   * Splitting loses nothing: the pieces, with the text of each separator
   * match put back between them, rebuild the text. With the pieces being
   * separator-free, each piece is exactly one stretch between matches.
   */
  lemma {:induction false} SplitFromRebuilds(s: string, start: nat)
    requires start <= |s|
    ensures |SplitFrom(s, start)| == |Separators(s, start)| + 1
    ensures Interleave(s, SplitFrom(s, start), Separators(s, start)) == s[start..]
    decreases |s| - start
  {
    match FindSeparator(s, start)
    case None =>
    case Some((p, e)) =>
      SplitFromRebuilds(s, e);
      InterleaveStep(s, start, p, e, SplitFrom(s, e), Separators(s, e));
  }

  /** One step of the rebuild: a piece and a separator in front of a rebuilt rest. */
  lemma InterleaveStep(s: string, start: nat, p: nat, e: nat, parts: seq<string>, spans: seq<(nat, nat)>)
    requires start <= p <= e <= |s| && |parts| == |spans| + 1
    requires Interleave(s, parts, spans) == s[e..]
    ensures Interleave(s, [s[start..p]] + parts, [(p, e)] + spans) == s[start..]
  {
    var ps, ss := [s[start..p]] + parts, [(p, e)] + spans;
    assert ps[0] == s[start..p] && ps[1..] == parts;
    assert ss[0] == (p, e) && ss[1..] == spans;
    var rest := Interleave(s, parts, spans);
    assert Interleave(s, ps, ss) == s[start..p] + s[p..e] + rest;
    SlicesJoin(s, start, p, e);
  }

  lemma SlicesJoin(s: string, a: nat, b: nat, c: nat)
    requires a <= b <= c <= |s|
    ensures s[a..b] + s[b..c] + s[c..] == s[a..]
  {
  }

  lemma SplitAndRebuilds(s: string)
    ensures |SplitAnd(s)| == |Separators(s, 0)| + 1
    ensures Interleave(s, SplitAnd(s), Separators(s, 0)) == s
  {
    SplitFromRebuilds(s, 0);
    assert s[0..] == s;
  }

  // ---------------------------------------------------------------------
  // The condition pattern is not anchored

  /** `X = 5abc` reads as `X = 5`: the match stops at the first character that cannot continue a number. */
  lemma TrailingTextIgnored(nf: NumberFormat)
    ensures ParseCondition("X = 5abc", nf) == match nf.tryParse("5")
      case Some(x) => Some(QueryCondition("X", Equals, Number(x), true))
      case None => None
  {
    assert "X" + " " + ['='] + " " + ("5" + "abc") == "X = 5abc";
    BareConditionParses("X", " ", '=', " ", "5", "abc", nf);
  }

  /** The empty literal `''` does not make a condition. */
  lemma EmptyLiteralRejected(nf: NumberFormat)
    ensures ParseCondition("FLAG = ''", nf) == None
  {
    assert "FLAG" + " " + ['='] + " " + ("'" + "" + "'" + "") == "FLAG = ''";
    QuotedConditionParses("FLAG", " ", '=', " ", "", "", nf);
  }

  // ---------------------------------------------------------------------
  // A quoted literal holding ` AND ` is split

  const QuotedAndGroup: string := "FLAG = 'A AND B'"
  const QuotedAndFirst: string := "FLAG = 'A"
  const QuotedAndSecond: string := "B'"
  const QuotedAndQuery: string := "WHERE " + QuotedAndGroup

  lemma QuotedAndNoEarlySeparator()
    ensures forall x :: 0 <= x < 9 ==> SeparatorAt(QuotedAndGroup, x).None?
  {
    var s := QuotedAndGroup;
    assert forall x :: 0 <= x < 9 && x != 4 && x != 6 ==> !IsSpace(s[x]);
    assert Upper(s[5..8])[0] == '=';
    assert Upper(s[7..10])[0] == '\'';
    assert SeparatorAt(s, 4).None? && SeparatorAt(s, 6).None?;
  }

  lemma QuotedAndSeparator()
    ensures SeparatorAt(QuotedAndGroup, 9) == Some(14)
  {
    var s := QuotedAndGroup;
    assert Upper(s[10..13]) == "AND";
  }

  /** The separator inside the quotes of `FLAG = 'A AND B'` splits the text in two. */
  lemma QuotedAndSplits()
    ensures SplitAnd(QuotedAndGroup) == [QuotedAndFirst, QuotedAndSecond]
  {
    var s := QuotedAndGroup;
    QuotedAndNoEarlySeparator();
    QuotedAndSeparator();
    FindSeparatorAt(s, 0, 9, 14);
    FindSeparatorAbsent(s, 14);
    assert SplitAnd(s) == [s[0..9]] + SplitFrom(s, 14);
    assert SplitFrom(s, 14) == [s[14..]];
    QuotedAndPieces();
  }

  lemma QuotedAndPieces()
    ensures QuotedAndGroup[0..9] == QuotedAndFirst && QuotedAndGroup[14..] == QuotedAndSecond
  {
  }

  /** The condition search finds nothing when the pattern matches nowhere from `from` on. */
  lemma {:induction false} FindConditionAbsent(s: string, from: nat)
    requires from <= |s|
    requires forall x :: from <= x < |s| ==> ConditionAt(s, x).None?
    ensures FindCondition(s, from).None?
    decreases |s| - from
  {
    if from < |s| {
      FindConditionAbsent(s, from + 1);
    }
  }

  /**
   * A quoted value holds no quote; a bare value is a non-empty run of
   * number characters.
   */
  lemma ValueAtShape(s: string, t: nat)
    requires t <= |s| && ValueAt(s, t).Some?
    ensures var v := ValueAt(s, t).value;
      && (v.Quoted? ==> '\'' !in v.content)
      && (v.Bare? ==> v.digits != [] && forall k :: 0 <= k < |v.digits| ==> IsNumberChar(v.digits[k]))
  {
    RunEndSpan(s, t, NumberChar);
  }

  /** The field of a condition match is a non-empty run of word characters. */
  lemma ConditionAtField(s: string, p: nat)
    requires p <= |s| && ConditionAt(s, p).Some?
    ensures var f := ConditionAt(s, p).value.field;
      f != [] && forall k :: 0 <= k < |f| ==> IsWordChar(f[k])
  {
    RunEndSpan(s, p, Word);
  }

  /** No match starts at `x` when the search from `from` returns a later position. */
  lemma {:induction false} FindConditionSkips(s: string, from: nat, x: nat)
    requires from <= x < |s| && FindCondition(s, from).Some? && x < FindCondition(s, from).value.0
    ensures ConditionAt(s, x).None?
    decreases x - from
  {
    if from < x {
      FindConditionSkips(s, from + 1, x);
    }
  }

  /** The condition search returns the leftmost match: no match starts before the one it returns. */
  lemma FindConditionLeftmost(s: string, from: nat)
    requires from <= |s| && FindCondition(s, from).Some?
    ensures forall x :: from <= x < FindCondition(s, from).value.0 ==> ConditionAt(s, x).None?
  {
    forall x | from <= x < FindCondition(s, from).value.0
      ensures ConditionAt(s, x).None?
    {
      FindConditionSkips(s, from, x);
    }
  }

  /** The condition search finds nothing only when the pattern matches nowhere from `from` on. */
  lemma {:induction false} FindConditionNone(s: string, from: nat)
    requires from <= |s| && FindCondition(s, from).None?
    ensures forall x :: from <= x < |s| ==> ConditionAt(s, x).None?
    decreases |s| - from
  {
    if from < |s| {
      FindConditionNone(s, from + 1);
    }
  }

  /** `FLAG = 'A`, the first piece, has an opening quote and no closing one. */
  lemma UnclosedQuoteRejected(nf: NumberFormat)
    ensures ParseCondition(QuotedAndFirst, nf) == None
  {
    var x := QuotedAndFirst;
    assert x[7] == '\'' && x[8] != '\'';
    assert ValueAt(x, 7) == None;
    forall p | 0 <= p < 4
      ensures ConditionAt(x, p).None?
    {
      assert HeadAt(x, p, 4, 5, 7);
      ConditionAtHead(x, p, 4, 5, 7);
    }
    assert forall p :: 4 <= p < 8 ==> !IsWordChar(x[p]);
    assert RunEnd(x, 8, Word) == 9;
    FindConditionAbsent(x, 0);
  }

  /**
   * `WHERE FLAG = 'A AND B'` is rejected: the ` AND ` inside the quotes
   * splits the literal, and the message quotes the first piece.
   */
  lemma QuotedAndRejected(nf: NumberFormat)
    ensures ParseQuery(QuotedAndQuery, nf)
      == ParsedQuery([], false, Some(InvalidConditionMessage(QuotedAndFirst)))
  {
    QuotedAndPiecesOfLine();
    QueryFromPieces(QuotedAndQuery, nf);
    QuotedAndFirstFails(nf);
    FirstPieceFails(QuotedAndFirst, QuotedAndSecond, nf);
  }

  lemma QuotedAndPiecesOfLine()
    ensures WherePieces(QuotedAndQuery) == Some([QuotedAndFirst, QuotedAndSecond])
    ensures !AllSpace(QuotedAndQuery)
  {
    QuotedAndLine();
    WhereLinePieces(QuotedAndQuery, "WHERE", " ", QuotedAndGroup);
    QuotedAndSplits();
  }

  lemma QuotedAndFirstFails(nf: NumberFormat)
    ensures ParsePiece(QuotedAndFirst, nf) == None && Trim(QuotedAndFirst) == QuotedAndFirst
  {
    assert QuotedAndFirst[0] == 'F' && QuotedAndFirst[|QuotedAndFirst| - 1] == 'A';
    TrimUnchanged(QuotedAndFirst);
    UnclosedQuoteRejected(nf);
  }

  lemma QuotedAndLine()
    ensures QuotedAndQuery == "WHERE" + " " + QuotedAndGroup
    ensures Upper("WHERE") == "WHERE" && AllSpace(" ") && !AllSpace(QuotedAndQuery)
    ensures IsTrimmed(QuotedAndQuery) && IsTrimmed(QuotedAndGroup)
    ensures '\n' !in QuotedAndGroup
  {
    assert QuotedAndQuery[0] == 'W';
  }

  // ---------------------------------------------------------------------
  // The example query `WHERE A12_YEAR_BUILT > 2010 AND FLAG = 'Singapore'`

  // Each condition is spelled in the layout the property lemmas above describe.
  const ExampleFirst: string := "A12_YEAR_BUILT" + " " + ['>'] + " " + ("2010" + "")
  const ExampleSecond: string := "FLAG" + " " + ['='] + " " + ("'" + "Singapore" + "'" + "")
  const ExampleGroup: string := ExampleFirst + " AND " + ExampleSecond
  const ExampleQuery: string := "WHERE " + ExampleGroup

  lemma ExampleNoEarlySeparator()
    ensures forall x :: 0 <= x < 21 ==> SeparatorAt(ExampleGroup, x).None?
  {
    var s := ExampleGroup;
    assert forall x :: 0 <= x < 21 ==> s[x] == ExampleFirst[x];
    assert forall x :: 0 <= x < 21 && x != 14 && x != 16 ==> !IsSpace(s[x]);
    RunEndAt(s, 14, 15, Whitespace);
    RunEndAt(s, 16, 17, Whitespace);
    assert Upper(s[15..18])[0] == '>';
    assert Upper(s[17..20])[0] == '2';
    assert SeparatorAt(s, 14).None? && SeparatorAt(s, 16).None?;
  }

  lemma ExampleSeparator()
    ensures SeparatorAt(ExampleGroup, 21) == Some(26)
  {
    var s := ExampleGroup;
    assert s[21..26] == " AND ";
    assert s[26] == 'F';
    RunEndAt(s, 21, 22, Whitespace);
    RunEndAt(s, 25, 26, Whitespace);
    assert Upper(s[22..25]) == "AND";
  }

  lemma ExampleNoLateSeparator()
    ensures forall x :: 26 <= x < |ExampleGroup| ==> SeparatorAt(ExampleGroup, x).None?
  {
    var s := ExampleGroup;
    assert forall x :: 26 <= x < |s| ==> s[x] == ExampleSecond[x - 26];
    assert forall x :: 26 <= x < |s| && x != 30 && x != 32 ==> !IsSpace(s[x]);
    RunEndAt(s, 30, 31, Whitespace);
    RunEndAt(s, 32, 33, Whitespace);
    assert Upper(s[31..34])[0] == '=';
    assert Upper(s[33..36])[0] == '\'';
    assert SeparatorAt(s, 30).None? && SeparatorAt(s, 32).None?;
  }

  lemma ExampleGroupPieces()
    ensures ExampleGroup[0..21] == ExampleFirst && ExampleGroup[26..] == ExampleSecond
  {
  }

  lemma ExampleFirstShape()
    ensures IsFieldName("A12_YEAR_BUILT") && AllSpace(" ")
    ensures forall k :: 0 <= k < 4 ==> IsNumberChar("2010"[k])
    ensures IsTrimmed(ExampleFirst)
  {
    assert ExampleFirst[0] == 'A' && ExampleFirst[|ExampleFirst| - 1] == '0';
  }

  lemma ExampleSecondShape()
    ensures IsFieldName("FLAG") && AllSpace(" ") && '\'' !in "Singapore"
    ensures IsTrimmed(ExampleSecond)
  {
    assert ExampleSecond[0] == 'F' && ExampleSecond[|ExampleSecond| - 1] == '\'';
  }

  /** The WHERE group of the example splits into its two conditions. */
  lemma ExampleSplits()
    ensures SplitAnd(ExampleGroup) == [ExampleFirst, ExampleSecond]
  {
    var s := ExampleGroup;
    ExampleNoEarlySeparator();
    ExampleSeparator();
    ExampleNoLateSeparator();
    FindSeparatorAt(s, 0, 21, 26);
    FindSeparatorAbsent(s, 26);
    assert SplitAnd(s) == [s[0..21]] + SplitFrom(s, 26);
    assert SplitFrom(s, 26) == [s[26..]];
    ExampleGroupPieces();
  }

  lemma ExampleLine()
    ensures ExampleQuery == "WHERE" + " " + ExampleGroup && Upper("WHERE") == "WHERE"
    ensures !AllSpace(ExampleQuery)
    ensures IsTrimmed(ExampleQuery) && IsTrimmed(ExampleGroup)
    ensures '\n' !in ExampleGroup
  {
    assert ExampleQuery[0] == 'W';
    assert ExampleGroup[0] == 'A';
    assert ExampleGroup[|ExampleGroup| - 1] == '\'';
  }

  lemma ExamplePiecesOfLine()
    ensures WherePieces(ExampleQuery) == Some([ExampleFirst, ExampleSecond])
    ensures !AllSpace(ExampleQuery)
  {
    ExampleLine();
    WhereLinePieces(ExampleQuery, "WHERE", " ", ExampleGroup);
    ExampleSplits();
  }

  lemma ExampleFirstParses(nf: NumberFormat, y: real)
    requires nf.tryParse("2010") == Some(y)
    ensures ParsePiece(ExampleFirst, nf) == Some(QueryCondition("A12_YEAR_BUILT", GreaterThan, Number(y), true))
  {
    ExampleFirstShape();
    TrimUnchanged(ExampleFirst);
    BareConditionParses("A12_YEAR_BUILT", " ", '>', " ", "2010", "", nf);
  }

  lemma ExampleSecondParses(nf: NumberFormat)
    ensures ParsePiece(ExampleSecond, nf) == Some(QueryCondition("FLAG", Equals, Text("Singapore"), false))
  {
    ExampleSecondShape();
    TrimUnchanged(ExampleSecond);
    QuotedConditionParses("FLAG", " ", '=', " ", "Singapore", "", nf);
  }

  /** A line with a WHERE group parses as its pieces do. */
  lemma QueryFromPieces(query: string, nf: NumberFormat)
    requires !AllSpace(query) && WherePieces(query).Some?
    ensures ParseQuery(query, nf) == ParsedFromParts(WherePieces(query).value, nf)
  {
  }

  lemma TwoPiecesParse(p1: string, p2: string, c1: QueryCondition, c2: QueryCondition, nf: NumberFormat)
    requires ParsePiece(p1, nf) == Some(c1) && ParsePiece(p2, nf) == Some(c2)
    ensures ParsedFromParts([p1, p2], nf) == ParsedQuery([c1, c2], true, None)
  {
    var ps, cs := [p1, p2], [c1, c2];
    assert ParsePiece(ps[0], nf) == Some(cs[0]) && ParsePiece(ps[1], nf) == Some(cs[1]);
    forall k | 0 <= k < 2
      ensures ParsePiece(ps[k], nf) == Some(cs[k])
    {
      if k == 0 {
      } else {
        assert k == 1;
      }
    }
    AllPiecesParse(ps, cs, nf);
  }

  lemma FirstPieceFails(p1: string, p2: string, nf: NumberFormat)
    requires ParsePiece(p1, nf) == None
    ensures ParsedFromParts([p1, p2], nf) == ParsedQuery([], false, Some(InvalidConditionMessage(Trim(p1))))
  {
    var ps := [p1, p2];
    assert ParsePiece(ps[0], nf) == None;
    FirstFailureWins(ps, nf, 0);
  }

  /**
   * The query the program offers as its example parses into two conditions:
   * `A12_YEAR_BUILT > 2010` (numeric, provided the number text `2010`
   * parses) and `FLAG = 'Singapore'` (text), in that order.
   */
  lemma ExampleQueryParses(nf: NumberFormat, y: real)
    requires nf.tryParse("2010") == Some(y)
    ensures ParseQuery(ExampleQuery, nf)
      == ParsedQuery([QueryCondition("A12_YEAR_BUILT", GreaterThan, Number(y), true),
                      QueryCondition("FLAG", Equals, Text("Singapore"), false)], true, None)
  {
    var conds := [QueryCondition("A12_YEAR_BUILT", GreaterThan, Number(y), true),
                  QueryCondition("FLAG", Equals, Text("Singapore"), false)];
    ExamplePiecesOfLine();
    QueryFromPieces(ExampleQuery, nf);
    ExampleFirstParses(nf, y);
    ExampleSecondParses(nf);
    TwoPiecesParse(ExampleFirst, ExampleSecond, conds[0], conds[1], nf);
  }
}
