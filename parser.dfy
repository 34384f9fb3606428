/**
 * Core/QueryParser.cs: a query line `WHERE <cond> AND <cond> ...` becomes a
 * `ParsedQuery`.
 *
 * The three regular expressions of the source are written as recognisers:
 *   WherePattern      `^\s*WHERE\s+(.+)\s*$`, ignoring case   -> WhereBody
 *   AndSplitPattern   `\s+AND\s+`, ignoring case              -> SeparatorAt, SplitAnd
 *   ConditionPattern  `([\w_]+)\s*([=<>])\s*('([^']*)'|([\d.\-]+))` -> ConditionAt, FindCondition
 * Each greedy quantifier of these patterns can only succeed at its longest
 * run (the character classes that follow it are disjoint from its own), so
 * the recognisers take the longest run and never backtrack.
 */
module Parser {

  import opened Wrappers
  import opened Text
  import opened Numbers
  import opened Conditions

  const EmptyQueryMessage: string := "Query cannot be empty"
  const MissingWhereMessage: string := "Query must start with WHERE clause. Example: WHERE Z13_STATUS_CODE = 4"
  const NoConditionsMessage: string := "No valid conditions found in query"

  function InvalidConditionMessage(segment: string): string {
    "Invalid condition format: '" + segment
      + "'. Expected format: field_name = value or field_name < value or field_name > value"
  }

  // ---------------------------------------------------------------------
  // WherePattern

  /**
   * `^\s*WHERE\s+(.+)\s*$` (ignoring case) on a trimmed line: group 1.
   * On a trimmed line the leading `\s*` and trailing `\s*` match nothing, and
   * `.` does not match a line feed, so group 1 is everything after the
   * whitespace that follows `WHERE`, and it must hold no line feed.
   */
  function WhereBody(t: string): (r: Option<string>)
    requires IsTrimmed(t)
    ensures r.Some? ==> 5 < |t| - |r.value| && Upper(t[..5]) == "WHERE" && t == t[..|t| - |r.value|] + r.value
    ensures r.Some? ==> AllSpace(t[5..|t| - |r.value|])
    ensures r.Some? ==> r.value != [] && IsTrimmed(r.value) && '\n' !in r.value
  {
    if |t| >= 5 && Upper(t[..5]) == "WHERE" then
      var j := RunEnd(t, 5, Whitespace);
      RunEndSpan(t, 5, Whitespace);
      if 5 < j < |t| && '\n' !in t[j..] then Some(t[j..]) else None
    else None
  }

  // ---------------------------------------------------------------------
  // AndSplitPattern

  /** The end of a match of `\s+AND\s+` (ignoring case) that starts at `p`, if there is one. */
  function SeparatorAt(s: string, p: nat): (r: Option<nat>)
    requires p <= |s|
    ensures r.Some? ==> p < r.value <= |s|
  {
    if p < |s| && IsSpace(s[p]) then
      var q := RunEnd(s, p, Whitespace);
      if q + 3 < |s| && Upper(s[q..q + 3]) == "AND" && IsSpace(s[q + 3]) then
        Some(RunEnd(s, q + 3, Whitespace))
      else None
    else None
  }

  /** The leftmost separator that starts at or after `from`: its start and end. */
  function FindSeparator(s: string, from: nat): (r: Option<(nat, nat)>)
    requires from <= |s|
    decreases |s| - from
    ensures r.Some? ==> from <= r.value.0 < r.value.1 <= |s| && SeparatorAt(s, r.value.0) == Some(r.value.1)
  {
    if from == |s| then None
    else match SeparatorAt(s, from)
      case Some(e) => Some((from, e))
      case None => FindSeparator(s, from + 1)
  }

  /** `Regex.Split` of `s[start..]` on the separator: the pieces between separators, left to right. */
  function SplitFrom(s: string, start: nat): (parts: seq<string>)
    requires start <= |s|
    decreases |s| - start
    ensures |parts| >= 1
  {
    match FindSeparator(s, start)
    case None => [s[start..]]
    case Some((p, e)) => [s[start..p]] + SplitFrom(s, e)
  }

  function SplitAnd(s: string): (parts: seq<string>)
    ensures |parts| >= 1
  {
    SplitFrom(s, 0)
  }

  // ---------------------------------------------------------------------
  // ConditionPattern

  /** The value alternative that matched: `'([^']*)'` (group 4) or `([\d.\-]+)` (group 5). */
  datatype RawValue = Quoted(content: string) | Bare(digits: string)

  /** A match of the condition pattern: group 1, group 2 (already mapped to an operator) and the value. */
  datatype RawCondition = RawCondition(field: string, op: ComparisonOperator, value: RawValue)

  /** The character class `[=<>]` together with the operator switch of `ParseCondition`. */
  function OperatorOf(c: char): (r: Option<ComparisonOperator>)
    ensures r.Some? <==> c == '=' || c == '<' || c == '>'
  {
    if c == '=' then Some(Equals)
    else if c == '<' then Some(LessThan)
    else if c == '>' then Some(GreaterThan)
    else None
  }

  /** The value alternative `('([^']*)'|([\d.\-]+))` matched at `t`, if either matches. */
  function ValueAt(s: string, t: nat): (r: Option<RawValue>)
    requires t <= |s|
  {
    if t < |s| && s[t] == '\'' then
      match IndexOf(s, '\'', t + 1)
      case Some(u) => Some(Quoted(s[t + 1..u]))
      case None => None
    else if t < |s| && IsNumberChar(s[t]) then
      Some(Bare(s[t..RunEnd(s, t, NumberChar)]))
    else None
  }

  /** A match of the condition pattern that starts at `p`, if there is one. */
  function ConditionAt(s: string, p: nat): (r: Option<RawCondition>)
    requires p <= |s|
  {
    if p < |s| && IsWordChar(s[p]) then
      var q := RunEnd(s, p, Word);
      var o := RunEnd(s, q, Whitespace);
      if o < |s| && OperatorOf(s[o]).Some? then
        match ValueAt(s, RunEnd(s, o + 1, Whitespace))
        case Some(v) => Some(RawCondition(s[p..q], OperatorOf(s[o]).value, v))
        case None => None
      else None
    else None
  }

  /** `ConditionPattern.Match`: the leftmost match at or after `from`, with its start. */
  function FindCondition(s: string, from: nat): (r: Option<(nat, RawCondition)>)
    requires from <= |s|
    decreases |s| - from
    ensures r.Some? ==> from <= r.value.0 < |s| && ConditionAt(s, r.value.0) == Some(r.value.1)
  {
    if from == |s| then None
    else match ConditionAt(s, from)
      case Some(c) => Some((from, c))
      case None => FindCondition(s, from + 1)
  }

  // ---------------------------------------------------------------------
  // ParseCondition

  /**
   * What `ParseCondition` builds from a match: the field as written, the
   * operator, and a text value for a non-empty quoted literal or a number
   * for a bare literal that parses; otherwise nothing.
   */
  function ConditionOf(raw: RawCondition, nf: NumberFormat): (r: Option<QueryCondition>)
    ensures r.Some? ==> WellTagged(r.value) && r.value.fieldName == raw.field && r.value.op == raw.op
  {
    match raw.value
    case Quoted(content) =>
      if |content| > 0 then Some(QueryCondition(raw.field, raw.op, Text(content), false)) else None
    case Bare(digits) =>
      match nf.tryParse(digits)
      case Some(x) => Some(QueryCondition(raw.field, raw.op, Number(x), true))
      case None => None
  }

  /**
   * `ParseCondition`: the condition the leftmost match describes, or `None`
   * (the source's `null`) when nothing matches, the quoted literal is empty
   * or the number does not parse.
   */
  function ParseCondition(text: string, nf: NumberFormat): (r: Option<QueryCondition>)
    ensures r.Some? ==> WellTagged(r.value)
  {
    match FindCondition(text, 0)
    case None => None
    case Some((_, raw)) => ConditionOf(raw, nf)
  }

  /** A field name: a non-empty run of word characters. */
  predicate IsFieldName(f: string) {
    f != [] && forall k :: 0 <= k < |f| ==> IsWordChar(f[k])
  }

  /**
   * The head of a condition starting at `p`: a field in `[p, f)`, spaces in
   * `[f, o)`, the operator at `o`, spaces in `(o, t)`, and `t` at the end of
   * those spaces.
   */
  predicate HeadAt(s: string, p: nat, f: nat, o: nat, t: nat) {
    && p < f <= o < t <= |s|
    && IsFieldName(s[p..f])
    && (f == |s| || !IsWordChar(s[f]))
    && AllSpace(s[f..o])
    && OperatorOf(s[o]).Some?
    && AllSpace(s[o + 1..t])
    && (t == |s| || !IsSpace(s[t]))
  }

  /** With such a head, the pattern matches at `p` exactly when the value alternative matches at `t`. */
  lemma ConditionAtHead(s: string, p: nat, f: nat, o: nat, t: nat)
    requires HeadAt(s, p, f, o, t)
    ensures ConditionAt(s, p) == match ValueAt(s, t)
      case Some(v) => Some(RawCondition(s[p..f], OperatorOf(s[o]).value, v))
      case None => None
  {
    assert forall k :: p <= k < f ==> IsWordChar(s[p..f][k - p]) && s[p..f][k - p] == s[k];
    assert forall k :: f <= k < o ==> IsSpace(s[f..o][k - f]) && s[f..o][k - f] == s[k];
    assert forall k :: o < k < t ==> IsSpace(s[o + 1..t][k - o - 1]) && s[o + 1..t][k - o - 1] == s[k];
    RunEndAt(s, p, f, Word);
    RunEndAt(s, f, o, Whitespace);
    RunEndAt(s, o + 1, t, Whitespace);
  }

  /** When the pattern matches at the very start, that match is the one `ParseCondition` reads. */
  lemma ParseConditionAtStart(s: string, nf: NumberFormat)
    requires ConditionAt(s, 0).Some?
    ensures ParseCondition(s, nf) == ConditionOf(ConditionAt(s, 0).value, nf)
  {
  }

  /** Where the parts of `field ws1 op ws2 tail` sit. */
  lemma HeadLayout(s: string, field: string, ws1: string, opc: char, ws2: string, tail: string)
    requires IsFieldName(field) && AllSpace(ws1) && AllSpace(ws2) && OperatorOf(opc).Some?
    requires tail != [] && !IsSpace(tail[0])
    requires s == field + ws1 + [opc] + ws2 + tail
    ensures HeadAt(s, 0, |field|, |field| + |ws1|, |s| - |tail|)
    ensures s[..|field|] == field && s[|field| + |ws1|] == opc && s[|s| - |tail|..] == tail
  {
    var f, o, t := |field|, |field| + |ws1|, |field| + |ws1| + 1 + |ws2|;
    assert s[..f] == field;
    assert s[f..o] == ws1;
    assert s[o + 1..t] == ws2;
    assert s[t..] == tail;
    assert s[t] == tail[0];
    assert s[f] == if f < o then ws1[0] else opc;
  }

  /** The condition read from a text whose head is laid out as above and whose value alternative matches at `t`. */
  lemma ParseWithHead(s: string, f: nat, o: nat, t: nat, v: RawValue, nf: NumberFormat)
    requires HeadAt(s, 0, f, o, t)
    requires ValueAt(s, t) == Some(v)
    ensures ParseCondition(s, nf) == ConditionOf(RawCondition(s[..f], OperatorOf(s[o]).value, v), nf)
  {
    ConditionAtHead(s, 0, f, o, t);
    assert s[0..f] == s[..f];
    ParseConditionAtStart(s, nf);
  }

  /** The quoted alternative reads up to the next quote. */
  lemma QuotedValue(s: string, tail: string, text: string, rest: string)
    requires tail == "'" + text + "'" + rest && '\'' !in text
    requires |tail| <= |s| && s[|s| - |tail|..] == tail
    ensures ValueAt(s, |s| - |tail|) == Some(Quoted(text))
  {
    var t := |s| - |tail|;
    var u := t + 1 + |text|;
    assert tail == ['\''] + (text + (['\''] + rest));
    assert forall k :: t <= k < |s| ==> s[k] == tail[k - t];
    assert forall k :: t + 1 <= k < u ==> s[k] == text[k - t - 1] != '\'';
    assert s[t] == '\'' && s[u] == '\'';
    IndexOfAt(s, '\'', t + 1, u);
    assert s[t + 1..u] == text;
  }

  /** The number alternative reads the longest run of number characters. */
  lemma BareValue(s: string, tail: string, digits: string, rest: string)
    requires tail == digits + rest
    requires digits != [] && forall k :: 0 <= k < |digits| ==> IsNumberChar(digits[k])
    requires rest == [] || !IsNumberChar(rest[0])
    requires |tail| <= |s| && s[|s| - |tail|..] == tail
    ensures ValueAt(s, |s| - |tail|) == Some(Bare(digits))
  {
    var t := |s| - |tail|;
    var e := t + |digits|;
    assert forall k :: t <= k < |s| ==> s[k] == tail[k - t];
    assert forall k :: t <= k < e ==> s[k] == digits[k - t];
    assert e < |s| ==> s[e] == rest[0];
    RunEndAt(s, t, e, NumberChar);
    assert s[t..e] == digits;
  }

  /**
   * A condition written `field op 'text'`, with any spacing around the
   * operator and anything after the closing quote, parses as a text
   * condition on that field, its name kept as written; an empty literal
   * `''` makes it invalid.
   */
  lemma QuotedConditionParses(field: string, ws1: string, opc: char, ws2: string, text: string, rest: string, nf: NumberFormat)
    requires IsFieldName(field) && AllSpace(ws1) && AllSpace(ws2) && OperatorOf(opc).Some?
    requires '\'' !in text
    ensures var s := field + ws1 + [opc] + ws2 + ("'" + text + "'" + rest);
      ParseCondition(s, nf) == if text == [] then None else Some(QueryCondition(field, OperatorOf(opc).value, Text(text), false))
  {
    var tail := "'" + text + "'" + rest;
    var s := field + ws1 + [opc] + ws2 + tail;
    HeadLayout(s, field, ws1, opc, ws2, tail);
    QuotedValue(s, tail, text, rest);
    ParseWithHead(s, |field|, |field| + |ws1|, |s| - |tail|, Quoted(text), nf);
  }

  /**
   * A condition written `field op number`, with any spacing around the
   * operator and anything after the number that cannot continue it, parses
   * as a numeric condition exactly when the number text parses.
   */
  lemma BareConditionParses(field: string, ws1: string, opc: char, ws2: string, digits: string, rest: string, nf: NumberFormat)
    requires IsFieldName(field) && AllSpace(ws1) && AllSpace(ws2) && OperatorOf(opc).Some?
    requires digits != [] && forall k :: 0 <= k < |digits| ==> IsNumberChar(digits[k])
    requires rest == [] || !IsNumberChar(rest[0])
    ensures var s := field + ws1 + [opc] + ws2 + (digits + rest);
      ParseCondition(s, nf) == match nf.tryParse(digits)
        case Some(x) => Some(QueryCondition(field, OperatorOf(opc).value, Number(x), true))
        case None => None
  {
    var tail := digits + rest;
    var s := field + ws1 + [opc] + ws2 + tail;
    HeadLayout(s, field, ws1, opc, ws2, tail);
    BareValue(s, tail, digits, rest);
    ParseWithHead(s, |field|, |field| + |ws1|, |s| - |tail|, Bare(digits), nf);
  }

  // ---------------------------------------------------------------------
  // Parse

  /** How `Parse` reads one piece of the WHERE group: trimmed, then `ParseCondition`. */
  function ParsePiece(piece: string, nf: NumberFormat): Option<QueryCondition> {
    ParseCondition(Trim(piece), nf)
  }

  /** Every piece read on its own. */
  function ParsePieces(parts: seq<string>, nf: NumberFormat): (r: seq<Option<QueryCondition>>)
    ensures |r| == |parts|
    ensures forall i :: 0 <= i < |parts| ==> r[i] == ParsePiece(parts[i], nf)
  {
    seq(|parts|, i requires 0 <= i < |parts| => ParsePiece(parts[i], nf))
  }

  /**
   * The outcomes of the pieces taken in order up to the first failure: the
   * conditions before it, and whether there was no failure. When there is
   * one, it is at index `|r.0|`.
   */
  function TakeParsed(outcomes: seq<Option<QueryCondition>>): (r: (seq<QueryCondition>, bool))
    ensures r.1 ==> |r.0| == |outcomes|
    ensures !r.1 ==> |r.0| < |outcomes| && outcomes[|r.0|].None?
  {
    if outcomes == [] then ([], true)
    else match outcomes[0]
      case None => ([], false)
      case Some(c) =>
        var rest := TakeParsed(outcomes[1..]);
        ([c] + rest.0, rest.1)
  }

  /** Taking from a concatenation: when the first list has no failure, the second carries on after it. */
  lemma {:induction false} TakeParsedAppend(a: seq<Option<QueryCondition>>, b: seq<Option<QueryCondition>>)
    requires TakeParsed(a).1
    ensures TakeParsed(a + b) == (TakeParsed(a).0 + TakeParsed(b).0, TakeParsed(b).1)
  {
    if a == [] {
      assert a + b == b && [] + TakeParsed(b).0 == TakeParsed(b).0;
    } else {
      assert (a + b)[0] == a[0] && (a + b)[1..] == a[1..] + b;
      var c := a[0].value;
      TakeParsedAppend(a[1..], b);
      assert [c] + (TakeParsed(a[1..]).0 + TakeParsed(b).0) == ([c] + TakeParsed(a[1..]).0) + TakeParsed(b).0;
    }
  }

  /** A failure at `i` after a clean prefix ends the list's outcome there. */
  lemma TakeParsedStop(outcomes: seq<Option<QueryCondition>>, i: nat)
    requires i < |outcomes| && TakeParsed(outcomes[..i]).1 && outcomes[i].None?
    ensures TakeParsed(outcomes) == (TakeParsed(outcomes[..i]).0, false)
  {
    var done := TakeParsed(outcomes[..i]).0;
    assert outcomes == outcomes[..i] + outcomes[i..];
    assert outcomes[i..][0] == outcomes[i];
    TakeParsedAppend(outcomes[..i], outcomes[i..]);
    assert done + [] == done;
  }

  /** A success at `i` after a clean prefix extends the prefix by its condition. */
  lemma TakeParsedExtend(outcomes: seq<Option<QueryCondition>>, i: nat)
    requires i < |outcomes| && TakeParsed(outcomes[..i]).1 && outcomes[i].Some?
    ensures TakeParsed(outcomes[..i + 1]) == (TakeParsed(outcomes[..i]).0 + [outcomes[i].value], true)
  {
    var c := outcomes[i].value;
    assert outcomes[..i + 1] == outcomes[..i] + [outcomes[i]];
    TakeParsedSingle(outcomes[i]);
    TakeParsedAppend(outcomes[..i], [outcomes[i]]);
  }

  lemma TakeParsedSingle(outcome: Option<QueryCondition>)
    requires outcome.Some?
    ensures TakeParsed([outcome]) == ([outcome.value], true)
  {
    assert [outcome][0] == outcome && [outcome][1..] == [];
    assert [outcome.value] + [] == [outcome.value];
  }

  /** The conditions taken before the first failure are the outcomes of those pieces, in order. */
  lemma {:induction false} TakeParsedPrefix(outcomes: seq<Option<QueryCondition>>)
    ensures forall k :: 0 <= k < |TakeParsed(outcomes).0| ==> outcomes[k] == Some(TakeParsed(outcomes).0[k])
  {
    if outcomes != [] && outcomes[0].Some? {
      var r, rest := TakeParsed(outcomes), TakeParsed(outcomes[1..]);
      TakeParsedPrefix(outcomes[1..]);
      assert r.0 == [outcomes[0].value] + rest.0;
      forall k | 0 < k < |r.0|
        ensures outcomes[k] == Some(r.0[k])
      {
        assert outcomes[k] == outcomes[1..][k - 1] && r.0[k] == rest.0[k - 1];
      }
    }
  }

  /** The first failure is where taking stops. */
  lemma TakeParsedFirstNone(outcomes: seq<Option<QueryCondition>>, i: nat)
    requires i < |outcomes| && outcomes[i].None?
    requires forall j :: 0 <= j < i ==> outcomes[j].Some?
    ensures !TakeParsed(outcomes).1 && |TakeParsed(outcomes).0| == i
  {
    TakeParsedPrefix(outcomes);
  }

  /** How the loop of `Parse` turns the pieces and their outcomes into a `ParsedQuery`. */
  function Assemble(parts: seq<string>, outcomes: seq<Option<QueryCondition>>): ParsedQuery
    requires |outcomes| == |parts|
  {
    var r := TakeParsed(outcomes);
    if !r.1 then
      NewParsedQuery.(conditions := r.0, isValid := false, errorMessage := Some(InvalidConditionMessage(Trim(parts[|r.0|]))))
    else if |r.0| == 0 then
      NewParsedQuery.(isValid := false, errorMessage := Some(NoConditionsMessage))
    else NewParsedQuery.(conditions := r.0)
  }

  /** `Assemble` when the first failure is at `i`. */
  lemma AssembleStop(parts: seq<string>, outcomes: seq<Option<QueryCondition>>, i: nat, done: seq<QueryCondition>)
    requires |outcomes| == |parts| && i < |parts|
    requires TakeParsed(outcomes[..i]) == (done, true) && outcomes[i].None?
    ensures Assemble(parts, outcomes) == ParsedQuery(done, false, Some(InvalidConditionMessage(Trim(parts[i]))))
  {
    TakeParsedStop(outcomes, i);
  }

  /** `Assemble` when nothing fails. */
  lemma AssembleAll(parts: seq<string>, outcomes: seq<Option<QueryCondition>>, done: seq<QueryCondition>)
    requires |outcomes| == |parts| && TakeParsed(outcomes) == (done, true)
    ensures Assemble(parts, outcomes)
      == if done == [] then ParsedQuery([], false, Some(NoConditionsMessage)) else ParsedQuery(done, true, None)
  {
  }

  /** What `Parse` makes of the pieces the WHERE group splits into. */
  function ParsedFromParts(parts: seq<string>, nf: NumberFormat): ParsedQuery {
    Assemble(parts, ParsePieces(parts, nf))
  }

  lemma InvalidMessageIsNotNoConditions(segment: string)
    ensures InvalidConditionMessage(segment) != NoConditionsMessage
  {
    assert InvalidConditionMessage(segment)[0] == 'I' != NoConditionsMessage[0];
  }

  /** `Assemble` for any outcomes: the facts `ParsedFromPartsShape` states, with `outcomes[k]` for the parse of piece `k`. */
  lemma AssembleShape(parts: seq<string>, outcomes: seq<Option<QueryCondition>>)
    requires |outcomes| == |parts|
    requires forall k :: 0 <= k < |outcomes| && outcomes[k].Some? ==> WellTagged(outcomes[k].value)
    ensures var r := Assemble(parts, outcomes);
      && (r.isValid <==> r.errorMessage.None?)
      && (r.isValid <==> |parts| >= 1 && forall k :: 0 <= k < |parts| ==> outcomes[k].Some?)
      && (r.isValid ==> |r.conditions| == |parts|)
      && |r.conditions| <= |parts|
      && (forall k :: 0 <= k < |r.conditions| ==> outcomes[k] == Some(r.conditions[k]))
      && (forall c :: c in r.conditions ==> WellTagged(c))
      && (|parts| >= 1 ==> r.errorMessage != Some(NoConditionsMessage))
  {
    var r := TakeParsed(outcomes);
    TakeParsedPrefix(outcomes);
    forall c | c in r.0
      ensures WellTagged(c)
    {
      var k :| 0 <= k < |r.0| && r.0[k] == c;
      assert outcomes[k] == Some(c);
    }
    if !r.1 {
      InvalidMessageIsNotNoConditions(Trim(parts[|r.0|]));
    }
  }

  /**
   * The outcome of a list of pieces: valid exactly when there is a piece and
   * every piece parses, and then one condition per piece, in order; an error
   * message exactly when invalid; the conditions kept are always those of
   * the leading pieces.
   */
  lemma ParsedFromPartsShape(parts: seq<string>, nf: NumberFormat)
    ensures var r := ParsedFromParts(parts, nf);
      && (r.isValid <==> r.errorMessage.None?)
      && (r.isValid <==> |parts| >= 1 && forall k :: 0 <= k < |parts| ==> ParsePiece(parts[k], nf).Some?)
      && (r.isValid ==> |r.conditions| == |parts|)
      && |r.conditions| <= |parts|
      && (forall k :: 0 <= k < |r.conditions| ==> ParsePiece(parts[k], nf) == Some(r.conditions[k]))
      && (forall c :: c in r.conditions ==> WellTagged(c))
      && (|parts| >= 1 ==> r.errorMessage != Some(NoConditionsMessage))
  {
    AssembleShape(parts, ParsePieces(parts, nf));
  }

  /** When every piece parses, the query is valid and holds exactly their conditions, in order. */
  lemma AllPiecesParse(parts: seq<string>, conds: seq<QueryCondition>, nf: NumberFormat)
    requires |parts| == |conds| >= 1
    requires forall k :: 0 <= k < |parts| ==> ParsePiece(parts[k], nf) == Some(conds[k])
    ensures ParsedFromParts(parts, nf) == ParsedQuery(conds, true, None)
  {
    ParsedFromPartsShape(parts, nf);
    var r := ParsedFromParts(parts, nf);
    assert r.conditions == conds;
  }

  /**
   * The first piece that does not parse decides the outcome: invalid, with a
   * message quoting that piece trimmed, and the conditions of the pieces
   * before it kept.
   */
  lemma FirstFailureWins(parts: seq<string>, nf: NumberFormat, i: nat)
    requires i < |parts| && ParsePiece(parts[i], nf).None?
    requires forall j :: 0 <= j < i ==> ParsePiece(parts[j], nf).Some?
    ensures var r := ParsedFromParts(parts, nf);
      && !r.isValid && r.errorMessage == Some(InvalidConditionMessage(Trim(parts[i])))
      && |r.conditions| == i
      && forall j :: 0 <= j < i ==> ParsePiece(parts[j], nf) == Some(r.conditions[j])
  {
    var outcomes := ParsePieces(parts, nf);
    TakeParsedFirstNone(outcomes, i);
    TakeParsedPrefix(outcomes);
  }

  /** The pieces of the WHERE group of a query line, if it has one. */
  function WherePieces(query: string): (r: Option<seq<string>>)
    ensures r.Some? ==> |r.value| >= 1
  {
    match WhereBody(Trim(query))
    case None => None
    case Some(body) => Some(SplitAnd(Trim(body)))
  }

  /**
   * The general shape of a parse: a blank line and a line without a WHERE
   * group are rejected with their messages and no conditions; an error
   * message is set exactly when the result is invalid; a valid result has a
   * condition, and every condition is numeric exactly when its value is a
   * number. The "no valid conditions" message is never produced, since
   * splitting always yields a piece.
   */
  lemma ParseQueryShape(query: string, nf: NumberFormat)
    ensures var r := ParseQuery(query, nf);
      && (AllSpace(query) ==> r == ParsedQuery([], false, Some(EmptyQueryMessage)))
      && (WherePieces(query).None? ==> !r.isValid && r.conditions == [])
      && (!AllSpace(query) && WherePieces(query).None? ==> r.errorMessage == Some(MissingWhereMessage))
      && (r.isValid <==> r.errorMessage.None?)
      && (r.isValid ==> |r.conditions| >= 1)
      && (forall c :: c in r.conditions ==> WellTagged(c))
      && r.errorMessage != Some(NoConditionsMessage)
  {
    var r := ParseQuery(query, nf);
    if !AllSpace(query) && WherePieces(query).Some? {
      ParsedFromPartsShape(WherePieces(query).value, nf);
    }
  }

  /** What `Parse` returns for a query line. */
  function ParseQuery(query: string, nf: NumberFormat): ParsedQuery {
    if AllSpace(query) then
      NewParsedQuery.(isValid := false, errorMessage := Some(EmptyQueryMessage))
    else match WhereBody(Trim(query))
      case None => NewParsedQuery.(isValid := false, errorMessage := Some(MissingWhereMessage))
      case Some(body) => ParsedFromParts(SplitAnd(Trim(body)), nf)
  }

  /**
   * `QueryParser.Parse`: rejects a blank line and a line without a WHERE
   * clause, then parses the pieces of the WHERE group.
   */
  method Parse(query: string, nf: NumberFormat) returns (result: ParsedQuery)
    ensures result == ParseQuery(query, nf)
    ensures AllSpace(query) ==> result == ParsedQuery([], false, Some(EmptyQueryMessage))
    ensures WherePieces(query).None? ==> !result.isValid && result.conditions == []
    ensures !AllSpace(query) && WherePieces(query).None? ==> result.errorMessage == Some(MissingWhereMessage)
    ensures result.isValid <==> result.errorMessage.None?
    ensures result.isValid ==> |result.conditions| >= 1
    ensures forall c :: c in result.conditions ==> WellTagged(c)
    ensures result.errorMessage != Some(NoConditionsMessage)
  {
    result := NewParsedQuery;
    if AllSpace(query) {
      result := result.(isValid := false, errorMessage := Some(EmptyQueryMessage));
      return;
    }
    var whereMatch := WhereBody(Trim(query));
    if whereMatch.None? {
      result := result.(isValid := false, errorMessage := Some(MissingWhereMessage));
      return;
    }
    var conditionsText := Trim(whereMatch.value);
    var conditionParts := SplitAnd(conditionsText);
    result := ParseParts(conditionParts, nf);
    ParseQueryShape(query, nf);
  }

  /**
   * The loop of `QueryParser.Parse` over the pieces: appends one condition
   * per piece to a fresh `ParsedQuery` and returns early at the first piece
   * that does not parse.
   */
  method ParseParts(conditionParts: seq<string>, nf: NumberFormat) returns (result: ParsedQuery)
    ensures result == ParsedFromParts(conditionParts, nf)
  {
    result := NewParsedQuery;
    ghost var outcomes := ParsePieces(conditionParts, nf);
    var i := 0;
    while i < |conditionParts|
      invariant 0 <= i <= |conditionParts|
      invariant result.isValid && result.errorMessage.None?
      invariant TakeParsed(outcomes[..i]) == (result.conditions, true)
    {
      var part := Trim(conditionParts[i]);
      var condition := ParseCondition(part, nf);
      if condition.None? {
        AssembleStop(conditionParts, outcomes, i, result.conditions);
        result := result.(isValid := false, errorMessage := Some(InvalidConditionMessage(part)));
        return;
      }
      TakeParsedExtend(outcomes, i);
      result := result.(conditions := result.conditions + [condition.value]);
      i := i + 1;
    }
    assert outcomes[..i] == outcomes;
    AssembleAll(conditionParts, outcomes, result.conditions);
    if |result.conditions| == 0 {
      result := result.(isValid := false, errorMessage := Some(NoConditionsMessage));
    }
  }
}
