/**
 * The HTML report of a query result: escaping of the text placed in table
 * cells, how a condition is displayed, and which sections the page holds.
 * The fixed markup, the style sheet and the timestamp are not modelled; the
 * page is the sequence of its variable sections.
 */
module Html {
  import opened Wrappers
  import opened Text
  import opened Numbers
  import opened Conditions
  import opened Schema
  import opened Parser
  import opened Engine

  // ---------------------------------------------------------------------
  // Escaping
  // ---------------------------------------------------------------------

  /** What one character becomes in escaped text. */
  function EscapeChar(c: char): string {
    if c == '&' then "&amp;"
    else if c == '<' then "&lt;"
    else if c == '>' then "&gt;"
    else if c == '"' then "&quot;"
    else if c == '\'' then "&#39;"
    else [c]
  }

  /**
   * A character is kept as it is exactly when it is none of the five;
   * otherwise it becomes an entity, `&` to `;`.
   */
  lemma EscapeCharShape(c: char)
    ensures EscapeChar(c) == [c] <==> c != '&' && c != '<' && c != '>' && c != '"' && c != '\''
    ensures EscapeChar(c) != [c] ==> |EscapeChar(c)| >= 4 && EscapeChar(c)[0] == '&' && EscapeChar(c)[|EscapeChar(c)| - 1] == ';'
  {
  }

  /** Every character escaped on its own, in order. */
  function EscapeEach(s: string): (r: string)
    ensures |r| >= |s|
  {
    if s == [] then [] else EscapeChar(s[0]) + EscapeEach(s[1..])
  }

  /** The five `Replace` calls, ampersand first. */
  function Replacements(s: string): string {
    ReplaceChar(ReplaceChar(ReplaceChar(ReplaceChar(ReplaceChar(s, '&', "&amp;"), '<', "&lt;"), '>', "&gt;"), '"', "&quot;"), '\'', "&#39;")
  }

  /**
   * `EscapeHtml`: `N/A` for empty text; otherwise the text with `&`, `<`,
   * `>`, `"` and `'` replaced by their entities, which leaves none of the
   * last four in it.
   */
  function EscapeHtml(text: string): (r: string)
    ensures text == [] ==> r == "N/A"
    ensures text != [] ==> r == EscapeEach(text)
  {
    if text == [] then "N/A"
    else
      ReplacementsEscapeEach(text);
      Replacements(text)
  }

  /** No character escapes to markup. */
  predicate NoMarkup(s: string) {
    '<' !in s && '>' !in s && '"' !in s && '\'' !in s
  }

  /** Escaped text holds no `<`, `>`, `"` or `'`. */
  lemma {:induction false} EscapeEachNoMarkup(s: string)
    ensures NoMarkup(EscapeEach(s))
  {
    if s != [] {
      EscapeEachNoMarkup(s[1..]);
      var e := EscapeChar(s[0]);
      assert NoMarkup(e);
      assert forall x :: x in e + EscapeEach(s[1..]) ==> x in e || x in EscapeEach(s[1..]);
    }
  }

  /** `EscapeHtml` never yields `<`, `>`, `"` or `'`, so a cell cannot carry markup. */
  lemma EscapeHtmlNoMarkup(text: string)
    ensures NoMarkup(EscapeHtml(text))
  {
    EscapeEachNoMarkup(text);
  }

  /** Replacing a character that does not occur changes nothing. */
  lemma {:induction false} ReplaceAbsent(s: string, c: char, repl: string)
    requires c !in s
    ensures ReplaceChar(s, c, repl) == s
  {
    if s != [] {
      assert c !in s[1..];
      ReplaceAbsent(s[1..], c, repl);
      assert [s[0]] + s[1..] == s;
    }
  }

  /** Replacing in a single character. */
  lemma ReplaceOne(d: char, c: char, repl: string)
    ensures ReplaceChar([d], c, repl) == if d == c then repl else [d]
  {
    assert [d][1..] == [];
  }

  /**
   * The replacements after the one for `c` leave an entity alone: none of
   * the characters they replace occurs in it.
   */
  lemma LaterStepsKeep(e: string)
    requires '<' !in e && '>' !in e && '"' !in e && '\'' !in e
    ensures ReplaceChar(ReplaceChar(ReplaceChar(ReplaceChar(e, '<', "&lt;"), '>', "&gt;"), '"', "&quot;"), '\'', "&#39;") == e
  {
    ReplaceAbsent(e, '<', "&lt;");
    ReplaceAbsent(e, '>', "&gt;");
    ReplaceAbsent(e, '"', "&quot;");
    ReplaceAbsent(e, '\'', "&#39;");
  }

  /** An ampersand becomes `&amp;`, which the later replacements leave alone. */
  lemma ReplacementsOfAmpersand()
    ensures Replacements("&") == "&amp;"
  {
    ReplaceOne('&', '&', "&amp;");
    LaterStepsKeep("&amp;");
  }

  /** The last three replacements leave alone text without `>`, `"` or `'`. */
  lemma LastStepsKeep(e: string)
    requires '>' !in e && '"' !in e && '\'' !in e
    ensures ReplaceChar(ReplaceChar(ReplaceChar(e, '>', "&gt;"), '"', "&quot;"), '\'', "&#39;") == e
  {
    ReplaceAbsent(e, '>', "&gt;");
    ReplaceAbsent(e, '"', "&quot;");
    ReplaceAbsent(e, '\'', "&#39;");
  }

  /** `<` becomes `&lt;`. */
  lemma ReplacementsOfLess()
    ensures Replacements("<") == "&lt;"
  {
    ReplaceOne('<', '&', "&amp;");
    assert ReplaceChar("<", '&', "&amp;") == "<";
    ReplaceOne('<', '<', "&lt;");
    assert ReplaceChar("<", '<', "&lt;") == "&lt;";
    LastStepsKeep("&lt;");
  }

  /** `>` becomes `&gt;`. */
  lemma ReplacementsOfGreater()
    ensures Replacements(">") == "&gt;"
  {
    ReplaceOne('>', '&', "&amp;");
    assert ReplaceChar(">", '&', "&amp;") == ">";
    ReplaceOne('>', '<', "&lt;");
    assert ReplaceChar(">", '<', "&lt;") == ">";
    ReplaceOne('>', '>', "&gt;");
    assert ReplaceChar(">", '>', "&gt;") == "&gt;";
    ReplaceAbsent("&gt;", '"', "&quot;");
    ReplaceAbsent("&gt;", '\'', "&#39;");
  }

  /** `"` becomes `&quot;`. */
  lemma ReplacementsOfQuote()
    ensures Replacements("\"") == "&quot;"
  {
    ReplaceOne('"', '&', "&amp;");
    ReplaceOne('"', '<', "&lt;");
    ReplaceOne('"', '>', "&gt;");
    ReplaceOne('"', '"', "&quot;");
    ReplaceAbsent("&quot;", '\'', "&#39;");
  }

  /** `'` becomes `&#39;`. */
  lemma ReplacementsOfApostrophe()
    ensures Replacements("'") == "&#39;"
  {
    ReplaceOne('\'', '&', "&amp;");
    ReplaceOne('\'', '<', "&lt;");
    ReplaceOne('\'', '>', "&gt;");
    ReplaceOne('\'', '"', "&quot;");
    ReplaceOne('\'', '\'', "&#39;");
  }

  /** Any other character is copied. */
  lemma ReplacementsOfPlain(c: char)
    requires c != '&' && c != '<' && c != '>' && c != '"' && c != '\''
    ensures Replacements([c]) == [c]
  {
    ReplaceOne(c, '&', "&amp;");
    LaterStepsKeep([c]);
  }

  /** The five replacements turn one character into its entity. */
  lemma ReplacementsOfChar(c: char)
    ensures Replacements([c]) == EscapeChar(c)
  {
    if c == '&' {
      ReplacementsOfAmpersand();
    } else if c == '<' {
      ReplacementsOfLess();
    } else if c == '>' {
      ReplacementsOfGreater();
    } else if c == '"' {
      ReplacementsOfQuote();
    } else if c == '\'' {
      ReplacementsOfApostrophe();
    } else {
      ReplacementsOfPlain(c);
    }
  }

  /** The replacements distribute over concatenation. */
  lemma ReplacementsAppend(s: string, t: string)
    ensures Replacements(s + t) == Replacements(s) + Replacements(t)
  {
    ReplaceCharAppend(s, t, '&', "&amp;");
    var a1, b1 := ReplaceChar(s, '&', "&amp;"), ReplaceChar(t, '&', "&amp;");
    ReplaceCharAppend(a1, b1, '<', "&lt;");
    var a2, b2 := ReplaceChar(a1, '<', "&lt;"), ReplaceChar(b1, '<', "&lt;");
    ReplaceCharAppend(a2, b2, '>', "&gt;");
    var a3, b3 := ReplaceChar(a2, '>', "&gt;"), ReplaceChar(b2, '>', "&gt;");
    ReplaceCharAppend(a3, b3, '"', "&quot;");
    var a4, b4 := ReplaceChar(a3, '"', "&quot;"), ReplaceChar(b3, '"', "&quot;");
    ReplaceCharAppend(a4, b4, '\'', "&#39;");
  }

  /**
   * The chained replacements escape each character exactly once: an `&`
   * becomes `&amp;` and the entities that later replacements introduce are
   * not escaped again.
   */
  lemma {:induction false} ReplacementsEscapeEach(s: string)
    ensures Replacements(s) == EscapeEach(s)
  {
    if s != [] {
      assert s == [s[0]] + s[1..];
      ReplacementsAppend([s[0]], s[1..]);
      ReplacementsOfChar(s[0]);
      ReplacementsEscapeEach(s[1..]);
    }
  }

  /** `p` is a prefix of `s`. */
  predicate HasPrefix(s: string, p: string) {
    |p| <= |s| && s[..|p|] == p
  }

  /** Entities read back as the characters they stand for; anything else is copied. */
  function Unescape(s: string): (r: string)
    decreases |s|
  {
    if s == [] then []
    else if HasPrefix(s, "&amp;") then ['&'] + Unescape(s[5..])
    else if HasPrefix(s, "&lt;") then ['<'] + Unescape(s[4..])
    else if HasPrefix(s, "&gt;") then ['>'] + Unescape(s[4..])
    else if HasPrefix(s, "&quot;") then ['"'] + Unescape(s[6..])
    else if HasPrefix(s, "&#39;") then ['\''] + Unescape(s[5..])
    else [s[0]] + Unescape(s[1..])
  }

  /** A character that is not escaped is copied back. */
  lemma UnescapePlain(c: char, rest: string)
    requires c != '&'
    ensures Unescape([c] + rest) == [c] + Unescape(rest)
  {
    var s := [c] + rest;
    assert s[0] == c && s[1..] == rest;
  }

  /** An entity of five characters is read back as its character. */
  lemma UnescapeEntity(e: string, c: char, rest: string)
    requires e == EscapeChar(c) && e != [c]
    ensures Unescape(e + rest) == [c] + Unescape(rest)
  {
    var s := e + rest;
    assert s[..|e|] == e && s[|e|..] == rest;
    assert s[1] == e[1];
    if c == '<' || c == '>' {
      assert s[2] == 't';
    }
  }

  /** One escaped character, read back. */
  lemma UnescapeChar(c: char, rest: string)
    ensures Unescape(EscapeChar(c) + rest) == [c] + Unescape(rest)
  {
    if EscapeChar(c) == [c] {
      UnescapePlain(c, rest);
    } else {
      UnescapeEntity(EscapeChar(c), c, rest);
    }
  }

  /** Escaping loses nothing: the escaped text reads back as the original. */
  lemma {:induction false} UnescapeEscapeEach(s: string)
    ensures Unescape(EscapeEach(s)) == s
  {
    if s != [] {
      UnescapeChar(s[0], EscapeEach(s[1..]));
      UnescapeEscapeEach(s[1..]);
    }
  }

  /** Non-empty text escaped for a cell reads back as itself. */
  lemma EscapeHtmlRoundTrip(text: string)
    requires text != []
    ensures Unescape(EscapeHtml(text)) == text
  {
    UnescapeEscapeEach(text);
  }

  /** Text with nothing to escape is shown as it is. */
  lemma {:induction false} EscapePlain(s: string)
    requires forall k :: 0 <= k < |s| ==> EscapeChar(s[k]) == [s[k]]
    ensures EscapeEach(s) == s
  {
    if s != [] {
      assert EscapeChar(s[0]) == [s[0]];
      EscapePlain(s[1..]);
      assert [s[0]] + s[1..] == s;
    }
  }

  // ---------------------------------------------------------------------
  // Conditions as displayed
  // ---------------------------------------------------------------------

  /** The operator's symbol, which is the character the parser reads as that operator. */
  function OperatorSymbol(op: ComparisonOperator): (r: string)
    ensures |r| == 1 && OperatorOf(r[0]) == Some(op)
  {
    match op
    case Equals => "="
    case LessThan => "<"
    case GreaterThan => ">"
  }

  /** A numeric value shown bare, a text value in single quotes; neither is escaped. */
  function ValueDisplay(c: QueryCondition, nf: NumberFormat): string {
    if c.isNumeric then LiteralText(c.value, nf) else "'" + LiteralText(c.value, nf) + "'"
  }

  /** A condition's list item: field, operator and value separated by single spaces. */
  function ConditionText(c: QueryCondition, nf: NumberFormat): string {
    c.fieldName + " " + OperatorSymbol(c.op) + " " + ValueDisplay(c, nf)
  }

  /** A text condition as displayed parses back to the same condition. */
  lemma TextConditionDisplayParses(c: QueryCondition, nf: NumberFormat)
    requires IsFieldName(c.fieldName) && !c.isNumeric && c.value.Text?
    requires c.value.s != [] && '\'' !in c.value.s
    ensures ParseCondition(ConditionText(c, nf), nf) == Some(c)
  {
    var sym := OperatorSymbol(c.op);
    assert sym == [sym[0]];
    assert ConditionText(c, nf) == c.fieldName + " " + [sym[0]] + " " + ("'" + c.value.s + "'" + []);
    QuotedConditionParses(c.fieldName, " ", sym[0], " ", c.value.s, [], nf);
  }

  /**
   * A numeric condition as displayed parses back to the same condition
   * when the number's text is made of number characters and reads back as
   * the number.
   */
  lemma NumberConditionDisplayParses(c: QueryCondition, nf: NumberFormat)
    requires IsFieldName(c.fieldName) && c.isNumeric && c.value.Number?
    requires var digits := nf.formatReal(c.value.n);
      && digits != [] && (forall k :: 0 <= k < |digits| ==> IsNumberChar(digits[k]))
      && nf.tryParse(digits) == Some(c.value.n)
    ensures ParseCondition(ConditionText(c, nf), nf) == Some(c)
  {
    var sym := OperatorSymbol(c.op);
    var digits := nf.formatReal(c.value.n);
    assert sym == [sym[0]];
    assert ConditionText(c, nf) == c.fieldName + " " + [sym[0]] + " " + (digits + []);
    BareConditionParses(c.fieldName, " ", sym[0], " ", digits, [], nf);
  }

  // ---------------------------------------------------------------------
  // The page
  // ---------------------------------------------------------------------

  /** One table row: its number and the nine cells after it. */
  datatype Row = Row(number: int, cells: seq<string>)

  /** The variable sections of the page, in page order. */
  datatype Section =
    | Status(success: bool)
    | ConditionList(items: seq<string>)
    | ErrorParagraph(message: string)
    | Counts(total: int, matching: int)
    | Table(rows: seq<Row>)
    | NoMatches

  const NameField := 4
  const ImoField := 58
  const TypeField := 2
  const BuilderGroupField := 56
  const YearField := 10
  const FlagField := 9
  const DwtField := 7
  const StatusField := 59
  const OwnerField := 22

  /** A property as interpolated text; an absent (null) value interpolates as nothing. */
  function Shown(v: Vessel, i: nat, nf: NumberFormat): string {
    match Get(v, i)
    case None => ""
    case Some(pv) => AsText(pv, nf)
  }

  /** The tonnage in the grouped whole-number format. */
  function ShownGrouped(v: Vessel, i: nat, nf: NumberFormat): string {
    match Get(v, i)
    case Some(DoubleValue(d)) => nf.formatGrouped(d)
    case None => ""
    case Some(pv) => AsText(pv, nf)
  }

  /** The row numbered `number` for a vessel: text cells escaped, number cells not. */
  function RowOf(number: int, v: Vessel, nf: NumberFormat): Row {
    Row(number, [
      EscapeHtml(Shown(v, NameField, nf)),
      Shown(v, ImoField, nf),
      EscapeHtml(Shown(v, TypeField, nf)),
      EscapeHtml(Shown(v, BuilderGroupField, nf)),
      Shown(v, YearField, nf),
      EscapeHtml(Shown(v, FlagField, nf)),
      ShownGrouped(v, DwtField, nf),
      Shown(v, StatusField, nf),
      EscapeHtml(Shown(v, OwnerField, nf))])
  }

  /** The list items of the conditions, in order. */
  function ConditionItems(conds: seq<QueryCondition>, nf: NumberFormat): (r: seq<string>)
    ensures |r| == |conds| && forall k :: 0 <= k < |conds| ==> r[k] == ConditionText(conds[k], nf)
  {
    seq(|conds|, k requires 0 <= k < |conds| => ConditionText(conds[k], nf))
  }

  /** The table rows of the results, numbered from 1. */
  function Rows(rs: seq<Vessel>, nf: NumberFormat): (r: seq<Row>)
    ensures |r| == |rs| && forall k :: 0 <= k < |rs| ==> r[k] == RowOf(k + 1, rs[k], nf)
  {
    seq(|rs|, k requires 0 <= k < |rs| => RowOf(k + 1, rs[k], nf))
  }

  /** The error paragraph replaces the counts when the query failed with a message. */
  predicate ShowsError(result: QueryResult) {
    !result.success && result.errorMessage.Some? && result.errorMessage.value != []
  }

  /** The sections of the page for a result, as a specification of `GenerateHtml`. */
  function Page(result: QueryResult, nf: NumberFormat): seq<Section> {
    Head(result, nf) + ResultsPart(result, nf)
  }

  /** The query-information part: status, conditions, then the error or the counts. */
  function Head(result: QueryResult, nf: NumberFormat): seq<Section> {
    var conds := result.query.conditions;
    [Status(result.success)]
    + (if conds != [] then [ConditionList(ConditionItems(conds, nf))] else [])
    + [MessagePart(result)]
  }

  /** The error paragraph for a failure with a message, the counts otherwise. */
  function MessagePart(result: QueryResult): Section {
    if ShowsError(result) then ErrorParagraph(result.errorMessage.value)
    else Counts(result.totalRecords, result.matchingRecords)
  }

  /** The results part: the table, the no-match notice, or nothing on failure. */
  function ResultsPart(result: QueryResult, nf: NumberFormat): seq<Section> {
    if result.success && result.results != [] then [Table(Rows(result.results, nf))]
    else if result.success then [NoMatches]
    else []
  }

  /**
   * `GenerateHtml`: the status, the conditions one item each, the error or
   * the counts, then the table with rows numbered from 1 in result order,
   * or the no-match notice.
   */
  method GenerateHtml(result: QueryResult, nf: NumberFormat) returns (page: seq<Section>)
    ensures page == Page(result, nf)
  {
    page := [Status(result.success)];
    var conds := result.query.conditions;
    if conds != [] {
      var items: seq<string> := [];
      for i := 0 to |conds|
        invariant |items| == i && forall k :: 0 <= k < i ==> items[k] == ConditionText(conds[k], nf)
      {
        items := items + [ConditionText(conds[i], nf)];
      }
      assert items == ConditionItems(conds, nf);
      page := page + [ConditionList(items)];
    }
    if !result.success && result.errorMessage.Some? && result.errorMessage.value != [] {
      page := page + [ErrorParagraph(result.errorMessage.value)];
    } else {
      page := page + [Counts(result.totalRecords, result.matchingRecords)];
    }
    assert page == Head(result, nf);
    var rs := result.results;
    if result.success && rs != [] {
      var rows: seq<Row> := [];
      var index := 1;
      for i := 0 to |rs|
        invariant index == i + 1
        invariant |rows| == i && forall k :: 0 <= k < i ==> rows[k] == RowOf(k + 1, rs[k], nf)
      {
        rows := rows + [RowOf(index, rs[i], nf)];
        index := index + 1;
      }
      assert rows == Rows(rs, nf);
      page := page + [Table(rows)];
    } else if result.success {
      page := page + [NoMatches];
    }
  }

  /** The page has a table. */
  predicate HasTable(page: seq<Section>) {
    exists k :: 0 <= k < |page| && page[k].Table?
  }

  /** The page has the no-match notice. */
  predicate HasNoMatches(page: seq<Section>) {
    exists k :: 0 <= k < |page| && page[k].NoMatches?
  }

  /** The page has the error paragraph. */
  predicate HasError(page: seq<Section>) {
    exists k :: 0 <= k < |page| && page[k].ErrorParagraph?
  }

  /** The head holds no table and no notice, and its error paragraph is its last section. */
  lemma HeadSections(result: QueryResult, nf: NumberFormat)
    ensures var h := Head(result, nf);
      && h[0] == Status(result.success) && h[|h| - 1] == MessagePart(result)
      && forall k :: 0 <= k < |h| ==> !h[k].Table? && !h[k].NoMatches? && (h[k].ErrorParagraph? ==> k == |h| - 1)
  {
  }

  /**
   * The results part of the page: the table exactly for a success with
   * results, its rows numbered 1 to n in result order; the notice exactly
   * for a success without; neither on failure.
   */
  lemma PageResults(result: QueryResult, nf: NumberFormat)
    ensures var page := Page(result, nf);
      && (HasTable(page) <==> result.success && result.results != [])
      && (HasNoMatches(page) <==> result.success && result.results == [])
      && (result.success && result.results != [] ==>
            var rows := page[|page| - 1].rows;
            && page[|page| - 1].Table?
            && |rows| == |result.results|
            && forall k :: 0 <= k < |rows| ==> rows[k].number == k + 1 && rows[k] == RowOf(k + 1, result.results[k], nf))
  {
    var page := Page(result, nf);
    var h, d := Head(result, nf), ResultsPart(result, nf);
    HeadSections(result, nf);
    if HasTable(page) {
      var k :| 0 <= k < |page| && page[k].Table?;
      assert k >= |h|;
    }
    if HasNoMatches(page) {
      var k :| 0 <= k < |page| && page[k].NoMatches?;
      assert k >= |h|;
    }
    if d != [] {
      assert page[|page| - 1] == d[0];
    }
  }

  /**
   * The status comes first; the error paragraph appears exactly for a
   * failure with a non-empty message, and the counts otherwise.
   */
  lemma PageMessage(result: QueryResult, nf: NumberFormat)
    ensures var page := Page(result, nf);
      && page[0] == Status(result.success)
      && (HasError(page) <==> ShowsError(result))
      && (!ShowsError(result) ==> Counts(result.totalRecords, result.matchingRecords) in page)
  {
    var page := Page(result, nf);
    var h := Head(result, nf);
    HeadSections(result, nf);
    assert page[|h| - 1] == MessagePart(result);
    if HasError(page) {
      var k :| 0 <= k < |page| && page[k].ErrorParagraph?;
      assert k < |h|;
    }
  }

  /** Text cells never carry markup, whatever the vessel holds. */
  lemma RowCellsEscaped(number: int, v: Vessel, nf: NumberFormat)
    ensures var cells := RowOf(number, v, nf).cells;
      NoMarkup(cells[0]) && NoMarkup(cells[2]) && NoMarkup(cells[3]) && NoMarkup(cells[5]) && NoMarkup(cells[8])
  {
    EscapeHtmlNoMarkup(Shown(v, NameField, nf));
    EscapeHtmlNoMarkup(Shown(v, TypeField, nf));
    EscapeHtmlNoMarkup(Shown(v, BuilderGroupField, nf));
    EscapeHtmlNoMarkup(Shown(v, FlagField, nf));
    EscapeHtmlNoMarkup(Shown(v, OwnerField, nf));
  }
}
