# Vessel query engine: a verified model

The Vessel Query Engine loads a list of vessel records and filters it with a
small query language. A query has the form
`WHERE <field> <op> <value> [AND ...]`: the operator is `=`, `<` or `>`, and the
value is a quoted text or a bare number. The conditions are ANDed together.
The HTML exporter renders the outcome as a results page.

The model covers the following:

- **Parser** (`Parser`, with the worked examples in `ParserFacts`). The three
  regular expressions are written as hand-made recognisers:
  - the `WHERE` line;
  - the case-insensitive ` AND ` separator with its surrounding whitespace;
  - one condition, found anywhere in its piece, as `Regex.Match` finds it.

  `Parse` is a method that loops over the pieces, proved equal to the
  functional specification `ParseQuery`.
- **Engine** (`Engine`). `QueryEngine` is a class with two readonly fields:
  - the vessel list;
  - the property catalog, keyed by the upper-cased property name and
    compared ignoring case.

  `Execute` is proved equal to the specification `Outcome`. Condition
  evaluation models the numeric and text branches, the `null` rule, the
  `0.0001` tolerance on numeric equality, and the exception that
  `Convert.ToDouble` throws on a non-numeric value. That exception is caught
  as `Query execution error: ...`.
- **Records** (`Schema`, `Conditions`). The 63 nullable properties of
  `Vessel` are kept in declaration order. A record is a map from property
  position to a present value, so a missing key is `null`. The module also
  holds the condition, operator and parsed-query types.
- **Loader** (`Loader`). `ExtractJsonArray` is modelled as a chain of pure
  steps:
  - strip block comments;
  - strip line comments;
  - drop a leading `var name = ` assignment;
  - trim;
  - best-effort repair of an array that is not closed.
- **Exporter** (`Html`). The model covers:
  - `EscapeHtml`, with the five chained replacements proved equal to escaping
    each character in one pass, and with an inverse;
  - the display of a condition, which is proved to parse back to the same
    condition when its field is a run of word characters and its value is
    either a non-empty text without a quote or a number that the culture
    prints as number characters and parses back to the same number;
  - `GenerateHtml`, as the method that chooses which sections a page holds.

Culture-dependent number conversion (`double.TryParse`, `Convert.ToDouble`,
`ToString`, `N0`) is not interpreted. It is a parameter of type
`Numbers.NumberFormat`, and the properties are proved for every value of it.
Where a property needs something of the culture, the lemma says so in its
precondition; `NumberConditionDisplayParses`, for instance, needs the
culture to print the number as number characters that parse back to it.

## Model

| member | source | states |
|---|---|---|
| Schema.ExampleFieldTypes | Models/Vessel.cs:31-41 | the year built is an `int?`, the deadweight a `double?`, the flag a `string?`; the status code (line 187-188) and the builder group (line 178-179) are `int?` and `string?` |
| Schema.JsonNamesAreNames | Models/Vessel.cs:10-197 | every property's JSON name equals its C# name |
| Schema.KeysDistinct | Models/Vessel.cs:10-197 | two different properties never have the same upper-cased key, so no two names are equal ignoring case |
| Schema.KeyFingerprint | Models/Vessel.cs:10-197 | each property's upper-cased key identifies it uniquely (the fact behind `KeysDistinct`) |
| Schema.FieldAt | Models/Vessel.cs:10-197 | the 63 properties in declaration order, each with its name, JSON name and type; `ExampleFieldTypes` and `JsonNamesAreNames` state facts about it |
| Schema.Key | Core/QueryEngine.cs:22 | a property's catalog key, its name upper-cased; `KeysDistinct` shows no two are equal |
| Text.Upper | Core/QueryEngine.cs:22 | `ToUpperInvariant` keeps the length and upper-cases each character |
| Text.UpperIdempotent | Core/QueryEngine.cs:50 | upper-casing twice is upper-casing once |
| Text.Trim | Core/QueryParser.cs:40 | `Trim` yields a trimmed text, no longer than the input, that is empty exactly when the input is all whitespace |
| Text.TrimKeepsMiddle | Core/QueryParser.cs:40 | `Trim` keeps one contiguous stretch of the text; everything removed before and after it is whitespace |
| Text.TrimStart | Core/QueryParser.cs:40 | the removed prefix is all whitespace and the rest does not start with whitespace |
| Text.TrimEnd | Core/DataLoader.cs:68-70 | the removed suffix is all whitespace and the rest does not end with whitespace |
| Text.TrimUnchanged | Core/QueryParser.cs:48 | trimming an already trimmed text changes nothing |
| Text.CompareOrdinal | Core/QueryEngine.cs:127-128 | ordinal comparison returns -1, 0 or 1, and returns 0 exactly on equal texts |
| Text.CompareOrdinalAntisymmetric | Core/QueryEngine.cs:127-128 | swapping the operands negates the ordinal comparison |
| Text.CompareIgnoreCase | Core/QueryEngine.cs:126-128 | `OrdinalIgnoreCase` comparison returns 0 exactly when the texts are equal ignoring case |
| Text.ReplaceCharAppend | Output/HtmlExporter.cs:277-282 | replacing a character distributes over concatenation |
| Text.IndexOf | Core/DataLoader.cs:53 | the first occurrence of a character at or after a position, or none |
| Text.LastIndexOf | Core/DataLoader.cs:84 | `LastIndexOf` returns -1 or the position of the last occurrence |
| Text.RunEnd | Core/QueryParser.cs:18 | the end of a run of one character class (`\s*`, `[\w_]+`, `[\d.\-]+`): every character before it is in the class and the one at it is not |
| Text.RunEndAt | Core/QueryParser.cs:18 | a run that ends at `j` is found to end at `j` |
| Text.Join | Core/QueryEngine.cs:53 | joining no strings gives the empty text, and joining one string gives that string |
| Text.JoinAppend | Core/QueryEngine.cs:53 | joining one more string appends the separator and that string |
| Parser.WhereBody | Core/QueryParser.cs:13-15 | a match of `^\s*WHERE\s+(.+)\s*$` on a trimmed line: the keyword in any case, whitespace, then a trimmed group with no line break |
| Parser.FindSeparator | Core/QueryParser.cs:21-23 | the leftmost ` AND ` separator (any case, whitespace on both sides) at or after a position |
| Parser.SeparatorAt | Core/QueryParser.cs:21-23 | a match of `\s+AND\s+` (`AND` in any case) that starts at a position ends after it and within the text |
| Parser.SplitAnd | Core/QueryParser.cs:51 | splitting the whole group yields at least one piece |
| Parser.SplitFrom | Core/QueryParser.cs:51 | `Regex.Split` from a position yields at least one piece; that the pieces and separators rebuild the text is `ParserFacts.SplitFromRebuilds` |
| Parser.FindCondition | Core/QueryParser.cs:17-19 | the position it returns lies at or after the start, and the condition pattern matches there; that it is the leftmost such position is `ParserFacts.FindConditionLeftmost` |
| Parser.OperatorOf | Core/QueryParser.cs:91-97 | exactly `=`, `<` and `>` are read as operators |
| Parser.ValueAt | Core/QueryParser.cs:18 | the value alternative at a position: a quoted text up to the next quote, or the run of number characters there; its shape is `ParserFacts.ValueAtShape` |
| Parser.ConditionAt | Core/QueryParser.cs:18 | a match of the condition pattern that starts at a position: the word run, the operator after optional whitespace, and the value after optional whitespace; its field is `ParserFacts.ConditionAtField` |
| Parser.ConditionOf | Core/QueryParser.cs:85-123 | a raw match becomes a condition with the matched field and operator; it is numeric exactly when its value is a number |
| Parser.ParseCondition | Core/QueryParser.cs:77-126 | every condition returned by `ParseCondition` is well tagged |
| Parser.ConditionAtHead | Core/QueryParser.cs:18 | a field, optional space, an operator and optional space match as a condition whenever a value follows |
| Parser.ParseWithHead | Core/QueryParser.cs:79-125 | a condition at the start of the text is the one parsed |
| Parser.QuotedConditionParses | Core/QueryParser.cs:100-105 | `field op 'text'` parses to a text condition carrying exactly `text`, whatever follows the closing quote |
| Parser.BareConditionParses | Core/QueryParser.cs:106-119 | `field op digits` parses to a numeric condition when the culture parses the digits, and to no condition otherwise |
| Parser.TakeParsed | Core/QueryParser.cs:53-63 | the conditions added before the first piece that fails, and whether every piece parsed |
| Parser.TakeParsedPrefix | Core/QueryParser.cs:53-63 | each condition added is the parse of the piece at its position |
| Parser.TakeParsedFirstNone | Core/QueryParser.cs:56-60 | the loop stops at the first failing piece, having added every condition before it |
| Parser.AssembleShape | Core/QueryParser.cs:53-71 | after the loop the query is valid exactly when there is no message, exactly when there was a piece and every piece parsed; it never says "No valid conditions" |
| Parser.ParsedFromPartsShape | Core/QueryParser.cs:53-71 | the same facts, stated for the pieces themselves |
| Parser.AllPiecesParse | Core/QueryParser.cs:53-71 | when every piece parses, the query is valid with those conditions in order |
| Parser.FirstFailureWins | Core/QueryParser.cs:55-60 | the first piece that fails decides the message and keeps the conditions before it |
| Parser.InvalidMessageIsNotNoConditions | Core/QueryParser.cs:59 | the invalid-condition message differs from the no-conditions message |
| Parser.InvalidConditionMessage | Core/QueryParser.cs:59 | the message that quotes the trimmed failing piece; it differs from the no-conditions message (`InvalidMessageIsNotNoConditions`) |
| Parser.WherePieces | Core/QueryParser.cs:40-51 | a line that matches the `WHERE` pattern yields at least one piece |
| Parser.ParseQueryShape | Core/QueryParser.cs:28-72 | a blank query is rejected as empty; a line without `WHERE` is rejected with the example message; valid means no message and at least one condition; every condition is well tagged; the "No valid conditions" branch (lines 65-69) is never reached |
| Parser.ParseQuery | Core/QueryParser.cs:28-72 | the specification of `Parse`: a blank query, then a query without `WHERE`, is rejected with its message; otherwise the pieces of the trimmed group are parsed in order, as `ParseQueryShape` states |
| Parser.Parse | Core/QueryParser.cs:28-72 | the loop computes `ParseQuery`, with the facts of `ParseQueryShape` |
| Parser.ParseParts | Core/QueryParser.cs:53-63 | the loop over the pieces computes `ParsedFromParts` |
| ParserFacts.WhereRoundTrip | Core/QueryParser.cs:13-15 | `WHERE`, whitespace and a trimmed one-line body give back that body as the group |
| ParserFacts.WhereLinePieces | Core/QueryParser.cs:40-51 | such a query is split at ` AND ` in its body |
| ParserFacts.FindSeparatorLeftmost | Core/QueryParser.cs:21-23 | no separator lies before the one found |
| ParserFacts.FindSeparatorNone | Core/QueryParser.cs:21-23 | when none is found, there is none |
| ParserFacts.Separators | Core/QueryParser.cs:21-23 | the separator matches `Split` cuts at: each span is a match of the separator pattern in the text, and the spans follow one another without overlap |
| ParserFacts.SplitFromRebuilds | Core/QueryParser.cs:51 | there is one piece more than separators, and the pieces with each separator's text put back between them rebuild the text |
| ParserFacts.SplitAndRebuilds | Core/QueryParser.cs:51 | the same fact for the whole group |
| ParserFacts.SplitFromPiecesClean | Core/QueryParser.cs:51 | no piece that `Split` returns contains a separator |
| ParserFacts.PiecesHaveNoSeparator | Core/QueryParser.cs:51 | the same fact, for the whole body |
| ParserFacts.SinglePieceIffNoSeparator | Core/QueryParser.cs:51 | the body is one piece exactly when it has no separator |
| ParserFacts.TrailingTextIgnored | Core/QueryParser.cs:18 | `X = 5abc` parses as `X = 5`, because the pattern is not anchored at the end |
| ParserFacts.ValueAtShape | Core/QueryParser.cs:18 | a quoted value holds no quote; a bare value is a non-empty run of number characters |
| ParserFacts.ConditionAtField | Core/QueryParser.cs:18 | the field of a match is a non-empty run of word characters |
| ParserFacts.FindConditionSkips | Core/QueryParser.cs:79 | no match starts at any position the search passes over |
| ParserFacts.FindConditionLeftmost | Core/QueryParser.cs:79 | `Regex.Match` returns the leftmost match: none starts before the one found |
| ParserFacts.FindConditionNone | Core/QueryParser.cs:79-83 | when the search finds nothing, the pattern matches at no position |
| ParserFacts.EmptyLiteralRejected | Core/QueryParser.cs:100-123 | `FLAG = ''` is rejected: an empty quoted value is neither text nor a number |
| ParserFacts.QuotedAndSplits | Core/QueryParser.cs:51 | ` AND ` inside quotes still splits the condition |
| ParserFacts.UnclosedQuoteRejected | Core/QueryParser.cs:79-83 | the piece before that split, with its unclosed quote, does not parse |
| ParserFacts.QuotedAndRejected | Core/QueryParser.cs:53-60 | a query with ` AND ` inside a quoted value is rejected, naming the first piece |
| ParserFacts.QueryFromPieces | Core/QueryParser.cs:32-63 | a non-blank query that matches `WHERE` is parsed piece by piece |
| ParserFacts.TwoPiecesParse | Core/QueryParser.cs:53-63 | two pieces that parse give a valid query with both conditions in order |
| ParserFacts.FirstPieceFails | Core/QueryParser.cs:55-60 | a failing first piece rejects the query with no conditions, naming that piece |
| ParserFacts.ExampleQueryParses | Core/QueryParser.cs:28-72 | `WHERE A12_YEAR_BUILT > 2010 AND FLAG = 'Singapore'` parses to a numeric `>` condition and a text `=` condition |
| Engine.CatalogGrows | Core/QueryEngine.cs:19-24 | adding the next property's key never collides with a key already present |
| Engine.QueryEngine.constructor | Core/QueryEngine.cs:14-25 | the catalog maps each property's upper-cased name to that property and lists the keys in declaration order |
| Engine.KeyUnique | Core/QueryEngine.cs:19-24 | no two catalog keys are equal, so `ToDictionary` does not throw |
| Engine.KeyMatches | Core/QueryEngine.cs:50 | a name equals a property's name ignoring case exactly when its upper-cased form is that property's key |
| Engine.KeysUpper | Core/QueryEngine.cs:22 | every catalog key is already upper case |
| Engine.UnknownFieldMessage | Core/QueryEngine.cs:53 | the message naming the field as written and listing the first ten catalog keys, joined by `, ` and followed by `...`; `OutcomeUnknownField` states when it is given |
| Engine.QueryEngine.Lookup | Core/QueryEngine.cs:50 | a found name gives a property of the table |
| Engine.QueryEngine.LookupIgnoresCase | Core/QueryEngine.cs:50 | the lookup finds the one property whose name equals the given name ignoring case, and finds nothing when no property matches |
| Engine.QueryEngine.ComparerAgrees | Core/QueryEngine.cs:24 | looking up the upper-cased name directly agrees with the dictionary's ignore-case comparer |
| Engine.QueryEngine.AvailableFields | Core/QueryEngine.cs:142 | the 63 upper-cased property names in declaration order; each is found by the lookup |
| Engine.QueryEngine.FirstUnknown | Core/QueryEngine.cs:48-56 | the first condition whose field is not in the catalog, or none exactly when every field is known |
| Engine.QueryEngine.FirstUnknownAt | Core/QueryEngine.cs:48-56 | the validation loop stops at the first unknown field |
| Engine.CompareNumbers | Core/QueryEngine.cs:110-116 | numeric `=` holds exactly when the difference is strictly within 0.0001 |
| Engine.NumberComparisons | Core/QueryEngine.cs:110-116 | a number equals itself and is not below or above it; `=` is symmetric; `<` mirrors `>`; 1.0 and 1.00005 are both equal and less-than |
| Engine.CompareTexts | Core/QueryEngine.cs:124-130 | text `=` is equality ignoring case, and text `<` and `>` follow the sign of the ignore-case ordinal comparison; `TextOrderMirrors`, `TextTrichotomy` and `TextIgnoresCase` state its properties |
| Engine.AsNumber | Core/QueryEngine.cs:94-106 | a `double`, `int` or `long` property always converts; a string property converts exactly when the culture parses it |
| Engine.AsText | Core/QueryEngine.cs:121 | `ToString()` of a property value, in the culture's format for numbers |
| Engine.LiteralText | Core/QueryEngine.cs:122 | `ToString()` of a condition value, in the culture's format for numbers |
| Engine.TextOrderMirrors | Core/QueryEngine.cs:124-130 | text `<` mirrors text `>`, and text `=` is symmetric |
| Engine.TextTrichotomy | Core/QueryEngine.cs:124-130 | exactly one of text `=`, `<`, `>` holds |
| Engine.TextIgnoresCase | Core/QueryEngine.cs:126-128 | upper-casing either operand never changes a text comparison |
| Engine.QueryEngine.Evaluate | Core/QueryEngine.cs:80-132 | a null property never matches; a text property that does not parse as a number fails a numeric condition; the only exception is a numeric condition holding text that does not parse |
| Engine.QueryEngine.WellTaggedNeverThrows | Core/QueryEngine.cs:92-116 | a condition whose numeric flag agrees with its value never throws |
| Engine.QueryEngine.EvaluateIgnoresLiteralCase | Core/QueryEngine.cs:118-130 | a text condition's verdict does not depend on the case of its value |
| Engine.QueryEngine.AllHold | Core/QueryEngine.cs:60 | `All` over the conditions in order, stopping at the first that fails or throws; `AllHoldIsConjunction` states it is the conjunction |
| Engine.QueryEngine.Matches | Core/QueryEngine.cs:59-60 | a record is kept when every condition holds for it |
| Engine.QueryEngine.SelectFrom | Core/QueryEngine.cs:59-61 | `Where(...).ToList()`: the records kept in order, or the first exception; `SelectKeepsMatches` states which records |
| Engine.QueryEngine.AllHoldIsConjunction | Core/QueryEngine.cs:60 | for well-tagged conditions, `All` is the conjunction of the single verdicts |
| Engine.QueryEngine.SameConditionsSameVerdict | Core/QueryEngine.cs:60 | two lists with the same conditions give the same verdict on a record |
| Engine.QueryEngine.WellTaggedSelects | Core/QueryEngine.cs:59-61 | the filter never faults on well-tagged conditions |
| Engine.QueryEngine.MatchPositionsIncrease | Core/QueryEngine.cs:59-61 | the kept positions are in range and strictly increasing |
| Engine.QueryEngine.MatchPositionAt | Core/QueryEngine.cs:59-61 | one position is kept exactly when its record satisfies every condition |
| Engine.QueryEngine.MatchPositionsExact | Core/QueryEngine.cs:59-61 | a position is kept exactly when its record satisfies every condition |
| Engine.QueryEngine.SelectKeepsMatches | Core/QueryEngine.cs:59-61 | `Where` returns the records at the kept positions, in their original order |
| Engine.QueryEngine.SelectIgnoresConditionOrder | Core/QueryEngine.cs:59-61 | reordering or repeating well-tagged conditions does not change the records kept |
| Engine.QueryEngine.OutcomeUnknownField | Core/QueryEngine.cs:48-56 | the first unknown field fails the query with a message naming it and the first ten keys, with no results and zero counts |
| Engine.QueryEngine.OutcomeKeepsMatches | Core/QueryEngine.cs:58-66 | a successful result holds exactly the matching records in original order; the matching count is their number and the total count is the list's length (`GetTotalCount`, line 137) |
| Engine.QueryEngine.OutcomeIgnoresConditionOrder | Core/QueryEngine.cs:58-66 | two valid, well-tagged queries with the same conditions succeed with the same results |
| Engine.QueryEngine.Outcome | Core/QueryEngine.cs:30-75 | the specification of `Execute`, whose facts are `OutcomeUnknownField`, `OutcomeKeepsMatches`, `OutcomeIgnoresConditionOrder` and the `ensures` of `Execute` |
| Engine.QueryEngine.Execute | Core/QueryEngine.cs:30-75 | `Execute` computes `Outcome`: an invalid query passes its message through; a failure has no results and zero counts; success has no message, counts every record and counts the results |
| Pipeline.ParsedQueryNeverFaults | Core/QueryEngine.cs:38-72 | a query from the parser succeeds exactly when it parsed and names only known fields; the `catch` branch is never reached |
| Pipeline.LookupByName | Core/QueryEngine.cs:50 | a property is found by its own name |
| Pipeline.SpeedIsUnknown | Core/QueryEngine.cs:50 | `speed` is not a property, in any case |
| Pipeline.SpeedQueryRejected | Core/QueryEngine.cs:48-55 | a query on `speed` is rejected naming `speed` |
| Pipeline.ExampleVerdicts | Core/QueryEngine.cs:80-132 | a 2015 Singapore-flagged ship satisfies `A12_YEAR_BUILT > 2010 AND FLAG = 'Singapore'` and a 2005 one does not |
| Pipeline.FirstOfTwoKept | Core/QueryEngine.cs:58-66 | over two records where only the first matches, the result keeps it: two examined, one returned |
| Pipeline.ExampleQueryAnswered | Core/QueryEngine.cs:30-75 | that query, parsed and run over the two ships, returns the recent one: two examined, one matching |
| Loader.PairFrom | Core/DataLoader.cs:52-53 | the first position of a two-character marker at or after a position, or none |
| Loader.StripBlockComments | Core/DataLoader.cs:52 | removing block comments never lengthens the text |
| Loader.BlockCommentRemoved | Core/DataLoader.cs:52 | a closed block comment is removed, up to the first closing marker |
| Loader.UnclosedCommentKept | Core/DataLoader.cs:52 | an unclosed block comment is left as it is |
| Loader.BlockFreeUnchanged | Core/DataLoader.cs:52 | a text without comment openers is unchanged |
| Loader.BlockSkipsText | Core/DataLoader.cs:52 | text before the first opener is kept verbatim |
| Loader.UnclosedUnchanged | Core/DataLoader.cs:52 | with no closing marker after an opener, nothing is removed |
| Loader.LineEnd | Core/DataLoader.cs:53 | a line comment runs up to the next line break or the end of the text |
| Loader.StripLineComments | Core/DataLoader.cs:53 | removing line comments never lengthens the text |
| Loader.LineCommentRemoved | Core/DataLoader.cs:53 | `//` and the rest of its line are removed, and the line break stays |
| Loader.LineCommentDropped | Core/DataLoader.cs:53 | a text that opens with a line comment loses it |
| Loader.NoLineCommentLeft | Core/DataLoader.cs:53 | no `//` is left in the result |
| Loader.LineBreaksKept | Core/DataLoader.cs:53 | every line break is kept |
| Loader.LineStripIdempotent | Core/DataLoader.cs:53 | removing line comments twice is removing them once |
| Loader.LineFreeUnchanged | Core/DataLoader.cs:53 | a text without `//` is unchanged |
| Loader.LineSkipsText | Core/DataLoader.cs:53 | text before the first `//` is kept verbatim |
| Loader.AssignmentAt | Core/DataLoader.cs:56 | a match of `var\s+\w+\s*=\s*\[` at a position ends at a `[` |
| Loader.FindAssignment | Core/DataLoader.cs:56-60 | a found position holds a `[`; `FindAssignmentFound` and `FindAssignmentNone` tie it to the leftmost match |
| Loader.NoAssignmentFrom | Core/DataLoader.cs:56 | with no `var` after a position, there is no match |
| Loader.FindAssignmentAt | Core/DataLoader.cs:56-60 | a match with no match before it is the one found |
| Loader.FindAssignmentFound | Core/DataLoader.cs:56-60 | a found `[` belongs to a match with no match before it |
| Loader.FindAssignmentNone | Core/DataLoader.cs:56-60 | nothing is found exactly when the pattern matches nowhere |
| Loader.DropAssignmentLeftmost | Core/DataLoader.cs:56-62 | wherever the leftmost `var name = [` stands, everything before its `[` is dropped |
| Loader.DropAssignmentKeeps | Core/DataLoader.cs:56-62 | the text is kept whole exactly when the pattern matches nowhere |
| Loader.DropAssignment | Core/DataLoader.cs:56-62 | the text is unchanged, or is cut to a suffix that starts with `[`; `DropAssignmentLeftmost` and `DropAssignmentKeeps` say which |
| Loader.AssignmentDropped | Core/DataLoader.cs:56-62 | `var name = [...` loses everything before the `[` |
| Loader.DropTrailingComma | Core/DataLoader.cs:72-75 | one trailing comma is removed, and nothing else |
| Loader.Repair | Core/DataLoader.cs:67-89 | only text that opens with `[` and does not close with `]` changes: it is cut after its last `}` and closed; with no `}` beyond the start, only the trailing whitespace and one comma go |
| Loader.RepairCloses | Core/DataLoader.cs:67-89 | a repair at a brace yields a text that opens with `[` and closes with `]`, and repairing it again changes nothing |
| Loader.Prepared | Core/DataLoader.cs:51-65 | after comments, the assignment and trimming, the text is trimmed |
| Loader.ExtractJsonArray | Core/DataLoader.cs:49-93 | the prepared text, unchanged when it is not an open array, otherwise repaired as `Repair` says |
| Loader.AssignmentPrepared | Core/DataLoader.cs:51-65 | `var name = [...]` without comments prepares to the array text |
| Loader.TruncatedAssignmentClosed | Core/DataLoader.cs:49-93 | a truncated `var name = [{...},{..` is cut after its last complete object and closed with `]` |
| Html.EscapeEach | Output/HtmlExporter.cs:277-282 | escaping each character never shortens the text |
| Html.EscapeChar | Output/HtmlExporter.cs:277-282 | what one character becomes in escaped text; `EscapeCharShape` states its shape |
| Html.EscapeCharShape | Output/HtmlExporter.cs:277-282 | a character is kept exactly when it is none of `&`, `<`, `>`, `"`, `'`; each of those becomes an entity from `&` to `;` |
| Html.Replacements | Output/HtmlExporter.cs:277-282 | the five chained `Replace` calls, `&` first; `ReplacementsEscapeEach` shows they escape each character once |
| Html.EscapeHtml | Output/HtmlExporter.cs:272-283 | an empty text shows as `N/A`; any other text is escaped one character at a time |
| Html.ReplacementsEscapeEach | Output/HtmlExporter.cs:277-282 | the five chained `Replace` calls equal escaping each character once; `&` goes first, so no entity is escaped twice |
| Html.ReplacementsAppend | Output/HtmlExporter.cs:277-282 | the chained replacements distribute over concatenation |
| Html.ReplacementsOfChar | Output/HtmlExporter.cs:277-282 | on one character the chain yields that character's entity, or the character itself |
| Html.ReplacementsOfAmpersand | Output/HtmlExporter.cs:278 | `&` becomes `&amp;` |
| Html.ReplacementsOfLess | Output/HtmlExporter.cs:279 | `<` becomes `&lt;` |
| Html.ReplacementsOfGreater | Output/HtmlExporter.cs:280 | `>` becomes `&gt;` |
| Html.ReplacementsOfQuote | Output/HtmlExporter.cs:281 | `"` becomes `&quot;` |
| Html.ReplacementsOfApostrophe | Output/HtmlExporter.cs:282 | `'` becomes `&#39;` |
| Html.ReplacementsOfPlain | Output/HtmlExporter.cs:277-282 | any other character is kept |
| Html.EscapeHtmlNoMarkup | Output/HtmlExporter.cs:272-283 | the escaped text holds no `<`, `>`, `"` or `'` |
| Html.EscapeEachNoMarkup | Output/HtmlExporter.cs:277-282 | the same fact, for per-character escaping |
| Html.UnescapeEscapeEach | Output/HtmlExporter.cs:277-282 | decoding the five entities recovers the original text |
| Html.Unescape | Output/HtmlExporter.cs:277-282 | the decoding of the five entities, the inverse stated by `UnescapeEscapeEach` and `EscapeHtmlRoundTrip` |
| Html.EscapeHtmlRoundTrip | Output/HtmlExporter.cs:272-283 | a non-empty text is recovered from its escaped form |
| Html.UnescapeChar | Output/HtmlExporter.cs:277-282 | one escaped character decodes back to itself |
| Html.EscapePlain | Output/HtmlExporter.cs:277-282 | a text with no special character is unchanged |
| Html.OperatorSymbol | Output/HtmlExporter.cs:59-65 | each operator shows as one character, the one the parser reads back as that operator |
| Html.ValueDisplay | Output/HtmlExporter.cs:66-67 | a numeric value shown bare, a text value in single quotes |
| Html.ConditionText | Output/HtmlExporter.cs:66-67 | field, operator and value separated by single spaces; it parses back by `TextConditionDisplayParses` and `NumberConditionDisplayParses` |
| Html.TextConditionDisplayParses | Output/HtmlExporter.cs:66-67 | a text condition's display, `field op 'value'`, parses back to the same condition |
| Html.NumberConditionDisplayParses | Output/HtmlExporter.cs:66-67 | a numeric condition's display parses back to it when the culture prints the number as digits that parse back to it |
| Html.ConditionItems | Output/HtmlExporter.cs:53-70 | one list item per condition, in query order |
| Html.Rows | Output/HtmlExporter.cs:106-121 | one row per result, numbered from 1 in result order |
| Html.RowOf | Output/HtmlExporter.cs:109-120 | one row: its number, then the nine cells, the text ones escaped; `RowCellsEscaped` states the escaping |
| Html.GenerateHtml | Output/HtmlExporter.cs:25-144 | the sections the loops produce are `Page(result)` |
| Html.Page | Output/HtmlExporter.cs:25-144 | the page as the query information followed by the results part |
| Html.Head | Output/HtmlExporter.cs:48-81 | the status, the conditions list when there are conditions, then the message part; `HeadSections` states its shape |
| Html.MessagePart | Output/HtmlExporter.cs:72-80 | the error paragraph for a failure with a message, the counts otherwise; `PageMessage` states it |
| Html.ResultsPart | Output/HtmlExporter.cs:84-133 | the table, the no-match notice, or nothing; `PageResults` states when each appears |
| Html.HeadSections | Output/HtmlExporter.cs:48-81 | the query information opens with the status and ends with either the error or the counts; it holds no table |
| Html.PageResults | Output/HtmlExporter.cs:84-133 | a table appears exactly when the query succeeded with results, and its rows are the results numbered from 1; the no-match notice appears exactly when it succeeded with none |
| Html.PageMessage | Output/HtmlExporter.cs:51-80 | the status comes first; the error paragraph appears exactly on failure with a non-empty message; otherwise the two counts are shown |
| Html.RowCellsEscaped | Output/HtmlExporter.cs:109-120 | the text cells of a row are escaped and hold no markup |

## Left out

- Reading the file, JSON deserialisation, `LoadFromFile`, the JSON exporter, writing the HTML file, the console program and `GetQueryHelp` are outside the modelled core.
- Timestamps (`ExecutedAt`, the page's "Generated" line) are not modelled, since the clock is I/O.
- The page's CSS, header and footer boilerplate are left out. `GenerateHtml` is modelled as its sequence of sections, not as markup text.
- The conditions list shows the field name and value without escaping, as the source does. The error message is shown unescaped too.
- Culture-dependent parsing and printing of numbers, and IEEE-754 rounding, are parameters (`Numbers.NumberFormat`). Numbers are reals.
- The regex classes `\s`, `\w` and `\d`, and `char.IsWhiteSpace` (used by `Trim`, `TrimStart`, `TrimEnd` and `IsNullOrWhiteSpace`), are read as their ASCII members. Case folding (`ToUpperInvariant`, `IgnoreCase`, `OrdinalIgnoreCase`) is modelled on ASCII letters only.
- Text.CompareOrdinal: orders strings by Unicode scalar values, while .NET compares UTF-16 code units. A character above U+FFFF therefore sorts after U+E000 to U+FFFF here, but before them in .NET.
- Loader.ExtractJsonArray: the `StartsWith`/`EndsWith` tests at DataLoader.cs lines 68, 72 and 77 take a string and so are culture-sensitive in .NET; the model tests the first or last character ordinally. A culture that ignores a trailing zero-width character (U+200B) would see `]` where the model does not.
- The `int` and `long` ranges of `int?` and `long?` properties are not enforced; `Value` holds any integer. The conversion of a `long` to `double` is exact here, not rounded.
- `new QueryCondition()` and its defaults (empty field name, `Equals`, a null value, not numeric; QueryCondition.cs lines 8-11) are not modelled. The parser sets every property when it builds a condition, and a null value has no `Literal` case.
- The `float` branch of the numeric coercion (QueryEngine.cs line 101) and the `_ => false` and `_ => "?"` arms are not modelled. No property is a `float`, and the operator set is closed.
- The unknown-operator `InvalidOperationException` (QueryParser.cs line 96) is unreachable, because the operator group only matches `=`, `<` or `>`.
- `ArgumentNullException` for a null vessel list and a `null` query string are not modelled. Both are `seq` values and can never be null.
- The `catch` block is modelled only for the `FormatException` of `Convert.ToDouble`. It is the only exception the filter can raise on these types.
- The dictionary's key enumeration order is taken to be insertion order, i.e. declaration order. Reflection's `GetProperties` order is assumed to be declaration order.
- Parser.Parse: the "No valid conditions found" branch is modelled, but it is proved unreachable, since `Split` always yields a piece.
- Engine.QueryEngine.TotalCount: `GetTotalCount` has no contract of its own. Its value, the list's length, is stated in `OutcomeKeepsMatches` and `Execute`.
- Engine.QueryEngine.Execute: running a query twice gives the same result because the engine's state is readonly. This is not a separate lemma, since `Execute` is a function of that state.
- Loader.Repair: repairing is idempotent only when a `}` is found. A text such as `[,,` loses one comma each time, as in the source.
- Loader.Repair drops at most one trailing comma, and when no `}` lies beyond index 0 it leaves the array unclosed (DataLoader.cs lines 68-89).
