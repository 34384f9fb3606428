/**
 * Models/QueryCondition.cs: the operator set, one condition, and a parsed query.
 */
module Conditions {

  import opened Wrappers

  /** The closed set of comparison operators. */
  datatype ComparisonOperator = Equals | LessThan | GreaterThan

  /**
   * The condition value: C#'s `object Value`, which the parser fills with a
   * `double` or a `string`.
   */
  datatype Literal = Number(n: real) | Text(s: string)

  /** A field, an operator, a value and whether the value is to be compared as a number. */
  datatype QueryCondition = QueryCondition(
    fieldName: string,
    op: ComparisonOperator,
    value: Literal,
    isNumeric: bool
  )

  /** The flag agrees with the value: numeric exactly when the value is a number. */
  predicate WellTagged(c: QueryCondition) {
    c.isNumeric <==> c.value.Number?
  }

  /** An ordered list of implicitly ANDed conditions, a validity flag and an error message. */
  datatype ParsedQuery = ParsedQuery(
    conditions: seq<QueryCondition>,
    isValid: bool,
    errorMessage: Option<string>
  )

  /** `new ParsedQuery()`: valid, no conditions, no error. */
  const NewParsedQuery: ParsedQuery := ParsedQuery([], true, None)
}
