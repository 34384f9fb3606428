/**
 * Core/QueryEngine.cs: runs a parsed query over the vessel list.
 *
 * The engine holds two readonly things: the vessel list and a catalog of the
 * record's properties keyed by upper-cased name, compared ignoring case. A
 * property is identified by its position in the schema table, which stands in
 * for its `PropertyInfo`.
 */
module Engine {

  import opened Wrappers
  import opened Text
  import opened Numbers
  import opened Conditions
  import opened Schema

  // ---------------------------------------------------------------------
  // Results

  /** `QueryResult` without its timestamp. */
  datatype QueryResult = QueryResult(
    success: bool,
    errorMessage: Option<string>,
    query: ParsedQuery,
    results: seq<Vessel>,
    totalRecords: int,
    matchingRecords: int
  )

  /** A result with every property at its default, for `query`. */
  function NewQueryResult(query: ParsedQuery): QueryResult {
    QueryResult(false, None, query, [], 0, 0)
  }

  /** The outcome of evaluating something that may throw: a value, or the message of the exception. */
  datatype Evaluation = Holds(b: bool) | Throws(message: string)

  /** The outcome of the filter: the records kept, or the message of the exception that stopped it. */
  datatype Selection = Selected(records: seq<Vessel>) | Faulted(message: string)

  const ExecutionErrorPrefix: string := "Query execution error: "

  /** How many catalog keys the unknown-field message lists. */
  const HintCount: nat := 10

  function UnknownFieldMessage(fieldName: string, keys: seq<string>): string
    requires |keys| >= HintCount
  {
    "Unknown field: '" + fieldName + "'. Available fields: " + Join(", ", keys[..HintCount]) + "..."
  }

  // ---------------------------------------------------------------------
  // The property catalog

  /**
   * `ks` and `m` hold the catalog entries of the first `n` properties: `ks`
   * the keys in insertion order, `m` each key's property, and nothing else.
   */
  predicate Catalog(ks: seq<string>, m: map<string, nat>, n: nat) {
    && n <= FieldCount && |ks| == n
    && (forall j :: 0 <= j < n ==> ks[j] == Key(j))
    && (forall j :: 0 <= j < n ==> Key(j) in m && m[Key(j)] == j)
    && (forall k :: k in m ==> m[k] < n && Key(m[k]) == k)
  }

  /**
   * The key of the next property is not yet in the catalog, and adding it
   * keeps the catalog complete for one more property.
   */
  lemma CatalogGrows(ks: seq<string>, m: map<string, nat>, i: nat)
    requires Catalog(ks, m, i) && i < FieldCount
    ensures Key(i) !in m
    ensures Catalog(ks + [Key(i)], m[Key(i) := i], i + 1)
  {
    if Key(i) in m {
      KeysDistinct(m[Key(i)], i);
    }
  }

  /** No other property has the key of property `i`. */
  lemma KeyUnique(i: nat)
    requires i < FieldCount
    ensures forall j :: 0 <= j < FieldCount && j != i ==> Key(j) != Key(i)
  {
    forall j | 0 <= j < FieldCount && j != i
      ensures Key(j) != Key(i)
    {
      KeysDistinct(j, i);
    }
  }

  /** A name equals property `j`'s name ignoring case exactly when its upper-cased form is key `j`. */
  lemma KeyMatches(name: string)
    ensures forall j :: 0 <= j < FieldCount ==> (EqualsIgnoreCase(name, FieldAt(j).name) <==> Upper(name) == Key(j))
  {
  }

  /** Every key is upper case already. */
  lemma KeysUpper()
    ensures forall i :: 0 <= i < FieldCount ==> Upper(Key(i)) == Key(i)
  {
    forall i | 0 <= i < FieldCount
      ensures Upper(Key(i)) == Key(i)
    {
      UpperIdempotent(FieldAt(i).name);
    }
  }

  // ---------------------------------------------------------------------
  // Comparing one value

  /** The tolerance of numeric equality. */
  const Epsilon: real := 0.0001

  function Abs(x: real): real {
    if x < 0.0 then -x else x
  }

  /** The numeric comparisons: equality within `Epsilon`, strict order otherwise. */
  function CompareNumbers(op: ComparisonOperator, x: real, y: real): (b: bool)
    ensures op == Equals ==> (b <==> -Epsilon < x - y < Epsilon)
  {
    match op
    case Equals => Abs(x - y) < Epsilon
    case LessThan => x < y
    case GreaterThan => x > y
  }

  /** The text comparisons: ordinal, ignoring case. */
  function CompareTexts(op: ComparisonOperator, a: string, b: string): bool {
    match op
    case Equals => EqualsIgnoreCase(a, b)
    case LessThan => CompareIgnoreCase(a, b) < 0
    case GreaterThan => CompareIgnoreCase(a, b) > 0
  }

  /**
   * A property value as a number for a numeric condition: `double`, `int`
   * and `long` convert; a string is parsed, and `None` means it does not
   * parse.
   */
  function AsNumber(pv: Value, nf: NumberFormat): (r: Option<real>)
    ensures !pv.StringValue? ==> r.Some?
    ensures pv.StringValue? ==> r == nf.tryParse(pv.s)
  {
    match pv
    case DoubleValue(d) => Some(d)
    case IntValue(i) => Some(i as real)
    case LongValue(l) => Some(l as real)
    case StringValue(s) => nf.tryParse(s)
  }

  /** `ToString()` of a property value. */
  function AsText(pv: Value, nf: NumberFormat): string {
    match pv
    case IntValue(i) => nf.formatInteger(i)
    case LongValue(l) => nf.formatInteger(l)
    case DoubleValue(d) => nf.formatReal(d)
    case StringValue(s) => s
  }

  /** `ToString()` of a condition value. */
  function LiteralText(l: Literal, nf: NumberFormat): string {
    match l
    case Text(s) => s
    case Number(n) => nf.formatReal(n)
  }

  /** Text `<` and `>` are mirror images: `a < b` exactly when `b > a`. */
  lemma TextOrderMirrors(a: string, b: string)
    ensures CompareTexts(LessThan, a, b) == CompareTexts(GreaterThan, b, a)
    ensures CompareTexts(Equals, a, b) == CompareTexts(Equals, b, a)
  {
    CompareOrdinalAntisymmetric(Upper(a), Upper(b));
  }

  /** Exactly one of the three text comparisons holds for any two strings. */
  lemma TextTrichotomy(a: string, b: string)
    ensures CompareTexts(Equals, a, b) || CompareTexts(LessThan, a, b) || CompareTexts(GreaterThan, a, b)
    ensures !(CompareTexts(Equals, a, b) && CompareTexts(LessThan, a, b))
    ensures !(CompareTexts(Equals, a, b) && CompareTexts(GreaterThan, a, b))
    ensures !(CompareTexts(LessThan, a, b) && CompareTexts(GreaterThan, a, b))
  {
  }

  /** Text comparisons do not see case: upper-casing either side changes nothing. */
  lemma TextIgnoresCase(op: ComparisonOperator, a: string, b: string)
    ensures CompareTexts(op, Upper(a), b) == CompareTexts(op, a, b)
    ensures CompareTexts(op, a, Upper(b)) == CompareTexts(op, a, b)
  {
    UpperIdempotent(a);
    UpperIdempotent(b);
  }

  /**
   * Numeric equality is reflexive and symmetric, `<` and `>` mirror each
   * other and are irreflexive; but with the tolerance a pair of numbers can
   * be both equal and ordered.
   */
  lemma NumberComparisons(x: real, y: real)
    ensures CompareNumbers(Equals, x, x) && !CompareNumbers(LessThan, x, x) && !CompareNumbers(GreaterThan, x, x)
    ensures CompareNumbers(Equals, x, y) == CompareNumbers(Equals, y, x)
    ensures CompareNumbers(LessThan, x, y) == CompareNumbers(GreaterThan, y, x)
    ensures CompareNumbers(Equals, 1.0, 1.00005) && CompareNumbers(LessThan, 1.0, 1.00005)
  {
  }

  // ---------------------------------------------------------------------
  // The engine

  /**
   * Prepending position `k`, or nothing, to positions that all lie beyond `k`:
   * `k` is present exactly when it was prepended, and every later position
   * exactly when it was present before.
   */
  lemma PositionsAfter(k: nat, keep: bool, rest: seq<nat>)
    requires forall j :: 0 <= j < |rest| ==> k < rest[j]
    ensures var ps := (if keep then [k] else []) + rest;
      && (k in ps <==> keep)
      && forall p :: k < p ==> (p in ps <==> p in rest)
  {
  }

  class QueryEngine {

    /** `_vessels`: readonly. */
    const vessels: seq<Vessel>

    /** The keys of `_propertyCache` in insertion order. */
    const keys: seq<string>

    /** `_propertyCache`: upper-cased property name to the property's position in the schema. */
    const cache: map<string, nat>

    predicate Valid() {
      Catalog(keys, cache, FieldCount)
    }

    /**
     * Builds the catalog from the schema, one property at a time in
     * declaration order. `ToDictionary` throws on a duplicate key; the keys
     * are distinct, so it never does.
     */
    constructor (vessels: seq<Vessel>)
      ensures this.vessels == vessels
      ensures Valid()
    {
      this.vessels := vessels;
      var ks: seq<string> := [];
      var m: map<string, nat> := map[];
      var i := 0;
      while i < FieldCount
        invariant 0 <= i <= FieldCount
        invariant Catalog(ks, m, i)
      {
        var key := Key(i);
        CatalogGrows(ks, m, i);
        m := m[key := i];
        ks := ks + [key];
        i := i + 1;
      }
      keys := ks;
      cache := m;
    }

    /**
     * `_propertyCache.ContainsKey(name.ToUpperInvariant())` and the property
     * found: exactly the property whose name equals `name` ignoring case.
     */
    function Lookup(name: string): (r: Option<nat>)
      requires Valid()
      ensures r.Some? ==> r.value < FieldCount
    {
      if Upper(name) in cache then Some(cache[Upper(name)]) else None
    }

    /**
     * A name resolves exactly to the property whose name it equals ignoring
     * case, and to nothing when there is none.
     */
    lemma LookupIgnoresCase(name: string)
      requires Valid()
      ensures var r := Lookup(name);
        && (r.Some? ==> EqualsIgnoreCase(name, FieldAt(r.value).name))
        && (r.Some? ==> forall j :: 0 <= j < FieldCount && EqualsIgnoreCase(name, FieldAt(j).name) ==> j == r.value)
        && (r.None? ==> forall j :: 0 <= j < FieldCount ==> !EqualsIgnoreCase(name, FieldAt(j).name))
    {
      KeyMatches(name);
      if Upper(name) in cache {
        KeyUnique(cache[Upper(name)]);
      }
    }

    /**
     * The dictionary compares keys ignoring case; since every key is already
     * upper case, that finds an entry exactly when the upper-cased name is a
     * key itself.
     */
    lemma ComparerAgrees(name: string)
      requires Valid()
      ensures Upper(name) in cache <==> exists k :: k in cache && EqualsIgnoreCase(k, Upper(name))
    {
      if k :| k in cache && EqualsIgnoreCase(k, Upper(name)) {
        var i := cache[k];
        UpperIdempotent(FieldAt(i).name);
        UpperIdempotent(name);
        assert k == Upper(name);
      }
    }

    /** `GetTotalCount`. */
    function TotalCount(): nat {
      |vessels|
    }

    /**
     * `GetAvailableFields`: the catalog keys, one per property in
     * declaration order, each upper case, each resolving to its property.
     */
    function AvailableFields(): (r: seq<string>)
      requires Valid()
      ensures |r| == FieldCount
      ensures forall i :: 0 <= i < FieldCount ==> r[i] == Upper(FieldAt(i).name) && Upper(r[i]) == r[i]
      ensures forall i :: 0 <= i < FieldCount ==> Lookup(r[i]) == Some(i)
    {
      KeysUpper();
      keys
    }

    predicate Known(c: QueryCondition)
      requires Valid()
    {
      Lookup(c.fieldName).Some?
    }

    predicate AllKnown(conds: seq<QueryCondition>)
      requires Valid()
    {
      forall c :: c in conds ==> Known(c)
    }

    /** The position of the first condition whose field is not in the catalog. */
    function FirstUnknown(conds: seq<QueryCondition>): (r: Option<nat>)
      requires Valid()
      ensures r.None? <==> AllKnown(conds)
      ensures r.Some? ==> r.value < |conds| && !Known(conds[r.value])
      ensures r.Some? ==> forall j :: 0 <= j < r.value ==> Known(conds[j])
    {
      if conds == [] then None
      else if !Known(conds[0]) then Some(0)
      else match FirstUnknown(conds[1..])
        case None => None
        case Some(j) => Some(j + 1)
    }

    /** The first unknown condition is the one every condition before it is known. */
    lemma {:induction false} FirstUnknownAt(conds: seq<QueryCondition>, i: nat)
      requires Valid()
      requires i < |conds| && !Known(conds[i])
      requires forall j :: 0 <= j < i ==> Known(conds[j])
      ensures FirstUnknown(conds) == Some(i)
    {
      if i > 0 {
        FirstUnknownAt(conds[1..], i - 1);
      }
    }

    /**
     * `EvaluateCondition`: whether record `v` satisfies `c`. A `null`
     * property satisfies nothing. A numeric condition compares the property
     * as a number (a string property that does not parse satisfies nothing),
     * and a condition value that is text is converted by `Convert.ToDouble`,
     * which throws when the text does not parse. A text condition compares
     * the two `ToString()` forms ignoring case.
     */
    function Evaluate(v: Vessel, c: QueryCondition, nf: NumberFormat): (r: Evaluation)
      requires Valid() && Known(c)
      ensures Get(v, Lookup(c.fieldName).value).None? ==> r == Holds(false)
      ensures r.Throws? ==> c.isNumeric && c.value.Text? && nf.tryParse(c.value.s).None?
      ensures var pv := Get(v, Lookup(c.fieldName).value);
        c.isNumeric && pv.Some? && AsNumber(pv.value, nf).None? ==> pv.value.StringValue? && r == Holds(false)
    {
      var i := Lookup(c.fieldName).value;
      match Get(v, i)
      case None => Holds(false)
      case Some(pv) =>
        if c.isNumeric then
          match AsNumber(pv, nf)
          case None => Holds(false)
          case Some(x) =>
            match c.value
            case Number(n) => Holds(CompareNumbers(c.op, x, n))
            case Text(s) =>
              match nf.tryParse(s)
              case Some(n) => Holds(CompareNumbers(c.op, x, n))
              case None => Throws(nf.formatErrorMessage(s))
        else
          Holds(CompareTexts(c.op, AsText(pv, nf), LiteralText(c.value, nf)))
    }

    /**
     * `conditions.All(c => EvaluateCondition(v, c))`: the conditions in
     * order, stopping at the first that fails or throws.
     */
    function AllHold(v: Vessel, conds: seq<QueryCondition>, nf: NumberFormat): (r: Evaluation)
      requires Valid() && AllKnown(conds)
    {
      if conds == [] then Holds(true)
      else match Evaluate(v, conds[0], nf)
        case Throws(m) => Throws(m)
        case Holds(false) => Holds(false)
        case Holds(true) => AllHold(v, conds[1..], nf)
    }

    /** A record is kept when every condition holds for it. */
    predicate Matches(v: Vessel, conds: seq<QueryCondition>, nf: NumberFormat)
      requires Valid() && AllKnown(conds)
    {
      AllHold(v, conds, nf) == Holds(true)
    }

    /**
     * `vessels.Where(...).ToList()` from index `k` on: the records kept, in
     * order, or the first exception.
     */
    function SelectFrom(conds: seq<QueryCondition>, nf: NumberFormat, k: nat): (r: Selection)
      requires Valid() && AllKnown(conds) && k <= |vessels|
      decreases |vessels| - k
    {
      if k == |vessels| then Selected([])
      else match AllHold(vessels[k], conds, nf)
        case Throws(m) => Faulted(m)
        case Holds(b) =>
          match SelectFrom(conds, nf, k + 1)
          case Faulted(m) => Faulted(m)
          case Selected(rest) => Selected(if b then [vessels[k]] + rest else rest)
    }

    /** The positions from `k` on of the records that match, in increasing order. */
    function MatchPositions(conds: seq<QueryCondition>, nf: NumberFormat, k: nat): (ps: seq<nat>)
      requires Valid() && AllKnown(conds) && k <= |vessels|
      decreases |vessels| - k
    {
      if k == |vessels| then []
      else (if Matches(vessels[k], conds, nf) then [k] else []) + MatchPositions(conds, nf, k + 1)
    }

    /** The matching positions from `k` on lie in `[k, |vessels|)` and increase. */
    lemma {:induction false} MatchPositionsIncrease(conds: seq<QueryCondition>, nf: NumberFormat, k: nat)
      requires Valid() && AllKnown(conds) && k <= |vessels|
      decreases |vessels| - k
      ensures var ps := MatchPositions(conds, nf, k);
        && |ps| <= |vessels| - k
        && (forall j :: 0 <= j < |ps| ==> k <= ps[j] < |vessels|)
        && (forall i, j :: 0 <= i < j < |ps| ==> ps[i] < ps[j])
    {
      if k < |vessels| {
        MatchPositionsIncrease(conds, nf, k + 1);
      }
    }

    /** Position `p` is among the matching positions from `k` on exactly when the record there matches. */
    lemma {:induction false} MatchPositionAt(conds: seq<QueryCondition>, nf: NumberFormat, k: nat, p: nat)
      requires Valid() && AllKnown(conds) && k <= p < |vessels|
      decreases p - k
      ensures p in MatchPositions(conds, nf, k) <==> Matches(vessels[p], conds, nf)
    {
      MatchPositionsIncrease(conds, nf, k + 1);
      PositionsAfter(k, Matches(vessels[k], conds, nf), MatchPositions(conds, nf, k + 1));
      if k < p {
        MatchPositionAt(conds, nf, k + 1, p);
      }
    }

    /** A position from `k` on is a matching position exactly when the record there matches. */
    lemma MatchPositionsExact(conds: seq<QueryCondition>, nf: NumberFormat, k: nat)
      requires Valid() && AllKnown(conds) && k <= |vessels|
      ensures forall p :: k <= p < |vessels| ==> (p in MatchPositions(conds, nf, k) <==> Matches(vessels[p], conds, nf))
    {
      forall p | k <= p < |vessels|
        ensures p in MatchPositions(conds, nf, k) <==> Matches(vessels[p], conds, nf)
      {
        MatchPositionAt(conds, nf, k, p);
      }
    }

    /**
     * The filter keeps the records at the matching positions, in order: the
     * `j`-th record kept is the record at the `j`-th matching position.
     */
    lemma {:induction false} SelectKeepsMatches(conds: seq<QueryCondition>, nf: NumberFormat, k: nat)
      requires Valid() && AllKnown(conds) && k <= |vessels|
      requires SelectFrom(conds, nf, k).Selected?
      decreases |vessels| - k
      ensures var r, ps := SelectFrom(conds, nf, k).records, MatchPositions(conds, nf, k);
        |r| == |ps| && forall j :: 0 <= j < |ps| ==> ps[j] < |vessels| && r[j] == vessels[ps[j]]
    {
      if k < |vessels| {
        SelectKeepsMatches(conds, nf, k + 1);
      }
    }

    /** A condition whose flag agrees with its value never throws. */
    lemma WellTaggedNeverThrows(v: Vessel, c: QueryCondition, nf: NumberFormat)
      requires Valid() && Known(c) && WellTagged(c)
      ensures Evaluate(v, c, nf).Holds?
    {
    }

    /**
     * For conditions whose flags agree with their values, the conjunction
     * cannot throw and holds exactly when every condition holds.
     */
    lemma {:induction false} AllHoldIsConjunction(v: Vessel, conds: seq<QueryCondition>, nf: NumberFormat)
      requires Valid() && AllKnown(conds)
      requires forall c :: c in conds ==> WellTagged(c)
      ensures AllHold(v, conds, nf) == Holds(forall c :: c in conds ==> Evaluate(v, c, nf) == Holds(true))
    {
      if conds != [] {
        WellTaggedNeverThrows(v, conds[0], nf);
        AllHoldIsConjunction(v, conds[1..], nf);
        assert forall c :: c in conds <==> c == conds[0] || c in conds[1..];
      }
    }

    /** For such conditions the filter never faults. */
    lemma {:induction false} WellTaggedSelects(conds: seq<QueryCondition>, nf: NumberFormat, k: nat)
      requires Valid() && AllKnown(conds) && k <= |vessels|
      requires forall c :: c in conds ==> WellTagged(c)
      decreases |vessels| - k
      ensures SelectFrom(conds, nf, k).Selected?
    {
      if k < |vessels| {
        AllHoldIsConjunction(vessels[k], conds, nf);
        WellTaggedSelects(conds, nf, k + 1);
      }
    }

    /**
     * Two lists of the same conditions, in any order and with any
     * repetition, give every record the same verdict.
     */
    lemma SameConditionsSameVerdict(v: Vessel, c1: seq<QueryCondition>, c2: seq<QueryCondition>, nf: NumberFormat)
      requires Valid() && AllKnown(c1) && AllKnown(c2)
      requires forall c :: c in c1 ==> WellTagged(c)
      requires forall c :: c in c1 <==> c in c2
      ensures AllHold(v, c1, nf) == AllHold(v, c2, nf)
    {
      AllHoldIsConjunction(v, c1, nf);
      AllHoldIsConjunction(v, c2, nf);
    }

    /** Two lists of the same conditions, in any order and with any repetition, select the same records. */
    lemma {:induction false} SelectIgnoresConditionOrder(c1: seq<QueryCondition>, c2: seq<QueryCondition>, nf: NumberFormat, k: nat)
      requires Valid() && AllKnown(c1) && AllKnown(c2) && k <= |vessels|
      requires forall c :: c in c1 ==> WellTagged(c)
      requires forall c :: c in c1 <==> c in c2
      decreases |vessels| - k
      ensures SelectFrom(c1, nf, k) == SelectFrom(c2, nf, k)
    {
      if k < |vessels| {
        SameConditionsSameVerdict(vessels[k], c1, c2, nf);
        SelectIgnoresConditionOrder(c1, c2, nf, k + 1);
      }
    }

    /**
     * `Execute` as a function: an invalid query is passed through; a query
     * naming an unknown field is rejected naming the first such field; a
     * filter that throws is reported; otherwise the records kept and the
     * counts.
     */
    function Outcome(query: ParsedQuery, nf: NumberFormat): (r: QueryResult)
      requires Valid()
    {
      if !query.isValid then
        NewQueryResult(query).(errorMessage := query.errorMessage)
      else match FirstUnknown(query.conditions)
        case Some(i) =>
          NewQueryResult(query).(errorMessage := Some(UnknownFieldMessage(query.conditions[i].fieldName, keys)))
        case None =>
          match SelectFrom(query.conditions, nf, 0)
          case Faulted(m) => NewQueryResult(query).(errorMessage := Some(ExecutionErrorPrefix + m))
          case Selected(rs) => NewQueryResult(query).(success := true, results := rs, totalRecords := |vessels|, matchingRecords := |rs|)
    }

    /**
     * A text condition does not see the case of its literal: upper-casing
     * the literal gives every record the same verdict.
     */
    lemma EvaluateIgnoresLiteralCase(v: Vessel, c: QueryCondition, nf: NumberFormat)
      requires Valid() && Known(c) && !c.isNumeric && c.value.Text?
      ensures Evaluate(v, c.(value := Text(Upper(c.value.s))), nf) == Evaluate(v, c, nf)
    {
      forall pv: Value {
        TextIgnoresCase(c.op, AsText(pv, nf), c.value.s);
      }
    }

    /**
     * A valid query that names an unknown field is rejected with a message
     * naming the first such field as written and listing the first ten
     * catalog keys; no record is examined.
     */
    lemma OutcomeUnknownField(query: ParsedQuery, nf: NumberFormat, i: nat)
      requires Valid() && query.isValid
      requires i < |query.conditions| && !Known(query.conditions[i])
      requires forall j :: 0 <= j < i ==> Known(query.conditions[j])
      ensures Outcome(query, nf)
        == NewQueryResult(query).(errorMessage := Some(UnknownFieldMessage(query.conditions[i].fieldName, AvailableFields())))
    {
      FirstUnknownAt(query.conditions, i);
    }

    /**
     * A successful outcome holds exactly the records that satisfy every
     * condition, in their original order: the `j`-th result is the record at
     * the `j`-th matching position, and the counts are the list's length
     * and the number of results.
     */
    lemma OutcomeKeepsMatches(query: ParsedQuery, nf: NumberFormat)
      requires Valid() && Outcome(query, nf).success
      ensures AllKnown(query.conditions)
      ensures var r, ps := Outcome(query, nf), MatchPositions(query.conditions, nf, 0);
        && |r.results| == |ps| == r.matchingRecords <= r.totalRecords == TotalCount()
        && (forall j :: 0 <= j < |ps| ==> ps[j] < |vessels| && r.results[j] == vessels[ps[j]])
        && (forall i, j :: 0 <= i < j < |ps| ==> ps[i] < ps[j])
        && (forall p :: 0 <= p < |vessels| ==> (p in ps <==> Matches(vessels[p], query.conditions, nf)))
    {
      MatchPositionsIncrease(query.conditions, nf, 0);
      MatchPositionsExact(query.conditions, nf, 0);
      SelectKeepsMatches(query.conditions, nf, 0);
    }

    /**
     * The outcome of a valid query whose fields are all known and whose
     * flags agree with their values does not depend on the order (or
     * repetition) of its conditions.
     */
    lemma OutcomeIgnoresConditionOrder(q1: ParsedQuery, q2: ParsedQuery, nf: NumberFormat)
      requires Valid() && q1.isValid && q2.isValid
      requires AllKnown(q1.conditions)
      requires forall c :: c in q1.conditions ==> WellTagged(c)
      requires forall c :: c in q1.conditions <==> c in q2.conditions
      ensures Outcome(q1, nf).success && Outcome(q2, nf).success
      ensures Outcome(q1, nf).results == Outcome(q2, nf).results
    {
      SelectIgnoresConditionOrder(q1.conditions, q2.conditions, nf, 0);
      WellTaggedSelects(q1.conditions, nf, 0);
    }

    /**
     * `Execute`: checks the fields of the conditions in order, returning at
     * the first unknown one, then filters the records.
     */
    method Execute(query: ParsedQuery, nf: NumberFormat) returns (result: QueryResult)
      requires Valid()
      ensures result == Outcome(query, nf)
      ensures result.query == query
      ensures !query.isValid ==> !result.success && result.errorMessage == query.errorMessage
      ensures !result.success ==> result.results == [] && result.totalRecords == 0 && result.matchingRecords == 0
      ensures result.success ==> result.errorMessage.None? && result.totalRecords == |vessels|
      ensures result.success ==> result.matchingRecords == |result.results| <= |vessels|
    {
      result := NewQueryResult(query);
      if !query.isValid {
        result := result.(success := false, errorMessage := query.errorMessage);
        return;
      }
      var conds := query.conditions;
      var i := 0;
      while i < |conds|
        invariant 0 <= i <= |conds|
        invariant forall j :: 0 <= j < i ==> Known(conds[j])
      {
        if Upper(conds[i].fieldName) !in cache {
          FirstUnknownAt(conds, i);
          result := result.(success := false, errorMessage := Some(UnknownFieldMessage(conds[i].fieldName, keys)));
          return;
        }
        i := i + 1;
      }
      match SelectFrom(conds, nf, 0)
      case Faulted(m) =>
        result := result.(success := false, errorMessage := Some(ExecutionErrorPrefix + m));
      case Selected(rs) =>
        MatchPositionsIncrease(conds, nf, 0);
        SelectKeepsMatches(conds, nf, 0);
        result := result.(success := true, results := rs, totalRecords := |vessels|, matchingRecords := |rs|);
    }
  }
}
