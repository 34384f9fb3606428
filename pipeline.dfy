/**
 * A query string parsed by the parser and run by the engine: the two halves
 * together, and the worked example of a filter over two records.
 */
module Pipeline {
  import opened Wrappers
  import opened Text
  import opened Numbers
  import opened Conditions
  import opened Schema
  import opened Parser
  import opened Engine
  import ParserFacts

  /**
   * A parsed query succeeds exactly when it parsed and every field it names
   * is a property; the filter itself never fails, because the parser only
   * marks a condition numeric when its value is a number. A query that did
   * not parse is passed back with the parser's message.
   */
  lemma ParsedQueryNeverFaults(e: QueryEngine, query: string, nf: NumberFormat)
    requires e.Valid()
    ensures var pq := ParseQuery(query, nf);
      && (e.Outcome(pq, nf).success <==> pq.isValid && e.AllKnown(pq.conditions))
      && (!pq.isValid ==> e.Outcome(pq, nf).errorMessage == pq.errorMessage)
  {
    var pq := ParseQuery(query, nf);
    ParseQueryShape(query, nf);
    if pq.isValid && e.AllKnown(pq.conditions) {
      e.WellTaggedSelects(pq.conditions, nf, 0);
    }
  }

  /** A property is found by its own name. */
  lemma LookupByName(e: QueryEngine, i: nat, name: string)
    requires e.Valid() && i < FieldCount && FieldAt(i).name == name
    ensures e.Lookup(name) == Some(i)
  {
    assert Upper(name) == Key(i);
  }

  /** No property is called `speed`, in any case. */
  lemma SpeedIsUnknown(e: QueryEngine)
    requires e.Valid()
    ensures e.Lookup("speed") == None
  {
    var key := Upper("speed");
    assert key == "SPEED";
    if key in e.cache {
      KeyFingerprint(e.cache[key]);
      assert false;
    }
  }

  /** The flag as stored matches the flag as written in the query. */
  lemma FlagIgnoresCase()
    ensures EqualsIgnoreCase("SINGAPORE", "Singapore")
  {
    assert Upper("Singapore") == "SINGAPORE";
    assert Upper("SINGAPORE") == "SINGAPORE";
  }

  /** A ship built in 2015 under the Singapore flag. */
  const Recent: Vessel := map[10 := IntValue(2015), 9 := StringValue("SINGAPORE")]

  /** A ship built in 2005 under the Singapore flag. */
  const Older: Vessel := map[10 := IntValue(2005), 9 := StringValue("SINGAPORE")]

  /** The two conditions of the example query, as parsed. */
  function ExampleConditions(year: real): seq<QueryCondition> {
    [QueryCondition("A12_YEAR_BUILT", GreaterThan, Number(year), true),
     QueryCondition("FLAG", Equals, Text("Singapore"), false)]
  }

  /** The recent ship satisfies both conditions and the older one fails the first. */
  lemma ExampleVerdicts(e: QueryEngine, nf: NumberFormat)
    requires e.Valid()
    ensures e.AllKnown(ExampleConditions(2010.0))
    ensures e.AllHold(Recent, ExampleConditions(2010.0), nf) == Holds(true)
    ensures e.AllHold(Older, ExampleConditions(2010.0), nf) == Holds(false)
  {
    var conds := ExampleConditions(2010.0);
    ExampleFieldTypes();
    LookupByName(e, 10, "A12_YEAR_BUILT");
    LookupByName(e, 9, "FLAG");
    FlagIgnoresCase();
    assert e.Evaluate(Recent, conds[0], nf) == Holds(true);
    assert e.Evaluate(Recent, conds[1], nf) == Holds(true);
    assert e.Evaluate(Older, conds[0], nf) == Holds(false);
    assert conds[1..][0] == conds[1] && conds[1..][1..] == [];
    assert e.AllHold(Recent, conds[1..], nf) == Holds(true);
  }

  /**
   * Over two records of which only the first matches, a valid query whose
   * fields are known returns that record: two examined, one returned.
   */
  lemma FirstOfTwoKept(e: QueryEngine, query: ParsedQuery, nf: NumberFormat, a: Vessel, b: Vessel)
    requires e.Valid() && e.vessels == [a, b]
    requires query.isValid && query.errorMessage.None? && e.AllKnown(query.conditions)
    requires e.AllHold(a, query.conditions, nf) == Holds(true)
    requires e.AllHold(b, query.conditions, nf) == Holds(false)
    ensures e.Outcome(query, nf) == QueryResult(true, None, query, [a], 2, 1)
  {
    var conds := query.conditions;
    assert e.SelectFrom(conds, nf, 2) == Selected([]);
    assert e.SelectFrom(conds, nf, 1) == Selected([]);
    assert e.SelectFrom(conds, nf, 0) == Selected([a]);
  }

  /**
   * `WHERE A12_YEAR_BUILT > 2010 AND FLAG = 'Singapore'` over the two ships
   * keeps the recent one: two records examined, one returned.
   */
  lemma ExampleQueryAnswered(e: QueryEngine, nf: NumberFormat)
    requires e.Valid() && e.vessels == [Recent, Older]
    requires nf.tryParse("2010") == Some(2010.0)
    ensures var pq := ParseQuery(ParserFacts.ExampleQuery, nf);
      && pq == ParsedQuery(ExampleConditions(2010.0), true, None)
      && e.Outcome(pq, nf) == QueryResult(true, None, pq, [Recent], 2, 1)
  {
    ParserFacts.ExampleQueryParses(nf, 2010.0);
    ExampleVerdicts(e, nf);
    FirstOfTwoKept(e, ParsedQuery(ExampleConditions(2010.0), true, None), nf, Recent, Older);
  }

  /**
   * A query naming `speed` is rejected naming that field, whatever else it
   * asks: the message lists the first ten catalog keys.
   */
  lemma SpeedQueryRejected(e: QueryEngine, query: ParsedQuery, nf: NumberFormat)
    requires e.Valid() && query.isValid && |query.conditions| >= 1
    requires query.conditions[0].fieldName == "speed"
    ensures e.Outcome(query, nf) == NewQueryResult(query).(errorMessage := Some(UnknownFieldMessage("speed", e.AvailableFields())))
  {
    SpeedIsUnknown(e);
    e.OutcomeUnknownField(query, nf, 0);
  }
}
