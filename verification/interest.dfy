/**
 * Interest of association rules: how far a rule's confidence lies from a
 * baseline confidence for its consequent. Two filters over the rules the
 * miner returns use it with opposite comparisons against the threshold:
 * the interest table reports |interest| > threshold, while the
 * interesting-rules list drops only |interest| < threshold.
 */
module Interest {
  import opened IntTreeSet

  /** A rule as the miner returns it. */
  datatype Rule = Rule(antecedent: seq<int>, consequent: seq<int>, confidence: real)

  /** One row of the interest table. */
  datatype InterestRow = InterestRow(antecedent: seq<int>, consequent: seq<int>, confidence: real, interest: real)

  /** Baseline confidences, keyed by the consequent as a set of items. */
  type ConfidenceMap = map<set<int>, real>

  /** What the baseline map returns for a key it does not hold. */
  const DefaultReturnValue: real := 0.0

  function Abs(x: real): real {
    if x < 0.0 then -x else x
  }

  /** The baseline stored under key, or the default when there is none. */
  function GetDouble(baseline: ConfidenceMap, key: set<int>): (v: real)
    ensures key in baseline ==> v == baseline[key]
    ensures key !in baseline ==> v == 0.0
  {
    if key in baseline then baseline[key] else DefaultReturnValue
  }

  /** Confidence minus the baseline stored under the consequent's item set. */
  function InterestOf(rule: Rule, baseline: ConfidenceMap): (interest: real)
    ensures Elements(rule.consequent) in baseline ==> interest == rule.confidence - baseline[Elements(rule.consequent)]
    ensures Elements(rule.consequent) !in baseline ==> interest == rule.confidence
  {
    rule.confidence - GetDouble(baseline, Elements(rule.consequent))
  }

  /** The table row recorded for a rule: the rule's columns and its interest. */
  function RowOf(rule: Rule, baseline: ConfidenceMap): (row: InterestRow)
    ensures RuleOf(row) == rule
    ensures row.interest == InterestOf(rule, baseline)
  {
    InterestRow(rule.antecedent, rule.consequent, rule.confidence, InterestOf(rule, baseline))
  }

  /** The rule a table row was made from. */
  function RuleOf(row: InterestRow): Rule {
    Rule(row.antecedent, row.consequent, row.confidence)
  }

  function RulesOf(rows: seq<InterestRow>): (rules: seq<Rule>)
    ensures |rules| == |rows|
  {
    if rows == [] then [] else [RuleOf(rows[0])] + RulesOf(rows[1..])
  }

  /**
   * The rows the interest table receives: one per rule whose |interest|
   * exceeds the threshold, in the miner's rule order.
   */
  function InterestTable(rules: seq<Rule>, baseline: ConfidenceMap, threshold: real): (rows: seq<InterestRow>)
    ensures |rows| <= |rules|
    ensures forall k :: 0 <= k < |rows| ==>
              && Abs(rows[k].interest) > threshold
              && rows[k].interest == rows[k].confidence - GetDouble(baseline, Elements(rows[k].consequent))
  {
    if rules == [] then []
    else
      var rest := InterestTable(rules[1..], baseline, threshold);
      if Abs(InterestOf(rules[0], baseline)) > threshold then [RowOf(rules[0], baseline)] + rest else rest
  }

  /**
   * The rules the miner returned, less those whose |interest| is below the
   * threshold; the others stay, in order.
   */
  function InterestingRules(rules: seq<Rule>, baseline: ConfidenceMap, threshold: real): (kept: seq<Rule>)
    ensures |kept| <= |rules|
    ensures forall k :: 0 <= k < |kept| ==> Abs(InterestOf(kept[k], baseline)) >= threshold
  {
    if rules == [] then []
    else
      var rest := InterestingRules(rules[1..], baseline, threshold);
      if Abs(InterestOf(rules[0], baseline)) < threshold then rest else [rules[0]] + rest
  }

  /** The rules whose |interest| equals the threshold exactly. */
  function Ties(rules: seq<Rule>, baseline: ConfidenceMap, threshold: real): (ties: seq<Rule>)
    ensures forall k :: 0 <= k < |ties| ==> Abs(InterestOf(ties[k], baseline)) == threshold
  {
    if rules == [] then []
    else
      var rest := Ties(rules[1..], baseline, threshold);
      if Abs(InterestOf(rules[0], baseline)) == threshold then [rules[0]] + rest else rest
  }

  /** The table of rules a + b is the table of a followed by the table of b: rule order is kept. */
  lemma {:induction false} InterestTableAppend(a: seq<Rule>, b: seq<Rule>, baseline: ConfidenceMap, threshold: real)
    ensures InterestTable(a + b, baseline, threshold)
            == InterestTable(a, baseline, threshold) + InterestTable(b, baseline, threshold)
    decreases |a|
  {
    if a != [] {
      assert (a + b)[1..] == a[1..] + b;
      InterestTableAppend(a[1..], b, baseline, threshold);
    } else {
      assert a + b == b;
    }
  }

  /** A row is in the table exactly when it is the row of a rule whose |interest| exceeds the threshold. */
  lemma {:induction false} InterestTableRows(rules: seq<Rule>, baseline: ConfidenceMap, threshold: real, row: InterestRow)
    ensures row in InterestTable(rules, baseline, threshold)
            <==> exists rule :: rule in rules && Abs(InterestOf(rule, baseline)) > threshold && row == RowOf(rule, baseline)
    decreases |rules|
  {
    if rules != [] {
      InterestTableRows(rules[1..], baseline, threshold, row);
      assert forall rule :: rule in rules <==> rule == rules[0] || rule in rules[1..];
    }
  }

  /** The kept rules of a + b are the kept rules of a followed by those of b. */
  lemma {:induction false} InterestingRulesAppend(a: seq<Rule>, b: seq<Rule>, baseline: ConfidenceMap, threshold: real)
    ensures InterestingRules(a + b, baseline, threshold)
            == InterestingRules(a, baseline, threshold) + InterestingRules(b, baseline, threshold)
    decreases |a|
  {
    if a != [] {
      assert (a + b)[1..] == a[1..] + b;
      InterestingRulesAppend(a[1..], b, baseline, threshold);
    } else {
      assert a + b == b;
    }
  }

  /** A rule is kept exactly when it was returned and its |interest| is not below the threshold. */
  lemma {:induction false} InterestingRulesMembers(rules: seq<Rule>, baseline: ConfidenceMap, threshold: real, rule: Rule)
    ensures rule in InterestingRules(rules, baseline, threshold)
            <==> rule in rules && Abs(InterestOf(rule, baseline)) >= threshold
    decreases |rules|
  {
    if rules != [] {
      InterestingRulesMembers(rules[1..], baseline, threshold, rule);
    }
  }

  /** A rule is a tie exactly when it was returned and its |interest| equals the threshold. */
  lemma {:induction false} TiesMembers(rules: seq<Rule>, baseline: ConfidenceMap, threshold: real, rule: Rule)
    ensures rule in Ties(rules, baseline, threshold)
            <==> rule in rules && Abs(InterestOf(rule, baseline)) == threshold
    decreases |rules|
  {
    if rules != [] {
      TiesMembers(rules[1..], baseline, threshold, rule);
    }
  }

  /**
   * The two filters differ exactly on the ties: every kept rule is either
   * reported in the table or sits on the threshold.
   */
  lemma {:induction false} KeptIsReportedPlusTies(rules: seq<Rule>, baseline: ConfidenceMap, threshold: real)
    ensures |InterestingRules(rules, baseline, threshold)|
            == |InterestTable(rules, baseline, threshold)| + |Ties(rules, baseline, threshold)|
    decreases |rules|
  {
    if rules != [] {
      KeptIsReportedPlusTies(rules[1..], baseline, threshold);
    }
  }

  /** Without ties, the table reports exactly the kept rules, in the same order. */
  lemma {:induction false} NoTiesFiltersAgree(rules: seq<Rule>, baseline: ConfidenceMap, threshold: real)
    requires Ties(rules, baseline, threshold) == []
    ensures RulesOf(InterestTable(rules, baseline, threshold)) == InterestingRules(rules, baseline, threshold)
    decreases |rules|
  {
    if rules != [] {
      NoTiesFiltersAgree(rules[1..], baseline, threshold);
      var rest := InterestTable(rules[1..], baseline, threshold);
      if Abs(InterestOf(rules[0], baseline)) > threshold {
        assert InterestTable(rules, baseline, threshold) == [RowOf(rules[0], baseline)] + rest;
        assert ([RowOf(rules[0], baseline)] + rest)[1..] == rest;
      }
    }
  }

  /** A rule whose |interest| equals the threshold is kept by one filter and left out of the table by the other. */
  lemma {:induction false} BoundaryRule(rule: Rule, baseline: ConfidenceMap, threshold: real)
    requires Abs(InterestOf(rule, baseline)) == threshold
    ensures InterestingRules([rule], baseline, threshold) == [rule]
    ensures InterestTable([rule], baseline, threshold) == []
  {
    assert [rule][1..] == [];
  }

  /**
   * The lookup in interestingRules as written: it passes the consequent
   * array itself as the key. An array equals only itself, never a set, so
   * the lookup always misses and yields the default.
   */
  function ArrayKeyLookup(baseline: ConfidenceMap, consequent: seq<int>): (v: real)
    ensures v == GetDouble(map[], Elements(consequent))
  {
    DefaultReturnValue
  }

  /** interestingRules as written, with the array-keyed lookup. */
  function InterestingRulesAsWritten(rules: seq<Rule>, baseline: ConfidenceMap, threshold: real): (kept: seq<Rule>)
    ensures |kept| <= |rules|
    ensures forall k :: 0 <= k < |kept| ==> Abs(kept[k].confidence) >= threshold
  {
    if rules == [] then []
    else
      var rest := InterestingRulesAsWritten(rules[1..], baseline, threshold);
      var interest := rules[0].confidence - ArrayKeyLookup(baseline, rules[0].consequent);
      if Abs(interest) < threshold then rest else [rules[0]] + rest
  }

  /** As written, the baseline map is never consulted: the result is that of an empty map. */
  lemma {:induction false} AsWrittenIgnoresBaseline(rules: seq<Rule>, baseline: ConfidenceMap, threshold: real)
    ensures InterestingRulesAsWritten(rules, baseline, threshold) == InterestingRules(rules, map[], threshold)
    decreases |rules|
  {
    if rules != [] {
      AsWrittenIgnoresBaseline(rules[1..], baseline, threshold);
    }
  }

  /**
   * A rule with confidence 0.6 whose consequent {2} has baseline 0.5 has
   * interest 0.1, below a threshold of 0.2: set-keyed lookup drops it, the
   * array-keyed lookup as written keeps it.
   */
  lemma {:induction false} AsWrittenKeepsUninterestingRule()
    ensures var rule := Rule([1], [2], 0.6);
            var baseline := map[{2} := 0.5];
            && InterestingRulesAsWritten([rule], baseline, 0.2) == [rule]
            && InterestingRules([rule], baseline, 0.2) == []
  {
    var rule := Rule([1], [2], 0.6);
    assert Elements(rule.consequent) == {2};
    assert [rule][1..] == [];
  }
}
