/**
 * The page's pure helpers: the severity and compliance-score classifiers, the set toggle used by the
 * expandable rule rows and the remediation checklist, and the rule filter of the Rules view.
 */
module Helpers {
  import opened Wrappers
  import opened Text
  import opened Lists
  import opened Records

  // ---------------------------------------------------------------------------
  // Classifiers
  // ---------------------------------------------------------------------------

  const SeverityHigh := "bg-red-100 text-red-700 border-red-300"
  const SeverityLow := "bg-amber-100 text-amber-700 border-amber-300"
  const SeverityMedium := "bg-orange-100 text-orange-700 border-orange-300"
  const SeverityOther := "bg-blue-100 text-blue-700 border-blue-300"

  /** `getSeverityColor`: the badge class for a severity, compared after lowering its case. */
  function SeverityColor(severity: string): (r: string)
    ensures r == SeverityHigh <==> ToLower(severity) == "high"
    ensures r == SeverityLow <==> ToLower(severity) == "low"
    ensures r == SeverityMedium <==> ToLower(severity) == "medium"
    ensures r == SeverityOther <==> ToLower(severity) !in {"high", "low", "medium"}
  {
    var s := ToLower(severity);
    if s == "high" then SeverityHigh
    else if s == "low" then SeverityLow
    else if s == "medium" then SeverityMedium
    else SeverityOther
  }

  /** Case does not matter: a severity and its lowered form get the same class. */
  lemma SeverityColorIgnoresCase(severity: string)
    ensures SeverityColor(ToLower(severity)) == SeverityColor(severity)
  {
    ToLowerIdempotent(severity);
  }

  /** "High", "HIGH" and "high" all get the red class; an unknown word gets the blue default. */
  lemma SeverityColorExamples()
    ensures SeverityColor("High") == SeverityColor("HIGH") == SeverityColor("high") == SeverityHigh
    ensures SeverityColor("critical") == SeverityOther
  {
    assert ToLower("High") == "high";
    assert ToLower("HIGH") == "high";
    assert ToLower("high") == "high";
    assert ToLower("critical") == "critical";
  }

  const ComplianceGreen := "text-green-600"
  const ComplianceAmber := "text-amber-600"
  const ComplianceRed := "text-red-600"

  /** `getComplianceColor`: green from 80 up, amber from 60 up to 80, red below 60. */
  function ComplianceColor(score: real): (r: string)
    ensures r == ComplianceGreen <==> score >= 80.0
    ensures r == ComplianceAmber <==> 60.0 <= score < 80.0
    ensures r == ComplianceRed <==> score < 60.0
  {
    if score >= 80.0 then ComplianceGreen
    else if score >= 60.0 then ComplianceAmber
    else ComplianceRed
  }

  /** How good a compliance class is: red 0, amber 1, green 2. */
  function ComplianceRank(color: string): nat {
    if color == ComplianceGreen then 2 else if color == ComplianceAmber then 1 else 0
  }

  /** A higher score never gets a worse colour. */
  lemma ComplianceColorMonotone(a: real, b: real)
    requires a <= b
    ensures ComplianceRank(ComplianceColor(a)) <= ComplianceRank(ComplianceColor(b))
  {
  }

  // ---------------------------------------------------------------------------
  // Set toggle (`toggleRow`, `toggleCheck`)
  // ---------------------------------------------------------------------------

  /** Copy the set, then delete `x` if it was there and add it otherwise. */
  function Toggle<T>(s: set<T>, x: T): (r: set<T>)
    ensures x in r <==> x !in s
    ensures r - {x} == s - {x}
  {
    if x in s then s - {x} else s + {x}
  }

  /** Toggling the same element twice restores the set. */
  lemma ToggleTwice<T>(s: set<T>, x: T)
    ensures Toggle(Toggle(s, x), x) == s
  {
  }

  // ---------------------------------------------------------------------------
  // Rule filter
  // ---------------------------------------------------------------------------

  /** The lowered rule name or rule id contains the lowered query. */
  predicate NameOrIdIncludes(rule: Rule, query: string) {
    Includes(ToLower(rule.ruleName), ToLower(query)) || Includes(ToLower(rule.ruleId), ToLower(query))
  }

  /** The search condition: no query, or the name or the id matches it. */
  predicate MatchesQuery(rule: Rule, query: string) {
    query == "" || NameOrIdIncludes(rule, query)
  }

  /** The type condition: the filter is `all`, or the rule has exactly that type. */
  predicate MatchesType(rule: Rule, ruleType: string) {
    ruleType == "all" || rule.ruleType == ruleType
  }

  /** The predicate of the Rules view's inline filter, with its two early `return false`s. */
  predicate InlineKeeps(rule: Rule, query: string, ruleType: string) {
    !(query != "" && !Includes(ToLower(rule.ruleName), ToLower(query)) && !Includes(ToLower(rule.ruleId), ToLower(query)))
    && !(ruleType != "all" && rule.ruleType != ruleType)
  }

  /** The rules the Rules view shows: those passing the inline predicate, in their stored order. */
  function ShownRules(rules: seq<Rule>, query: string, ruleType: string): (r: seq<Rule>)
    ensures IsSubsequence(r, rules)
    ensures forall x :: x in r <==> x in rules && MatchesQuery(x, query) && MatchesType(x, ruleType)
    ensures forall x :: multiset(r)[x] == (if MatchesQuery(x, query) && MatchesType(x, ruleType) then multiset(rules)[x] else 0)
    decreases |rules|
  {
    if rules == [] then []
    else
      var rest := ShownRules(rules[1..], query, ruleType);
      assert rules == [rules[0]] + rules[1..];
      assert forall x :: x in rules <==> x == rules[0] || x in rules[1..];
      assert multiset(rules) == multiset([rules[0]]) + multiset(rules[1..]);
      if InlineKeeps(rules[0], query, ruleType) then
        assert multiset([rules[0]] + rest) == multiset([rules[0]]) + multiset(rest);
        [rules[0]] + rest
      else rest
  }

  /** The first pass of `getFilteredRules`: keep rules whose name or id contains the query. */
  function ByQuery(rules: seq<Rule>, query: string): seq<Rule>
    decreases |rules|
  {
    if rules == [] then []
    else (if NameOrIdIncludes(rules[0], query) then [rules[0]] else []) + ByQuery(rules[1..], query)
  }

  /** The second pass of `getFilteredRules`: keep rules of exactly the given type. */
  function ByType(rules: seq<Rule>, ruleType: string): seq<Rule>
    decreases |rules|
  {
    if rules == [] then []
    else (if rules[0].ruleType == ruleType then [rules[0]] else []) + ByType(rules[1..], ruleType)
  }

  /** The two passes of `getFilteredRules`, each applied only when its filter is set. */
  function StagedFilter(rules: seq<Rule>, query: string, ruleType: string): seq<Rule> {
    var byQuery := if query != "" then ByQuery(rules, query) else rules;
    if ruleType != "all" then ByType(byQuery, ruleType) else byQuery
  }

  /** The two-pass filter and the inline single-pass filter keep the same rules in the same order. */
  lemma {:induction false} StagedFilterAgrees(rules: seq<Rule>, query: string, ruleType: string)
    ensures StagedFilter(rules, query, ruleType) == ShownRules(rules, query, ruleType)
    decreases |rules|
  {
    if rules != [] {
      StagedFilterAgrees(rules[1..], query, ruleType);
      var x, tail := rules[0], rules[1..];
      var q := if query != "" then ByQuery(rules, query) else rules;
      var qTail := if query != "" then ByQuery(tail, query) else tail;
      var keptByQuery := query == "" || NameOrIdIncludes(x, query);
      assert q == (if keptByQuery then [x] else []) + qTail;
      if ruleType != "all" {
        if keptByQuery {
          assert q == [x] + qTail;
          assert q[0] == x && q[1..] == qTail;
          assert ByType(q, ruleType) == (if x.ruleType == ruleType then [x] else []) + ByType(qTail, ruleType);
        } else {
          assert q == qTail;
        }
      }
    }
  }

  /** `getFilteredRules`: a missing list gives no rules; otherwise the rules passing both filters. */
  function GetFilteredRules(rules: Option<seq<Rule>>, query: string, ruleType: string): (r: seq<Rule>)
    ensures rules.None? ==> r == []
    ensures rules.Some? ==> r == ShownRules(rules.value, query, ruleType)
  {
    if rules.None? then []
    else StagedFilterAgrees(rules.value, query, ruleType); StagedFilter(rules.value, query, ruleType)
  }

  /** With no query and the `all` type, the filter gives its input back unchanged. */
  lemma {:induction false} ShownRulesNoFilter(rules: seq<Rule>)
    ensures ShownRules(rules, "", "all") == rules
    decreases |rules|
  {
    if rules != [] {
      ShownRulesNoFilter(rules[1..]);
    }
  }

  /** Filtering an already filtered list changes nothing. */
  lemma {:induction false} ShownRulesIdempotent(rules: seq<Rule>, query: string, ruleType: string)
    ensures ShownRules(ShownRules(rules, query, ruleType), query, ruleType) == ShownRules(rules, query, ruleType)
    decreases |rules|
  {
    if rules != [] {
      ShownRulesIdempotent(rules[1..], query, ruleType);
      var rest := ShownRules(rules[1..], query, ruleType);
      if InlineKeeps(rules[0], query, ruleType) {
        assert ([rules[0]] + rest)[0] == rules[0] && ([rules[0]] + rest)[1..] == rest;
      }
    }
  }
}
