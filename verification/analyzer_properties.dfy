/**
  What an analysis promises its reader: which result list a text gets, how the
  findings relate to the rules of the role, how they are ranked, and that a
  malformed pattern changes nothing but its own rule's chance to fire.
 */
module AnalyzerProperties {

  import opened Wrappers
  import opened Strings
  import opened Regex
  import opened TextUtils
  import opened ContractRules
  import opened Ranking
  import opened ContractAnalyzer

  // ---------------------------------------------------------------- the findings

  /** Position by position, each finding describes the rule beside it. */
  predicate DescribesAll(found: seq<Finding>, rules: seq<Rule>)
  {
    |found| == |rules| && forall i :: 0 <= i < |found| ==> Describes(found[i], rules[i])
  }

  lemma DescribesAllAppend(found: seq<Finding>, rules: seq<Rule>, more: seq<Finding>, moreRules: seq<Rule>)
    requires DescribesAll(found, rules) && DescribesAll(more, moreRules)
    ensures DescribesAll(found + more, rules + moreRules)
  {
    forall i | 0 <= i < |found + more|
      ensures Describes((found + more)[i], (rules + moreRules)[i])
    {
      if i < |found| {
        assert (found + more)[i] == found[i] && (rules + moreRules)[i] == rules[i];
      } else {
        assert (found + more)[i] == more[i - |found|] && (rules + moreRules)[i] == moreRules[i - |found|];
      }
    }
  }

  /** Before ranking, the findings are exactly the rules that fire, one finding per
      rule, in catalogue order. */
  lemma {:induction false} CollectIsFiring(rules: seq<Rule>, text: string, search: Matcher)
    requires Sound(search)
    ensures DescribesAll(Collect(rules, text, search), Firing(rules, text, search))
  {
    if rules != [] {
      var n := |rules| - 1;
      var last := rules[n];
      CollectIsFiring(rules[..n], text, search);
      var added := RuleFinding(last, text, search);
      var firedNow := if Fires(last, text, search) then [last] else [];
      assert DescribesAll(added, firedNow);
      DescribesAllAppend(Collect(rules[..n], text, search), Firing(rules[..n], text, search), added, firedNow);
    }
  }

  /** No rule fires exactly when the firing list is empty. */
  lemma {:induction false} FiringEmpty(rules: seq<Rule>, text: string, search: Matcher)
    ensures Firing(rules, text, search) == [] <==> forall r :: r in rules ==> !Fires(r, text, search)
  {
    if rules != [] {
      var n := |rules| - 1;
      FiringEmpty(rules[..n], text, search);
      assert rules == rules[..n] + [rules[n]];
    }
  }

  /** There are no findings exactly when no rule of the list fires. */
  lemma CollectEmpty(rules: seq<Rule>, text: string, search: Matcher)
    requires Sound(search)
    ensures Collect(rules, text, search) == [] <==> forall r :: r in rules ==> !Fires(r, text, search)
  {
    CollectIsFiring(rules, text, search);
    FiringEmpty(rules, text, search);
  }

  /** The excerpt of a finding shows its match wrapped in `**` whenever the match's
      only whitespace is single spaces between words; the cleaned text is already
      lower-case, so the lower-cased match is the match itself. */
  lemma FindingHighlightsMatch(text: string, rule: Rule, search: Matcher, j: nat)
    requires Sound(search) && text != []
    requires var cleaned := CleanText(Some(text));
      && j < |rule.patterns| && search(rule.patterns[j], cleaned).Found?
      && (forall k :: 0 <= k < j ==> !search(rule.patterns[k], cleaned).Found?)
      && var o := search(rule.patterns[j], cleaned);
         Collapsed(cleaned[o.start..o.end])
    ensures var cleaned := CleanText(Some(text));
      var o := search(rule.patterns[j], cleaned);
      var found := RuleFinding(rule, cleaned, search);
      |found| == 1 && Occurs("**" + cleaned[o.start..o.end] + "**", found[0].excerpt)
  {
    var cleaned := CleanText(Some(text));
    var o := search(rule.patterns[j], cleaned);
    var matched := cleaned[o.start..o.end];
    assert IsLower(matched) by {
      forall k | 0 <= k < |matched| ensures LowerChar(matched[k]) == matched[k] {
        assert matched[k] == cleaned[o.start + k];
      }
    }
    FirstPatternFoundReported(rule, cleaned, search, j);
    ExcerptHighlightsMatch(cleaned, rule.patterns[j], search);
  }

  // ---------------------------------------------------------------- malformed patterns

  lemma {:induction false} FirstFoundIgnoresInvalid(patterns: seq<string>, text: string, search: Matcher)
    ensures FirstFound(patterns, text, search) == FirstFound(patterns, text, SkipInvalid(search))
  {
    if patterns != [] {
      FirstFoundIgnoresInvalid(patterns[1..], text, search);
    }
  }

  lemma {:induction false} CollectIgnoresInvalid(rules: seq<Rule>, text: string, search: Matcher)
    requires Sound(search)
    ensures Collect(rules, text, search) == Collect(rules, text, SkipInvalid(search))
  {
    if rules != [] {
      var n := |rules| - 1;
      CollectIgnoresInvalid(rules[..n], text, search);
      FirstFoundIgnoresInvalid(rules[n].patterns, text, search);
    }
  }

  /** A malformed pattern acts as a pattern that is not found: the analysis is the
      one of the same engine with every malformed pattern read as "no match". */
  lemma AnalysisIgnoresInvalid(text: Option<string>, role: string, search: Matcher)
    requires Sound(search)
    ensures Analysis(text, role, search) == Analysis(text, role, SkipInvalid(search))
  {
    if text.Some? && text.value != [] {
      CollectIgnoresInvalid(RulesForRole(role), CleanText(text), search);
    }
  }

  // ---------------------------------------------------------------- the result list

  /** A missing or empty text, and only such a text, gets the single error result. */
  lemma ErrorOnlyForInvalidText(text: Option<string>, role: string, search: Matcher)
    requires Sound(search)
    ensures Analysis(text, role, search) == [ErrorResult(InvalidTextMessage)] <==> text.None? || text.value == []
  {
    if text.Some? && text.value != [] {
      var found := Collect(RulesForRole(role), CleanText(text), search);
      if found != [] {
        CollectIsFiring(RulesForRole(role), CleanText(text), search);
        var e := ErrorResult(InvalidTextMessage);
        assert e !in multiset(found);
        assert e !in SortByKeyDesc(found, Score);
      } else {
        assert ErrorClause[0] != NoIssuesClause[0];
      }
    }
  }

  /** A valid text gets the single no-issues result exactly when no rule of the role
      fires on the cleaned text. */
  lemma NoIssuesOnlyWhenNothingFires(text: string, role: string, search: Matcher)
    requires Sound(search) && text != []
    ensures Analysis(Some(text), role, search) == [NoIssuesResult()] <==>
      forall r :: r in RulesForRole(role) ==> !Fires(r, CleanText(Some(text)), search)
  {
    var rules, cleaned := RulesForRole(role), CleanText(Some(text));
    CollectEmpty(rules, cleaned, search);
    var found := Collect(rules, cleaned, search);
    if found != [] {
      CollectIsFiring(rules, cleaned, search);
      var none := NoIssuesResult();
      assert none !in multiset(found);
      assert none !in SortByKeyDesc(found, Score);
    }
  }

  /** A role the catalogue does not know has no rules, so a valid text gets the
      no-issues result. */
  lemma UnknownRoleHasNoIssues(text: string, role: string, search: Matcher)
    requires Sound(search) && text != [] && role !in Catalogue
    ensures Analysis(Some(text), role, search) == [NoIssuesResult()]
  {
  }

  /** When some rule fires, the result list is the findings ranked: the same findings
      (a permutation), in non-increasing score order, findings of equal score in
      catalogue order, each one describing a rule that fires. */
  lemma FindingsRanked(text: string, role: string, search: Matcher)
    requires Sound(search) && text != []
    requires exists r :: r in RulesForRole(role) && Fires(r, CleanText(Some(text)), search)
    ensures var found := Collect(RulesForRole(role), CleanText(Some(text)), search);
      var results := Analysis(Some(text), role, search);
      && multiset(results) == multiset(found)
      && NonIncreasing(results, Score)
      && (forall k :: WithKey(results, Score, k) == WithKey(found, Score, k))
      && |results| == |Firing(RulesForRole(role), CleanText(Some(text)), search)|
  {
    var rules, cleaned := RulesForRole(role), CleanText(Some(text));
    var found := Collect(rules, cleaned, search);
    CollectEmpty(rules, cleaned, search);
    CollectIsFiring(rules, cleaned, search);
    SortIsOrdered(found, Score);
    forall k {
      SortIsStable(found, Score, k);
    }
  }

  /** The result list is never empty, holds at most one entry per rule of the role,
      and is in non-increasing score order. */
  lemma AnalysisShape(text: Option<string>, role: string, search: Matcher)
    requires Sound(search)
    ensures 1 <= |Analysis(text, role, search)|
    ensures |Analysis(text, role, search)| <= if |RulesForRole(role)| == 0 then 1 else |RulesForRole(role)|
    ensures NonIncreasing(Analysis(text, role, search), Score)
  {
    if text.Some? && text.value != [] {
      SortIsOrdered(Collect(RulesForRole(role), CleanText(text), search), Score);
    }
  }

  // ---------------------------------------------------------------- the consumer catalogue

  /** The consumer role's single rule: the first of its two patterns found in the
      cleaned text gives one finding, with that pattern's excerpt; when neither is
      found the text gets the no-issues result. */
  lemma ConsumerAnalysis(text: string, search: Matcher)
    requires Sound(search) && text != []
    ensures var cleaned := CleanText(Some(text));
      search(CancellationBanPattern, cleaned).Found? ==>
        Analysis(Some(text), "Consumidor", search) ==
          [Finding(CancellationBanName, 8, CancellationBanExplanation, CancellationBanSolution,
                   CancellationBanLaw, ExtractExcerpt(cleaned, CancellationBanPattern, search))]
    ensures var cleaned := CleanText(Some(text));
      !search(CancellationBanPattern, cleaned).Found? && search(CancellationBanAltPattern, cleaned).Found? ==>
        Analysis(Some(text), "Consumidor", search) ==
          [Finding(CancellationBanName, 8, CancellationBanExplanation, CancellationBanSolution,
                   CancellationBanLaw, ExtractExcerpt(cleaned, CancellationBanAltPattern, search))]
    ensures var cleaned := CleanText(Some(text));
      !search(CancellationBanPattern, cleaned).Found? && !search(CancellationBanAltPattern, cleaned).Found? ==>
        Analysis(Some(text), "Consumidor", search) == [NoIssuesResult()]
  {
    var cleaned := CleanText(Some(text));
    var rules := RulesForRole("Consumidor");
    assert rules == [CancellationBan];
    assert rules[..0] == [];
    var found := Collect(rules, cleaned, search);
    assert found == RuleFinding(CancellationBan, cleaned, search);
    if search(CancellationBanPattern, cleaned).Found? {
      FirstPatternFoundReported(CancellationBan, cleaned, search, 0);
    } else if search(CancellationBanAltPattern, cleaned).Found? {
      FirstPatternFoundReported(CancellationBan, cleaned, search, 1);
    }
  }
}
