/**
  The analysis engine (`ContractAnalyzer`): validates the contract text, applies the
  rules of the reader's role in catalogue order, keeps at most one finding per rule,
  ranks the findings by score and falls back to a single sentinel result.
 */
module ContractAnalyzer {

  import opened Wrappers
  import opened Strings
  import opened Regex
  import opened TextUtils
  import opened ContractRules
  import opened Ranking

  /** One entry of the result list: the six keys of the source's result dictionary. */
  datatype Finding = Finding(
    clause: string,
    score: int,
    explanation: string,
    solution: string,
    lawReference: string,
    excerpt: string)

  /** The sort key of the result list. */
  function Score(f: Finding): int
  {
    f.score
  }

  /** Labels of the two sentinel results. */
  const ErrorClause: string := "Erro na análise"
  const NoIssuesClause: string := "Nenhum ponto crítico identificado"

  /** Message of the error result for a missing or empty text. */
  const InvalidTextMessage: string := "Texto do contrato inválido ou vazio."

  /** Advice and explanation texts of the two sentinel results. */
  const ErrorSolution: string := "Por favor, tente novamente ou entre em contato com o suporte."
  const NoIssuesExplanation: string :=
    "Não encontramos cláusulas que normalmente exigem atenção especial para seu perfil."
  const NoIssuesSolution: string :=
    "Ainda assim, recomendamos revisão cuidadosa ou consulta a um especialista para verificação completa."

  /** `_create_error_result`: "could not analyse", with the given message. */
  function ErrorResult(message: string): (f: Finding)
    ensures f.score == 0 && f.lawReference == [] && f.excerpt == []
    ensures f.explanation == message && f.clause == ErrorClause
  {
    Finding(
      ErrorClause,
      0,
      message,
      ErrorSolution,
      "",
      "")
  }

  /** `_create_no_issues_result`: "analysed, nothing to flag". */
  function NoIssuesResult(): (f: Finding)
    ensures f.score == 0 && f.lawReference == [] && f.excerpt == []
    ensures f.clause == NoIssuesClause
  {
    Finding(
      NoIssuesClause,
      0,
      NoIssuesExplanation,
      NoIssuesSolution,
      "",
      "")
  }

  /** `_create_analysis_result`: the finding of a rule, its texts copied unchanged and
      its excerpt never empty. */
  function AnalysisResult(rule: Rule, excerpt: string): (f: Finding)
    ensures f.clause == rule.name && f.score == rule.score
    ensures f.explanation == rule.explanation && f.solution == rule.solution
    ensures f.lawReference == rule.lawReference
    ensures f.excerpt != []
    ensures excerpt != [] ==> f.excerpt == excerpt
    ensures excerpt == [] ==> f.excerpt == NotFoundExcerpt
  {
    Finding(
      rule.name,
      rule.score,
      rule.explanation,
      rule.solution,
      rule.lawReference,
      if excerpt != [] then excerpt else NotFoundExcerpt)
  }

  /** `f` is the finding of `rule`: the rule's texts copied unchanged, and an excerpt
      framed in `...`. */
  predicate Describes(f: Finding, rule: Rule)
  {
    && f.clause == rule.name && f.score == rule.score
    && f.explanation == rule.explanation && f.solution == rule.solution
    && f.lawReference == rule.lawReference
    && 6 <= |f.excerpt| && f.excerpt[..3] == "..." && f.excerpt[|f.excerpt| - 3..] == "..."
  }

  // ---------------------------------------------------------------- specification

  /** Index of the first pattern found in `text`; patterns not found and malformed
      patterns are passed over. */
  function FirstFound(patterns: seq<string>, text: string, search: Matcher): (k: Option<nat>)
    ensures k.Some? ==> k.value < |patterns| && search(patterns[k.value], text).Found?
    ensures k.Some? ==> forall j :: 0 <= j < k.value ==> !search(patterns[j], text).Found?
    ensures k.None? ==> forall j :: 0 <= j < |patterns| ==> !search(patterns[j], text).Found?
  {
    if patterns == [] then None
    else if search(patterns[0], text).Found? then Some(0)
    else
      match FirstFound(patterns[1..], text, search)
      case None => None
      case Some(k) => Some(k + 1)
  }

  /** A rule fires when one of its patterns is found. */
  predicate Fires(rule: Rule, text: string, search: Matcher)
  {
    FirstFound(rule.patterns, text, search).Some?
  }

  /** What one rule adds to the results: nothing, or the finding built from its first
      pattern found. */
  function RuleFinding(rule: Rule, text: string, search: Matcher): (found: seq<Finding>)
    requires Sound(search)
    ensures |found| <= 1
    ensures found != [] <==> Fires(rule, text, search)
    ensures forall f :: f in found ==> Describes(f, rule)
  {
    match FirstFound(rule.patterns, text, search)
    case None => []
    case Some(k) => [AnalysisResult(rule, ExtractExcerpt(text, rule.patterns[k], search))]
  }

  /** The findings of `rules` in catalogue order, before ranking. */
  function Collect(rules: seq<Rule>, text: string, search: Matcher): (found: seq<Finding>)
    requires Sound(search)
    ensures |found| <= |rules|
    decreases |rules|
  {
    if rules == [] then []
    else Collect(rules[..|rules| - 1], text, search) + RuleFinding(rules[|rules| - 1], text, search)
  }

  /** The rules of `rules` that fire, in catalogue order. */
  function Firing(rules: seq<Rule>, text: string, search: Matcher): (firing: seq<Rule>)
    ensures |firing| <= |rules|
    ensures forall r :: r in firing ==> r in rules && Fires(r, text, search)
    ensures forall r :: r in rules && Fires(r, text, search) ==> r in firing
    decreases |rules|
  {
    if rules == [] then []
    else
      var last := rules[|rules| - 1];
      assert rules == rules[..|rules| - 1] + [last];
      Firing(rules[..|rules| - 1], text, search) + (if Fires(last, text, search) then [last] else [])
  }

  /** `analyze`: the single error result for a missing or empty text; otherwise the
      findings of the role's rules ranked by score, or the single no-issues result. */
  function Analysis(text: Option<string>, role: string, search: Matcher): seq<Finding>
    requires Sound(search)
  {
    if text.None? || text.value == [] then [ErrorResult(InvalidTextMessage)]
    else
      var found := Collect(RulesForRole(role), CleanText(text), search);
      if found == [] then [NoIssuesResult()] else SortByKeyDesc(found, Score)
  }

  /** The first pattern found is the one before which nothing was found. */
  lemma FirstFoundAt(patterns: seq<string>, text: string, search: Matcher, k: nat)
    requires k < |patterns| && search(patterns[k], text).Found?
    requires forall j :: 0 <= j < k ==> !search(patterns[j], text).Found?
    ensures FirstFound(patterns, text, search) == Some(k)
  {
  }

  /** A rule's finding comes from its first pattern found, whatever the patterns
      before it gave (no match, or a malformed pattern). */
  lemma FirstPatternFoundReported(rule: Rule, text: string, search: Matcher, j: nat)
    requires Sound(search)
    requires j < |rule.patterns| && search(rule.patterns[j], text).Found?
    requires forall k :: 0 <= k < j ==> !search(rule.patterns[k], text).Found?
    ensures RuleFinding(rule, text, search) == [AnalysisResult(rule, ExtractExcerpt(text, rule.patterns[j], search))]
  {
    FirstFoundAt(rule.patterns, text, search, j);
  }

  lemma CollectStep(rules: seq<Rule>, i: nat, text: string, search: Matcher)
    requires Sound(search) && i < |rules|
    ensures Collect(rules[..i + 1], text, search) == Collect(rules[..i], text, search) + RuleFinding(rules[i], text, search)
  {
    assert rules[..i + 1][..i] == rules[..i];
  }

  // ---------------------------------------------------------------- the engine

  /** The loop of `analyze`: each rule in catalogue order, each of its patterns in
      order, the first pattern found giving the rule's finding. */
  method ApplyRules(rules: seq<Rule>, cleaned: string, search: Matcher) returns (results: seq<Finding>)
    requires Sound(search)
    ensures results == Collect(rules, cleaned, search)
  {
    results := [];
    for i := 0 to |rules|
      invariant results == Collect(rules[..i], cleaned, search)
    {
      var rule := rules[i];
      var matched := false;
      for j := 0 to |rule.patterns|
        invariant !matched
        invariant results == Collect(rules[..i], cleaned, search)
        invariant forall k :: 0 <= k < j ==> !search(rule.patterns[k], cleaned).Found?
      {
        var outcome := search(rule.patterns[j], cleaned);
        if outcome.Invalid? {
          // the malformed pattern is skipped; the rule's later patterns are still tried
          continue;
        }
        if outcome.Found? {
          var excerpt := ExtractExcerpt(cleaned, rule.patterns[j], search);
          FirstPatternFoundReported(rule, cleaned, search, j);
          CollectStep(rules, i, cleaned, search);
          results := results + [AnalysisResult(rule, excerpt)];
          matched := true;
          break;
        }
      }
      if !matched {
        CollectStep(rules, i, cleaned, search);
      }
    }
    assert rules[..|rules|] == rules;
  }

  /** `analyze`: validation, cleaning, the rules of the role, then ranking or the
      no-issues fallback. */
  method Analyze(text: Option<string>, role: string, search: Matcher) returns (results: seq<Finding>)
    requires Sound(search)
    ensures results == Analysis(text, role, search)
    ensures 1 <= |results|
    ensures NonIncreasing(results, Score)
    ensures text.None? || text.value == [] ==> results == [ErrorResult(InvalidTextMessage)]
  {
    if text.None? || text.value == [] {
      return [ErrorResult(InvalidTextMessage)];
    }
    var cleaned := CleanText(text);
    var rules := RulesForRole(role);
    results := ApplyRules(rules, cleaned, search);
    if results == [] {
      results := [NoIssuesResult()];
    } else {
      SortIsOrdered(results, Score);
      results := SortByKeyDesc(results, Score);
    }
  }
}
