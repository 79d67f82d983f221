# Clara contract-clause engine, modelled in Dafny

Clara reads the text of a contract and flags clauses that are risky for the
reader's role in the contract (`clara10.py`). This project models the engine at
the centre of that program:

- `TextUtils.clean_text` lower-cases and strips the contract text.
- `TextUtils.extract_excerpt` cuts a window of up to `Config.MAX_EXCERPT_LENGTH`
  (100) characters on each side of a match. It collapses the window's whitespace,
  wraps the matched text in `**` and frames the result in `...`.
- `ContractRules.get_rules_for_role` looks up the rule catalogue by role. An
  unknown role has no rules.
- `ContractAnalyzer.analyze` rejects a missing or empty text with a single error
  result. Otherwise it applies each rule of the role in catalogue order and tries
  the rule's patterns in order. The first pattern found gives the rule's one
  finding, and a malformed pattern is skipped. The findings are ranked by score
  with a stable descending sort. When there are none, the answer is a single
  no-issues result.
- `_create_error_result`, `_create_no_issues_result` and
  `_create_analysis_result` build the result records.

The regular-expression engine is a parameter of the model: a function from a
pattern and a text to "no match", the leftmost match `[start, end)`, or "malformed
pattern" (`re.error`). The only thing assumed of it is that a match lies within
the text it was given (`Regex.Sound`). Python's `str.isspace`, `str.lower`,
`str.strip`, `str.split()`, `' '.join` and `str.replace` are written out as
functions (module `Strings`). `sorted(..., reverse=True)` is a stable insertion
sort (module `Ranking`). `analyze` itself is an imperative method with the
source's nested loops, `break` and `continue` (`ContractAnalyzer.ApplyRules` holds
the loops). It is proved equal to the
specification function `ContractAnalyzer.Analysis`, and the lemmas of
`AnalyzerProperties` are proved about that function. The expressions of
`extract_excerpt` have their own functions: `Strings.Collapse` (the join of
`Strings.Words` by `Strings.JoinSpaced`) is `' '.join(excerpt.split())` at
`clara10.py:148`, and `TextUtils.Highlight`, built on `Strings.Replace`, is the
`replace` that wraps the match in `**` at line 149.

The model follows the code: `clean_text` only lower-cases and strips, a finding
has the six keys of the source's result dictionary, and the catalogue holds the
one consumer rule the code defines (`clara10.py:187-199`).

## Model

| member | source | states |
|---|---|---|
| Strings.Lower | clara10.py:128 | `str.lower` keeps the length and lower-cases each character |
| Strings.LowerIsLower | clara10.py:128 | the result of `lower` is lower-case |
| Strings.LowerOfLower | clara10.py:128 | `lower` leaves lower-case text unchanged |
| Strings.LeadingSpaces | clara10.py:128 | counts the whitespace prefix that `strip` removes; the next character is not whitespace |
| Strings.TrailingSpaces | clara10.py:128 | counts the whitespace suffix that `strip` removes; the character before it is not whitespace |
| Strings.Strip | clara10.py:128 | `strip` gives the text between the leading and trailing whitespace, which starts and ends with a non-space character |
| Strings.StripOfStripped | clara10.py:128 | stripping text that has no edge whitespace changes nothing |
| Strings.NonSpaceAppend | clara10.py:148 | the non-whitespace content of a concatenation is the concatenation of the contents |
| Strings.LeadingWord | clara10.py:148 | the first word is the longest whitespace-free prefix |
| Strings.Words | clara10.py:148 | `split()` gives nonempty words without whitespace |
| Strings.WordsAtSpace | clara10.py:148 | `split()` cuts at every whitespace character: the words of a text with whitespace in it are the words before it followed by the words after it |
| Strings.WordsContent | clara10.py:148 | the words of `split()` laid end to end are the text's non-whitespace content |
| Strings.JoinContent | clara10.py:148 | `' '.join` of whitespace-free words adds only spaces |
| Strings.CollapseKeepsContent | clara10.py:148 | `' '.join(s.split())` keeps every non-whitespace character, in order |
| Strings.JoinCollapsed | clara10.py:148 | joining nonempty whitespace-free words gives text whose only whitespace is single inner spaces |
| Strings.CollapseIsCollapsed | clara10.py:148 | collapsed text has no leading, trailing or repeated whitespace |
| Strings.WordsOfJoin | clara10.py:148 | `split()` undoes `' '.join` of nonempty whitespace-free words (round trip) |
| Strings.CollapseIdempotent | clara10.py:148 | collapsing twice is collapsing once |
| Strings.CollapseNoLonger | clara10.py:148 | collapsing never lengthens the text |
| Strings.CollapseFromInsideWord | clara10.py:148 | collapsing text that starts inside its first word gives the collapse of the whole text minus the part of the word cut off |
| Strings.CollapseKeepsPrefix | clara10.py:148 | a nonempty start of the text whose only whitespace is single inner spaces is still the start of the collapsed text |
| Strings.CollapseKeepsPhrase | clara10.py:148 | any nonempty piece of the text whose only whitespace is single inner spaces is still a piece of the collapsed text |
| Strings.ReplaceAbsent | clara10.py:149 | `replace` of a string that does not occur changes nothing |
| Strings.ReplaceShowsNew | clara10.py:149 | when the target occurs (the empty target always does), the replacement occurs in the result |
| TextUtils.CleanText | clara10.py:123-128 | missing, non-string or empty text gives ""; otherwise the result is the lower-cased text with its leading and trailing whitespace removed and nothing else, so it starts and ends with a non-space |
| TextUtils.CleanTextIdempotent | clara10.py:123-128 | cleaning cleaned text changes nothing |
| TextUtils.CleanTextKeepsContent | clara10.py:123-128 | cleaning removes only whitespace, so the non-whitespace content is that of the lower-cased text |
| TextUtils.Window | clara10.py:145-146 | the window holds the match, stays inside the text and extends exactly `MAX_EXCERPT_LENGTH` (100, line 117) characters on each side unless clipped by the text's ends |
| TextUtils.WindowText | clara10.py:145-148 | the shown window is the collapse (`' '.join(window.split())`) of the window: at most the match plus 200 characters long, single spaces only, with the window's content unchanged |
| TextUtils.ExtractExcerpt | clara10.py:130-154 | a malformed pattern gives "Erro ao extrair trecho", no match gives "Trecho não encontrado", and a match gives text framed by "..." on both sides |
| TextUtils.ExcerptHighlightsMatch | clara10.py:143-150 | a lower-case match (empty or not) whose only whitespace is single spaces between words appears in the excerpt wrapped in `**` |
| ContractRules.RulesForRole | clara10.py:201-204 | a known role gets its catalogue entry, and an unknown role gets no rules instead of an error |
| Regex.SkipInvalid | clara10.py:232-239 | reading a malformed pattern as "no match" gives an engine that never fails, agrees with the original elsewhere, and is sound when the original is |
| ContractAnalyzer.ErrorResult | clara10.py:248-258 | the error result has score 0, empty law reference and excerpt, and the given message |
| ContractAnalyzer.NoIssuesResult | clara10.py:260-270 | the no-issues result has score 0 and empty law reference and excerpt |
| ContractAnalyzer.AnalysisResult | clara10.py:272-282 | a finding copies its rule's name, score, explanation, solution and law reference; an empty excerpt becomes "Trecho não encontrado" |
| ContractAnalyzer.FirstFound | clara10.py:231-239 | picks the first pattern found: every earlier pattern is not found or malformed, and with no pick no pattern is found |
| ContractAnalyzer.RuleFinding | clara10.py:230-236 | a rule contributes at most one finding, one exactly when it fires, and that finding describes the rule |
| ContractAnalyzer.Collect | clara10.py:230-239 | applying the rules gives no more findings than there are rules |
| ContractAnalyzer.Firing | clara10.py:230-236 | the rules that fire are exactly the rules of the list that fire |
| ContractAnalyzer.ApplyRules | clara10.py:230-239 | the nested loop, with its `break` after the first pattern found and its `continue` past a malformed pattern, computes the findings of the rules in catalogue order |
| ContractAnalyzer.Analyze | clara10.py:210-246 | computes the specified analysis; the list is never empty, is ranked by non-increasing score, and is the single error result for missing or empty text |
| AnalyzerProperties.CollectIsFiring | clara10.py:230-236 | the findings before ranking are exactly the firing rules, one finding each, in catalogue order |
| AnalyzerProperties.FiringEmpty | clara10.py:230-236 | no rule fires exactly when the firing list is empty |
| AnalyzerProperties.CollectEmpty | clara10.py:230-241 | there are no findings exactly when no rule fires |
| AnalyzerProperties.FindingHighlightsMatch | clara10.py:233-235 | a finding's excerpt shows the match of its first pattern found wrapped in `**` whenever the match's only whitespace is single spaces between words |
| ContractAnalyzer.FirstPatternFoundReported | clara10.py:231-236 | a rule's finding takes its excerpt from the first pattern found, whatever earlier patterns gave |
| AnalyzerProperties.FirstFoundIgnoresInvalid | clara10.py:237-239 | a malformed pattern is passed over like one that is not found, and later patterns are still tried |
| AnalyzerProperties.CollectIgnoresInvalid | clara10.py:230-239 | malformed patterns change no rule's finding beyond the pattern being skipped |
| AnalyzerProperties.AnalysisIgnoresInvalid | clara10.py:230-242 | the analysis equals the analysis with every malformed pattern read as "no match" |
| AnalyzerProperties.ErrorOnlyForInvalidText | clara10.py:222-223 | the single error result comes back exactly when the text is missing, non-string or empty |
| AnalyzerProperties.NoIssuesOnlyWhenNothingFires | clara10.py:241-242 | a valid text gets the single no-issues result exactly when no rule of the role fires |
| AnalyzerProperties.UnknownRoleHasNoIssues | clara10.py:201-204 | a role the catalogue does not know gets the no-issues result for any valid text |
| AnalyzerProperties.FindingsRanked | clara10.py:241 | when some rule fires, the results are a permutation of the findings, in non-increasing score order, equal scores in catalogue order, one per firing rule |
| AnalyzerProperties.AnalysisShape | clara10.py:222-242 | the result list is never empty, has at most one entry per rule (or the one sentinel), and is ranked by score |
| AnalyzerProperties.ConsumerAnalysis | clara10.py:187-199 | for the consumer role, the first of the two cancellation patterns found gives one finding labelled "Proibição de cancelamento", score 8, "CDC Art. 51, IV", with that pattern's excerpt; with neither found, the no-issues result |
| Ranking.Insert | clara10.py:241 | insertion adds exactly the one item |
| Ranking.SortByKeyDesc | clara10.py:241 | the sort gives a permutation of its input |
| Ranking.InsertKeepsOrder | clara10.py:241 | inserting into a ranked list keeps it ranked |
| Ranking.SortIsOrdered | clara10.py:241 | the sorted list is in non-increasing key order |
| Ranking.InsertWithKey | clara10.py:241 | insertion puts the item before the existing items with its key |
| Ranking.SortIsStable | clara10.py:241 | items with equal keys keep their original order |

## Left out

- The regular-expression engine: it is a parameter, assumed only to report matches inside the text. The meaning of the two consumer patterns is therefore not modelled, and `ConsumerAnalysis` is stated in terms of whether each pattern is found.
- `re.IGNORECASE` is part of the search parameter. The text is searched after lower-casing, as the source does.
- Strings.Lower: `str.lower` is modelled for ASCII and the Latin-1 capitals, which cover Portuguese. Every character outside ASCII and Latin-1 is left unchanged, including the Latin Extended capitals such as "Ł" or "Œ" and the characters whose lower case is longer (such as "İ").
- The outer `except Exception` of `analyze` (`clara10.py:244-246`) and `extract_excerpt`'s handler for errors other than a malformed pattern: no operation of the model can raise. Logging is left out.
- TextUtils.ExcerptHighlightsMatch: covers only a match with no whitespace at its ends and single spaces inside. The source loses the highlight when the match has any other inner whitespace (a run of spaces, a tab, a newline): the collapse in `clara10.py:148` rewrites it and the `replace` in line 149 then looks for text that is no longer there. A single space at an end of the match is highlighted when it survives the collapse, and that case is not proved.
- AnalyzerProperties.FindingHighlightsMatch: covers only a match with no whitespace at its ends and single spaces inside, as `TextUtils.ExcerptHighlightsMatch` does and for the same reason: the source loses the highlight of a match with other inner whitespace, and a match with a space at an end is highlighted only when that space survives the collapse, which is not proved.
- DependencyManager, FileUtils.extract_text, GoogleSheetsManager, UIManager and ClaraApp: these are PDF/DOCX reading, network persistence and the user interface, with no engine logic.
- The rest of the catalogue: the source holds only the consumer rule (`clara10.py:197` leaves the others out), and so does the model.
