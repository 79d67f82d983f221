/**
  The regular-expression engine, seen from the outside. The engine itself is not
  modelled: an analysis receives it as a function from a pattern and a text to the
  outcome of one case-insensitive search.
 */
module Regex {

  /** What one search gives: no match, the leftmost match `[start, end)`, or the
      engine's refusal of a malformed pattern (`re.error`). */
  datatype MatchOutcome = NoMatch | Found(start: nat, end: nat) | Invalid

  /** A search function: pattern, then text. */
  type Matcher = (string, string) -> MatchOutcome

  /** A match, when there is one, lies inside the text searched. */
  predicate WithinText(outcome: MatchOutcome, text: string)
  {
    outcome.Found? ==> outcome.start <= outcome.end <= |text|
  }

  /** The engine never reports a match outside the text it was given. */
  ghost predicate Sound(search: Matcher)
  {
    forall pattern, text :: WithinText(search(pattern, text), text)
  }

  /** The same engine, except that a malformed pattern reads as "no match". */
  function SkipInvalid(search: Matcher): (tolerant: Matcher)
    ensures forall pattern, text :: tolerant(pattern, text).Invalid? == false
    ensures forall pattern, text :: !search(pattern, text).Invalid? ==> tolerant(pattern, text) == search(pattern, text)
    ensures forall pattern, text :: search(pattern, text).Invalid? ==> tolerant(pattern, text) == NoMatch
    ensures Sound(search) ==> Sound(tolerant)
  {
    (pattern, text) => var outcome := search(pattern, text); if outcome.Invalid? then NoMatch else outcome
  }
}
