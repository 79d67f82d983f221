/** Text helpers of the engine (`TextUtils`): normalisation and excerpt building. */
module TextUtils {

  import opened Wrappers
  import opened Strings
  import opened Regex
  import Config

  /** Placeholder shown when the pattern is not found in the text. */
  const NotFoundExcerpt: string := "Trecho não encontrado"

  /** Placeholder shown when the search itself fails. */
  const ExcerptFailure: string := "Erro ao extrair trecho"

  /** `clean_text`: lower-cases and strips the text; a missing, non-string or empty
      text gives the empty string. */
  function CleanText(text: Option<string>): (cleaned: string)
    ensures text.None? || text.value == [] ==> cleaned == []
    ensures IsLower(cleaned)
    ensures cleaned != [] ==> !IsSpace(cleaned[0]) && !IsSpace(cleaned[|cleaned| - 1])
    ensures text.Some? && text.value != [] ==>
      StrippedAt(Lower(text.value), cleaned, LeadingSpaces(Lower(text.value)))
  {
    if text.None? || text.value == [] then []
    else
      var lowered := Lower(text.value);
      LowerIsLower(text.value);
      Strip(lowered)
  }

  /** Cleaning is idempotent. */
  lemma CleanTextIdempotent(text: Option<string>)
    ensures CleanText(Some(CleanText(text))) == CleanText(text)
  {
    var cleaned := CleanText(text);
    if cleaned != [] {
      LowerOfLower(cleaned);
      StripOfStripped(cleaned);
    }
  }

  /** Cleaning removes whitespace only: the visible characters are those of the
      lower-cased text (that the removed whitespace is at the two ends is stated by
      `CleanText` itself). */
  lemma CleanTextKeepsContent(s: string)
    ensures NonSpace(CleanText(Some(s))) == NonSpace(Lower(s))
  {
    if s != [] {
      var lowered := Lower(s);
      StrippedContent(lowered, CleanText(Some(s)), LeadingSpaces(lowered));
    }
  }

  /** Removing whitespace at the two ends keeps the visible characters. */
  lemma StrippedContent(s: string, r: string, lead: nat)
    requires StrippedAt(s, r, lead)
    ensures NonSpace(r) == NonSpace(s)
  {
    var tail := s[lead..];
    assert tail[..|r|] == r;
    assert tail[|r|..] == s[lead + |r|..];
    AllSpaceHasNoContent(s[..lead]);
    AllSpaceHasNoContent(s[lead + |r|..]);
    NonSpaceSplit(s, lead);
    NonSpaceSplit(tail, |r|);
  }

  lemma NonSpaceSplit(s: string, i: nat)
    requires i <= |s|
    ensures NonSpace(s) == NonSpace(s[..i]) + NonSpace(s[i..])
  {
    assert s == s[..i] + s[i..];
    NonSpaceAppend(s[..i], s[i..]);
  }

  lemma {:induction false} AllSpaceHasNoContent(s: string)
    requires AllSpace(s)
    ensures NonSpace(s) == []
  {
    if s != [] {
      AllSpaceHasNoContent(s[1..]);
    }
  }

  /** The window around a match `[start, end)`: up to `MaxExcerptLength` characters on
      each side, clipped to the text. */
  function Window(size: nat, start: nat, end: nat): (bounds: (nat, nat))
    requires start <= end <= size
    ensures bounds.0 <= start && end <= bounds.1 <= size
    ensures start - bounds.0 <= Config.MaxExcerptLength && bounds.1 - end <= Config.MaxExcerptLength
    ensures bounds.0 == 0 || start - bounds.0 == Config.MaxExcerptLength
    ensures bounds.1 == size || bounds.1 - end == Config.MaxExcerptLength
  {
    var before := if start >= Config.MaxExcerptLength then start - Config.MaxExcerptLength else 0;
    var after := if end + Config.MaxExcerptLength <= size then end + Config.MaxExcerptLength else size;
    (before, after)
  }

  /** The text of the window around a match, whitespace collapsed. */
  function WindowText(text: string, start: nat, end: nat): (shown: string)
    requires start <= end <= |text|
    ensures |shown| <= end - start + 2 * Config.MaxExcerptLength
    ensures Collapsed(shown)
    ensures var bounds := Window(|text|, start, end); NonSpace(shown) == NonSpace(text[bounds.0..bounds.1])
    ensures var bounds := Window(|text|, start, end); shown == Collapse(text[bounds.0..bounds.1])
  {
    var bounds := Window(|text|, start, end);
    var window := text[bounds.0..bounds.1];
    CollapseNoLonger(window);
    CollapseIsCollapsed(window);
    CollapseKeepsContent(window);
    Collapse(window)
  }

  /** Every occurrence of the lower-cased match is shown wrapped in `**`. */
  function Highlight(shown: string, matched: string): string
  {
    Replace(shown, Lower(matched), "**" + matched + "**")
  }

  /** `extract_excerpt`: searches `pattern` in `text` and frames the window around the
      match in `...`; a pattern not found and a failed search give placeholders. */
  function ExtractExcerpt(text: string, pattern: string, search: Matcher): (excerpt: string)
    requires WithinText(search(pattern, text), text)
    ensures search(pattern, text).Invalid? ==> excerpt == ExcerptFailure
    ensures search(pattern, text).NoMatch? ==> excerpt == NotFoundExcerpt
    ensures search(pattern, text).Found? ==>
      6 <= |excerpt| && excerpt[..3] == "..." && excerpt[|excerpt| - 3..] == "..."
  {
    match search(pattern, text)
    case Invalid => ExcerptFailure
    case NoMatch => NotFoundExcerpt
    case Found(start, end) =>
      "..." + Highlight(WindowText(text, start, end), text[start..end]) + "..."
  }

  /** When the matched text is lower-case and its only whitespace is single spaces
      between words, the excerpt shows it highlighted. */
  lemma ExcerptHighlightsMatch(text: string, pattern: string, search: Matcher)
    requires WithinText(search(pattern, text), text)
    requires search(pattern, text).Found?
    requires var o := search(pattern, text);
      Collapsed(text[o.start..o.end]) && IsLower(text[o.start..o.end])
    ensures var o := search(pattern, text);
      Occurs("**" + text[o.start..o.end] + "**", ExtractExcerpt(text, pattern, search))
  {
    var o := search(pattern, text);
    var matched := text[o.start..o.end];
    var bounds := Window(|text|, o.start, o.end);
    var lo, hi := bounds.0, bounds.1;
    var window := text[lo..hi];
    SliceOfSlice(text, lo, hi, o.start - lo, o.end - lo);
    assert OccursAt(matched, window, o.start - lo);
    var shown := WindowText(text, o.start, o.end);
    assert shown == Collapse(window);
    if matched != [] {
      CollapseKeepsPhrase(matched, window, o.start - lo);
    } else {
      assert OccursAt(matched, shown, 0);
    }
    var i :| OccursAt(matched, shown, i);
    LowerOfLower(matched);
    var marked := "**" + matched + "**";
    ReplaceShowsNew(shown, matched, marked, i);
    var h := Highlight(shown, matched);
    var j :| OccursAt(marked, h, j);
    OccursInSuffix(marked, "...", h, j);
    OccursInPrefix(marked, "..." + h, "...", 3 + j);
    assert ExtractExcerpt(text, pattern, search) == "..." + h + "...";
  }
}
