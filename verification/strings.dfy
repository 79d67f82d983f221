/**
  The Python string operations the engine relies on, written out: `str.isspace`,
  `str.lower`, `str.strip`, `str.split()` with no separator, `' '.join` and
  `str.replace`.
 */
module Strings {

  /** `str.isspace()` of a single character: Python's whitespace characters. */
  predicate IsSpace(c: char)
  {
    || ('\t' <= c <= '\r')
    || ('\U{1C}' <= c <= ' ')
    || c == '\U{85}' || c == '\U{A0}' || c == '\U{1680}'
    || ('\U{2000}' <= c <= '\U{200A}')
    || c == '\U{2028}' || c == '\U{2029}' || c == '\U{202F}' || c == '\U{205F}' || c == '\U{3000}'
  }

  /** No character of `s` is whitespace. */
  predicate NoSpace(s: string)
  {
    forall i :: 0 <= i < |s| ==> !IsSpace(s[i])
  }

  /** Every character of `s` is whitespace. */
  predicate AllSpace(s: string)
  {
    forall i :: 0 <= i < |s| ==> IsSpace(s[i])
  }

  // ---------------------------------------------------------------- lower

  /** Lower-casing of one character: ASCII and the Latin-1 letters, which hold every
      accented capital of Portuguese. */
  function LowerChar(c: char): char
  {
    if 'A' <= c <= 'Z' || ('\U{C0}' <= c <= '\U{DE}' && c != '\U{D7}') then
      (c as int + 32) as char
    else
      c
  }

  lemma LowerCharFacts(c: char)
    ensures LowerChar(LowerChar(c)) == LowerChar(c)
    ensures IsSpace(LowerChar(c)) == IsSpace(c)
  {
  }

  /** `s` is already lower-case. */
  predicate IsLower(s: string)
  {
    forall i :: 0 <= i < |s| ==> LowerChar(s[i]) == s[i]
  }

  /** `str.lower()`. */
  function Lower(s: string): (r: string)
    ensures |r| == |s|
    ensures forall i :: 0 <= i < |s| ==> r[i] == LowerChar(s[i])
  {
    if s == [] then [] else [LowerChar(s[0])] + Lower(s[1..])
  }

  lemma LowerIsLower(s: string)
    ensures IsLower(Lower(s))
  {
    forall i | 0 <= i < |s| ensures LowerChar(Lower(s)[i]) == Lower(s)[i] {
      LowerCharFacts(s[i]);
    }
  }

  /** Lower-casing text that is already lower-case changes nothing. */
  lemma LowerOfLower(s: string)
    requires IsLower(s)
    ensures Lower(s) == s
  {
  }

  // ---------------------------------------------------------------- strip

  /** How many whitespace characters `s` starts with. */
  function LeadingSpaces(s: string): (n: nat)
    ensures n <= |s| && AllSpace(s[..n])
    ensures n < |s| ==> !IsSpace(s[n])
  {
    if s != [] && IsSpace(s[0]) then 1 + LeadingSpaces(s[1..]) else 0
  }

  /** How many whitespace characters `s` ends with. */
  function TrailingSpaces(s: string): (n: nat)
    ensures n <= |s| && AllSpace(s[|s| - n..])
    ensures n < |s| ==> !IsSpace(s[|s| - n - 1])
  {
    if s != [] && IsSpace(s[|s| - 1]) then 1 + TrailingSpaces(s[..|s| - 1]) else 0
  }

  /** `r` is `s` with `lead` whitespace characters removed in front and only
      whitespace removed at the back. */
  ghost predicate StrippedAt(s: string, r: string, lead: nat)
  {
    && lead + |r| <= |s|
    && r == s[lead..lead + |r|]
    && AllSpace(s[..lead])
    && AllSpace(s[lead + |r|..])
  }

  /** `str.strip()`: `lstrip` then `rstrip`. */
  function Strip(s: string): (r: string)
    ensures r != [] ==> !IsSpace(r[0]) && !IsSpace(r[|r| - 1])
    ensures StrippedAt(s, r, LeadingSpaces(s))
  {
    var lead := LeadingSpaces(s);
    var rest := s[lead..];
    var trail := TrailingSpaces(rest);
    assert rest[|rest| - trail..] == s[|s| - trail..];
    assert trail < |rest| ==> rest[|rest| - trail - 1] == s[|s| - trail - 1];
    StripBetween(s, lead, trail);
    s[lead..|s| - trail]
  }

  /** What is left between `lead` spaces in front and `trail` spaces at the back. */
  lemma StripBetween(s: string, lead: nat, trail: nat)
    requires lead + trail <= |s|
    requires AllSpace(s[..lead]) && (lead < |s| ==> !IsSpace(s[lead]))
    requires AllSpace(s[|s| - trail..]) && (lead + trail < |s| ==> !IsSpace(s[|s| - trail - 1]))
    ensures var r := s[lead..|s| - trail];
      (r != [] ==> !IsSpace(r[0]) && !IsSpace(r[|r| - 1])) && StrippedAt(s, r, lead)
  {
  }

  /** Stripping text without whitespace at either end changes nothing. */
  lemma StripOfStripped(s: string)
    requires s != [] ==> !IsSpace(s[0]) && !IsSpace(s[|s| - 1])
    ensures Strip(s) == s
  {
  }

  // ---------------------------------------------------------------- split / join

  /** The non-whitespace characters of `s`, in order. */
  function NonSpace(s: string): string
  {
    if s == [] then [] else (if IsSpace(s[0]) then [] else [s[0]]) + NonSpace(s[1..])
  }

  lemma {:induction false} NonSpaceAppend(a: string, b: string)
    ensures NonSpace(a + b) == NonSpace(a) + NonSpace(b)
  {
    if a != [] {
      var head := if IsSpace(a[0]) then [] else [a[0]];
      assert (a + b)[0] == a[0];
      assert (a + b)[1..] == a[1..] + b;
      NonSpaceAppend(a[1..], b);
      assert NonSpace(a + b) == head + NonSpace(a[1..] + b);
      assert NonSpace(a) == head + NonSpace(a[1..]);
    } else {
      assert a + b == b;
    }
  }

  lemma {:induction false} NonSpaceOfWord(w: string)
    requires NoSpace(w)
    ensures NonSpace(w) == w
  {
    if w != [] {
      NonSpaceOfWord(w[1..]);
    }
  }

  /** The first word of `s`: its longest prefix without whitespace. */
  function LeadingWord(s: string): (w: string)
    ensures |w| <= |s| && w == s[..|w|]
    ensures NoSpace(w)
    ensures |w| < |s| ==> IsSpace(s[|w|])
  {
    if s == [] || IsSpace(s[0]) then [] else [s[0]] + LeadingWord(s[1..])
  }

  /** `str.split()` with no separator: the maximal runs of non-whitespace, in order. */
  function Words(s: string): (ws: seq<string>)
    ensures forall k :: 0 <= k < |ws| ==> ws[k] != [] && NoSpace(ws[k])
    decreases |s|
  {
    if s == [] then []
    else if IsSpace(s[0]) then Words(s[1..])
    else var w := LeadingWord(s); [w] + Words(s[|w|..])
  }

  /** The words laid end to end. */
  function Concat(ws: seq<string>): string
  {
    if ws == [] then [] else ws[0] + Concat(ws[1..])
  }

  /** `' '.join(ws)`. */
  function JoinSpaced(ws: seq<string>): string
  {
    if ws == [] then []
    else if |ws| == 1 then ws[0]
    else ws[0] + " " + JoinSpaced(ws[1..])
  }

  /** `' '.join(s.split())`: whitespace runs become one space, and leading and
      trailing whitespace go. */
  function Collapse(s: string): string
  {
    JoinSpaced(Words(s))
  }

  /** The shape of collapsed text: its only whitespace is single spaces between
      two other characters. */
  predicate Collapsed(s: string)
  {
    forall i :: 0 <= i < |s| && IsSpace(s[i]) ==> s[i] == ' ' && 0 < i < |s| - 1 && !IsSpace(s[i + 1])
  }

  lemma {:induction false} WordsContent(s: string)
    ensures Concat(Words(s)) == NonSpace(s)
    decreases |s|
  {
    if s != [] {
      if IsSpace(s[0]) {
        WordsContent(s[1..]);
      } else {
        var w := LeadingWord(s);
        var rest := s[|w|..];
        assert s == w + rest;
        WordsContent(rest);
        NonSpaceAppend(w, rest);
        NonSpaceOfWord(w);
        assert ([w] + Words(rest))[1..] == Words(rest);
      }
    }
  }

  lemma {:induction false} JoinContent(ws: seq<string>)
    requires forall k :: 0 <= k < |ws| ==> NoSpace(ws[k])
    ensures NonSpace(JoinSpaced(ws)) == Concat(ws)
  {
    if |ws| == 1 {
      NonSpaceOfWord(ws[0]);
      assert ws[1..] == [];
    } else if |ws| > 1 {
      JoinContent(ws[1..]);
      NonSpaceOfWord(ws[0]);
      NonSpaceAppend(ws[0], " ");
      NonSpaceAppend(ws[0] + " ", JoinSpaced(ws[1..]));
      assert NonSpace(" ") == [];
    }
  }

  /** Collapsing whitespace never adds, drops or reorders a visible character. */
  lemma CollapseKeepsContent(s: string)
    ensures NonSpace(Collapse(s)) == NonSpace(s)
  {
    WordsContent(s);
    JoinContent(Words(s));
  }

  lemma {:induction false} JoinCollapsed(ws: seq<string>)
    requires forall k :: 0 <= k < |ws| ==> ws[k] != [] && NoSpace(ws[k])
    ensures Collapsed(JoinSpaced(ws))
    ensures ws != [] ==> JoinSpaced(ws) != [] && !IsSpace(JoinSpaced(ws)[0])
  {
    if |ws| > 1 {
      JoinCollapsed(ws[1..]);
      var w, tail := ws[0], JoinSpaced(ws[1..]);
      var r := w + " " + tail;
      assert forall i :: 0 <= i < |w| ==> r[i] == w[i];
      assert r[|w|] == ' ' && r[|w| + 1] == tail[0];
      forall i | |w| < i < |r| && IsSpace(r[i])
        ensures r[i] == ' ' && 0 < i < |r| - 1 && !IsSpace(r[i + 1])
      {
        assert r[i] == tail[i - |w| - 1];
        assert i + 1 < |r| ==> r[i + 1] == tail[i - |w|];
      }
    }
  }

  /** The result of a collapse has the collapsed shape. */
  lemma CollapseIsCollapsed(s: string)
    ensures Collapsed(Collapse(s))
  {
    JoinCollapsed(Words(s));
  }

  /** Collapse of a text whose first word is its only word. */
  lemma CollapseAtLastWord(s: string)
    requires s != [] && !IsSpace(s[0])
    requires Words(s[|LeadingWord(s)|..]) == []
    ensures Collapse(s) == LeadingWord(s)
  {
    var w := LeadingWord(s);
    assert Words(s) == [w];
  }

  /** Collapse of a text with more words after its first. */
  lemma CollapseAtInnerWord(s: string)
    requires s != [] && !IsSpace(s[0])
    requires Words(s[|LeadingWord(s)|..]) != []
    ensures Collapse(s) == LeadingWord(s) + " " + Collapse(s[|LeadingWord(s)|..])
  {
    var w := LeadingWord(s);
    var ws := Words(s[|w|..]);
    assert Words(s) == [w] + ws;
    assert ([w] + ws)[1..] == ws;
  }

  /** Splitting a spaced join of words gives the words back. */
  lemma {:induction false} WordsOfJoin(ws: seq<string>)
    requires forall k :: 0 <= k < |ws| ==> ws[k] != [] && NoSpace(ws[k])
    ensures Words(JoinSpaced(ws)) == ws
  {
    if |ws| == 1 {
      LeadingWordOf(ws[0], []);
      assert ws[0] + [] == ws[0];
      assert ws[0][|ws[0]|..] == [];
    } else if |ws| > 1 {
      var w, tail := ws[0], JoinSpaced(ws[1..]);
      var r := w + " " + tail;
      assert r == w + (" " + tail);
      LeadingWordOf(w, " " + tail);
      assert r[|w|..] == " " + tail;
      assert (" " + tail)[1..] == tail;
      WordsOfJoin(ws[1..]);
    }
  }

  lemma {:induction false} LeadingWordOf(w: string, rest: string)
    requires w != [] && NoSpace(w)
    requires rest != [] ==> IsSpace(rest[0])
    ensures LeadingWord(w + rest) == w
  {
    if |w| > 1 {
      assert (w + rest)[1..] == w[1..] + rest;
      LeadingWordOf(w[1..], rest);
    } else {
      assert (w + rest)[1..] == rest;
    }
  }

  /** The first word of text that has whitespace after `a` lies within `a`. */
  lemma {:induction false} LeadingWordBeforeSpace(a: string, t: string)
    requires t != [] && IsSpace(t[0])
    ensures LeadingWord(a + t) == LeadingWord(a)
    decreases |a|
  {
    if a == [] {
      assert a + t == t;
    } else {
      assert (a + t)[0] == a[0];
      if !IsSpace(a[0]) {
        assert (a + t)[1..] == a[1..] + t;
        LeadingWordBeforeSpace(a[1..], t);
      }
    }
  }

  /** `split()` cuts at every whitespace character: the words of `a`, a whitespace
      character and `b` are the words of `a` followed by the words of `b`, so no
      word runs across whitespace. */
  lemma {:induction false} WordsAtSpace(a: string, c: char, b: string)
    requires IsSpace(c)
    ensures Words(a + [c] + b) == Words(a) + Words(b)
    decreases |a|
  {
    var s := a + [c] + b;
    if a == [] {
      assert s == [c] + b && s[1..] == b;
    } else if IsSpace(a[0]) {
      assert s[0] == a[0] && s[1..] == a[1..] + [c] + b;
      WordsAtSpace(a[1..], c, b);
    } else {
      var w := LeadingWord(a);
      assert s == a + ([c] + b);
      LeadingWordBeforeSpace(a, [c] + b);
      assert s[0] == a[0] && s[|w|..] == a[|w|..] + [c] + b;
      WordsAtSpace(a[|w|..], c, b);
    }
  }

  /** Collapsing twice is collapsing once. */
  lemma CollapseIdempotent(s: string)
    ensures Collapse(Collapse(s)) == Collapse(s)
  {
    WordsOfJoin(Words(s));
  }

  /** A collapse is never longer than the text collapsed. */
  lemma {:induction false} CollapseNoLonger(s: string)
    ensures |Collapse(s)| <= |s|
    decreases |s|
  {
    if s != [] {
      if IsSpace(s[0]) {
        CollapseNoLonger(s[1..]);
      } else {
        var w := LeadingWord(s);
        var rest := s[|w|..];
        if Words(rest) == [] {
          CollapseAtLastWord(s);
        } else {
          CollapseAtInnerWord(s);
          assert rest != [] && IsSpace(rest[0]);
          assert Words(rest) == Words(rest[1..]);
          CollapseNoLonger(rest[1..]);
        }
      }
    }
  }

  // ---------------------------------------------------------------- occurrences and replace

  lemma SliceOfSlice(s: string, lo: nat, hi: nat, a: nat, b: nat)
    requires lo <= hi <= |s| && a <= b <= hi - lo
    ensures s[lo..hi][a..b] == s[lo + a..lo + b]
  {
    assert forall k :: 0 <= k < b - a ==> s[lo..hi][a..b][k] == s[lo + a + k];
  }

  /** `p` stands in `s` at index `i`. */
  predicate OccursAt(p: string, s: string, i: int)
  {
    0 <= i && i + |p| <= |s| && s[i..i + |p|] == p
  }

  /** `p in s` for strings. */
  ghost predicate Occurs(p: string, s: string)
  {
    exists i :: OccursAt(p, s, i)
  }

  lemma OccursInPrefix(p: string, a: string, b: string, i: int)
    requires OccursAt(p, a, i)
    ensures OccursAt(p, a + b, i)
  {
    assert (a + b)[i..i + |p|] == a[i..i + |p|];
  }

  lemma OccursInSuffix(p: string, a: string, b: string, j: int)
    requires OccursAt(p, b, j)
    ensures OccursAt(p, a + b, |a| + j)
  {
    assert (a + b)[|a| + j..|a| + j + |p|] == b[j..j + |p|];
  }

  /** A suffix of collapsed text that starts on a non-space is collapsed. */
  lemma CollapsedSuffix(y: string, k: nat)
    requires Collapsed(y) && k < |y| && !IsSpace(y[k])
    ensures Collapsed(y[k..])
  {
    forall i | 0 <= i < |y[k..]| && IsSpace(y[k..][i])
      ensures y[k..][i] == ' ' && 0 < i < |y[k..]| - 1 && !IsSpace(y[k..][i + 1])
    {
      assert y[k..][i] == y[k + i];
    }
  }

  /** Collapsing from inside the first word: the part of the word cut off is all
      that differs. */
  lemma CollapseFromInsideWord(s: string, i: nat)
    requires s != [] && !IsSpace(s[0]) && i < |LeadingWord(s)|
    ensures Collapse(s) == s[..i] + Collapse(s[i..])
  {
    var n := |LeadingWord(s)|;
    var rest, u, t := s[n..], s[i..n], s[i..];
    SuffixSplit(s, i, n);
    assert NoSpace(u) by {
      SliceOfSlice(s, 0, n, i, n);
    }
    LeadingWordOf(u, rest);
    assert t[|u|..] == rest;
    if Words(rest) == [] {
      CollapseAtLastWord(s);
      CollapseAtLastWord(t);
      CutLastWord(s, i, n);
    } else {
      CollapseAtInnerWord(s);
      CollapseAtInnerWord(t);
      CutInnerWord(s, i, n, Collapse(rest));
    }
  }

  lemma SuffixSplit(s: string, i: nat, n: nat)
    requires i <= n <= |s|
    ensures s[i..] == s[i..n] + s[n..]
  {
  }

  lemma CutLastWord(s: string, i: nat, n: nat)
    requires i <= n <= |s|
    requires Collapse(s) == s[..n] && Collapse(s[i..]) == s[i..n]
    ensures Collapse(s) == s[..i] + Collapse(s[i..])
  {
    assert s[..n] == s[..i] + s[i..n];
  }

  lemma CutInnerWord(s: string, i: nat, n: nat, tail: string)
    requires i <= n <= |s|
    requires Collapse(s) == s[..n] + " " + tail && Collapse(s[i..]) == s[i..n] + " " + tail
    ensures Collapse(s) == s[..i] + Collapse(s[i..])
  {
    assert s[..n] == s[..i] + s[i..n];
  }

  /** Collapsed text at the start of a text is still at the start of its collapse. */
  lemma {:induction false} CollapseKeepsPrefix(y: string, s: string)
    requires y != [] && Collapsed(y) && OccursAt(y, s, 0)
    ensures OccursAt(y, Collapse(s), 0)
    decreases |s|
  {
    assert s[0] == y[0];
    var w := LeadingWord(s);
    var rest := s[|w|..];
    if |y| <= |w| {
      PrefixOfLeadingWord(y, s);
    } else {
      var n := |w|;
      assert s[n] == y[n];
      assert y[n] == ' ' && n + 1 < |y| && !IsSpace(y[n + 1]);
      var y2, s2 := y[n + 1..], s[n + 1..];
      CollapsedSuffix(y, n + 1);
      assert s2[..|y2|] == y2;
      CollapseKeepsPrefix(y2, s2);
      CollapseAfterSpace(s);
      assert y[..n] == w;
      SplitAtSpace(y, n);
      OccursAtFront(w + " ", y2, Collapse(s2));
    }
  }

  /** Collapse of a text whose first word is followed by a single space and more text. */
  lemma CollapseAfterSpace(s: string)
    requires s != [] && !IsSpace(s[0])
    requires |LeadingWord(s)| + 1 < |s| && !IsSpace(s[|LeadingWord(s)| + 1])
    ensures Collapse(s) == (LeadingWord(s) + " ") + Collapse(s[|LeadingWord(s)| + 1..])
  {
    var n := |LeadingWord(s)|;
    var rest := s[n..];
    assert rest[1..] == s[n + 1..];
    assert Words(rest) == Words(s[n + 1..]);
    assert Words(s[n + 1..]) != [];
    CollapseAtInnerWord(s);
  }

  lemma SplitAtSpace(y: string, n: nat)
    requires n < |y| && y[n] == ' '
    ensures y == (y[..n] + " ") + y[n + 1..]
  {
    assert y == y[..n] + [y[n]] + y[n + 1..];
  }

  lemma PrefixOfLeadingWord(y: string, s: string)
    requires s != [] && !IsSpace(s[0])
    requires OccursAt(y, s, 0) && |y| <= |LeadingWord(s)|
    ensures OccursAt(y, Collapse(s), 0)
  {
    var w := LeadingWord(s);
    var rest := s[|w|..];
    assert w[..|y|] == y;
    if Words(rest) == [] {
      CollapseAtLastWord(s);
    } else {
      CollapseAtInnerWord(s);
      OccursInPrefix(y, w, " ", 0);
      OccursInPrefix(y, w + " ", Collapse(rest), 0);
    }
  }

  lemma OccursAtFront(a: string, p: string, s: string)
    requires OccursAt(p, s, 0)
    ensures OccursAt(a + p, a + s, 0)
  {
    assert (a + s)[..|a| + |p|] == a + s[..|p|];
  }

  /** A piece of a text whose only whitespace is single inner spaces survives the
      collapse of the text. */
  lemma {:induction false} CollapseKeepsPhrase(y: string, s: string, i: int)
    requires y != [] && Collapsed(y) && OccursAt(y, s, i)
    ensures Occurs(y, Collapse(s))
    decreases |s|
  {
    if IsSpace(s[0]) {
      assert i != 0 by { assert s[i] == y[0]; }
      assert s[1..][i - 1..i - 1 + |y|] == s[i..i + |y|];
      CollapseKeepsPhrase(y, s[1..], i - 1);
    } else {
      var w := LeadingWord(s);
      if i < |w| {
        PhraseFromLeadingWord(y, s, i);
      } else {
        var rest := s[|w|..];
        assert rest[i - |w|..i - |w| + |y|] == s[i..i + |y|];
        CollapseKeepsPhrase(y, rest, i - |w|);
        var j :| OccursAt(y, Collapse(rest), j);
        PieceAfterLeadingWord(y, s, j);
      }
    }
  }

  lemma PhraseFromLeadingWord(y: string, s: string, i: nat)
    requires s != [] && !IsSpace(s[0]) && i < |LeadingWord(s)|
    requires y != [] && Collapsed(y) && OccursAt(y, s, i)
    ensures Occurs(y, Collapse(s))
  {
    var t := s[i..];
    OccursInDrop(y, s, i);
    CollapseKeepsPrefix(y, t);
    CollapseFromInsideWord(s, i);
    OccursInSuffix(y, s[..i], Collapse(t), 0);
  }

  lemma OccursInDrop(p: string, s: string, i: nat)
    requires OccursAt(p, s, i)
    ensures OccursAt(p, s[i..], 0)
  {
    assert s[i..][..|p|] == s[i..i + |p|];
  }

  lemma PieceAfterLeadingWord(y: string, s: string, j: int)
    requires s != [] && !IsSpace(s[0])
    requires y != [] && OccursAt(y, Collapse(s[|LeadingWord(s)|..]), j)
    ensures Occurs(y, Collapse(s))
  {
    var w := LeadingWord(s);
    var rest := s[|w|..];
    var c := Collapse(rest);
    assert |c| > 0;
    assert Words(rest) != [];
    CollapseAtInnerWord(s);
    var a := w + " ";
    assert Collapse(s) == a + c;
    OccursInSuffix(y, a, c, j);
    assert Occurs(y, a + c);
  }

  /** `repl` before every character of `s` and once more at the end: what
      `s.replace("", repl)` gives. */
  function InsertEverywhere(s: string, repl: string): string
  {
    if s == [] then repl else repl + [s[0]] + InsertEverywhere(s[1..], repl)
  }

  /** `s.replace(target, repl)`: every non-overlapping occurrence of `target`, scanning
      from the left, becomes `repl`. */
  function Replace(s: string, target: string, repl: string): string
    decreases |s|
  {
    if target == [] then InsertEverywhere(s, repl)
    else if |s| < |target| then s
    else if s[..|target|] == target then repl + Replace(s[|target|..], target, repl)
    else [s[0]] + Replace(s[1..], target, repl)
  }

  lemma OccursInTail(p: string, s: string)
    requires s != []
    ensures Occurs(p, s[1..]) ==> Occurs(p, s)
  {
    if j :| OccursAt(p, s[1..], j) {
      assert s[j + 1..j + 1 + |p|] == s[1..][j..j + |p|];
      assert OccursAt(p, s, j + 1);
    }
  }

  /** Replacing a string that does not occur changes nothing. */
  lemma {:induction false} ReplaceAbsent(s: string, target: string, repl: string)
    requires target != [] && !Occurs(target, s)
    ensures Replace(s, target, repl) == s
    decreases |s|
  {
    if |s| >= |target| {
      assert !OccursAt(target, s, 0);
      OccursInTail(target, s);
      ReplaceAbsent(s[1..], target, repl);
    }
  }

  /** Replacing a string that occurs leaves its replacement in the result. */
  lemma {:induction false} ReplaceShowsNew(s: string, target: string, repl: string, i: int)
    requires OccursAt(target, s, i)
    ensures Occurs(repl, Replace(s, target, repl))
    decreases |s|
  {
    if target == [] {
      assert InsertEverywhere(s, repl)[..|repl|] == repl;
      assert OccursAt(repl, Replace(s, target, repl), 0);
    } else if s[..|target|] == target {
      assert OccursAt(repl, Replace(s, target, repl), 0);
    } else {
      assert i > 0;
      assert s[1..][i - 1..i - 1 + |target|] == s[i..i + |target|];
      ReplaceShowsNew(s[1..], target, repl, i - 1);
      var j :| OccursAt(repl, Replace(s[1..], target, repl), j);
      OccursInSuffix(repl, [s[0]], Replace(s[1..], target, repl), j);
      assert OccursAt(repl, Replace(s, target, repl), 1 + j);
    }
  }
}
