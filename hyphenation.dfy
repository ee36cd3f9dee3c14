/**
 * `TextCleaner.fix_hyphenation`: `re.sub(r'(\w+)-\s*\n\s*(\w+)', r'\1\2', text)`.
 * A word broken by a hyphen at a line end is glued back together; the hyphen
 * and the whitespace (which must contain a newline) are dropped.
 */
module Hyphenation {
  import opened TextBasics
  import opened Wrappers
  import opened RegexSub

  /**
   * The match the regex engine finds when it tries the pattern at `i`.  Both
   * `\w+` are greedy and nothing they could give back is followed by `-` or
   * starts a word, so group 1 is the whole word run `s[i..j]`, `\s*\n\s*` is
   * the whole whitespace run `s[j + 1..m]` (which must hold a newline) and
   * group 2 is the whole word run that follows.  The replacement is `\1\2`.
   */
  function BrokenWordAt(s: string, i: nat): (r: Option<Match>)
    ensures r.Some? ==> i < r.value.end <= |s| && |r.value.replacement| + 2 <= r.value.end - i
  {
    if i >= |s| then None
    else
      var j := WordEnd(s, i);
      if j == i || j == |s| || s[j] != '-' then None
      else
        var m := SpaceEnd(s, j + 1);
        if '\n' !in s[j + 1..m] || m == |s| || !IsWordChar(s[m]) then None
        else
          var e := WordEnd(s, m);
          Some(Match(e, s[i..j] + s[m..e]))
  }

  /**
   * What a match consists of: the word run `s[i..j]`, the hyphen at `j`, the
   * whitespace run after it, which holds a newline, and the word run that
   * follows up to the match end.  The replacement is the two word runs
   * glued together, a single word.
   */
  lemma BrokenWordShape(s: string, i: nat)
    requires BrokenWordAt(s, i).Some?
    ensures i < WordEnd(s, i) < |s| && s[WordEnd(s, i)] == '-'
    ensures '\n' in s[WordEnd(s, i) + 1..SpaceEnd(s, WordEnd(s, i) + 1)]
    ensures SpaceEnd(s, WordEnd(s, i) + 1) < BrokenWordAt(s, i).value.end == WordEnd(s, SpaceEnd(s, WordEnd(s, i) + 1))
    ensures BrokenWordAt(s, i).value.replacement
            == s[i..WordEnd(s, i)] + s[SpaceEnd(s, WordEnd(s, i) + 1)..BrokenWordAt(s, i).value.end]
    ensures AllWordChars(BrokenWordAt(s, i).value.replacement)
  {
    var j := WordEnd(s, i);
    var m := SpaceEnd(s, j + 1);
    var r := s[i..j] + s[m..WordEnd(s, m)];
    forall k | 0 <= k < |r| ensures IsWordChar(r[k]) {
      if k < j - i { assert r[k] == s[i + k]; } else { assert r[k] == s[m + k - (j - i)]; }
    }
  }

  lemma BrokenWordWellFormed(s: string)
    ensures WellFormed(BrokenWordAt, s) && NeverLonger(BrokenWordAt, s)
  {
  }

  function FixHyphenation(text: string): (r: string)
  {
    BrokenWordWellFormed(text);
    Sub(BrokenWordAt, text)
  }

  // ---------------------------------------------------------------------------

  /** Every match drops at least the hyphen and one newline, so the text never grows. */
  lemma FixHyphenationShrinks(text: string)
    ensures |FixHyphenation(text)| <= |text|
  {
    BrokenWordWellFormed(text);
    SubShrinks(BrokenWordAt, text);
  }

  /** A hyphen ends a line when the whitespace run after it holds a newline. */
  predicate BreaksLine(s: string, j: nat)
    requires j < |s|
  {
    s[j] == '-' && '\n' in s[j + 1..SpaceEnd(s, j + 1)]
  }

  /**
   * Hyphens that do not end a line right after a word are never touched: text
   * in which no hyphen following a word character is followed by whitespace
   * holding a line break (in particular text without any hyphen) is returned
   * unchanged.
   */
  lemma FixHyphenationIdentity(text: string)
    requires forall j :: 0 < j < |text| && IsWordChar(text[j - 1]) ==> !BreaksLine(text, j)
    ensures FixHyphenation(text) == text
  {
    BrokenWordWellFormed(text);
    forall i | 0 <= i < |text| ensures BrokenWordAt(text, i).None? {
      var j := WordEnd(text, i);
      if j > i && j < |text| && text[j] == '-' {
        assert IsWordChar(text[j - 1]);
        assert !BreaksLine(text, j);
      }
    }
    SubIdentity(BrokenWordAt, text);
  }

  /**
   * A word broken across lines is rejoined inside running text: `w1` + `-` +
   * whitespace holding a newline + `w2` becomes `w1 + w2`, the hyphen dropped
   * too, while the text around it is kept.  The text before ends outside a
   * word and the text after starts outside one, so the match takes exactly
   * the two word halves; neither holds a hyphen, so nothing else matches.
   */
  lemma Rejoin(x: string, w1: string, gap: string, w2: string, y: string)
    requires x == [] || !IsWordChar(x[|x| - 1])
    requires '-' !in x && '-' !in y
    requires w1 != [] && AllWordChars(w1)
    requires w2 != [] && AllWordChars(w2)
    requires AllSpace(gap) && '\n' in gap
    requires y == [] || !IsWordChar(y[0])
    ensures FixHyphenation(x + w1 + "-" + gap + w2 + y) == x + w1 + w2 + y
  {
    var s := x + w1 + "-" + gap + w2 + y;
    var i := |x|;
    var j := i + |w1|;
    var m := j + 1 + |gap|;
    var e := m + |w2|;
    assert s[..i] == x && s[i..j] == w1 && s[j] == '-' && s[j + 1..m] == gap && s[m..e] == w2 && s[e..] == y;
    RejoinAt(s, i, j, m, e);
    AppendAssoc(x, w1, w2);
  }

  /** The same, stated on positions: the text is `s[..i]`, a word, `-`, a gap, a word, `s[e..]`. */
  lemma RejoinAt(s: string, i: nat, j: nat, m: nat, e: nat)
    requires i < j < m < e <= |s|
    requires '-' !in s[..i] && '-' !in s[e..]
    requires i == 0 || !IsWordChar(s[i - 1])
    requires AllWordChars(s[i..j]) && s[j] == '-' && AllSpace(s[j + 1..m]) && '\n' in s[j + 1..m]
    requires AllWordChars(s[m..e]) && (e == |s| || !IsWordChar(s[e]))
    ensures FixHyphenation(s) == s[..i] + (s[i..j] + s[m..e]) + s[e..]
  {
    forall k | i <= k < j ensures IsWordChar(s[k]) { assert s[k] == s[i..j][k - i]; }
    forall k | j + 1 <= k < m ensures IsSpace(s[k]) { assert s[k] == s[j + 1..m][k - j - 1]; }
    forall k | m <= k < e ensures IsWordChar(s[k]) { assert s[k] == s[m..e][k - m]; }
    forall k | 0 <= k < i ensures s[k] != '-' { assert s[k] == s[..i][k]; }
    forall k | e <= k < |s| ensures s[k] != '-' { assert s[k] == s[e..][k - e]; }
    BrokenWordFound(s, i, j, m, e);
    BrokenWordWellFormed(s);
    NoBreakBefore(s, i);
    NoBreakFrom(s, e);
    SubSingleMatch(BrokenWordAt, s, i);
  }

  /** The match at `i` when a word, a hyphen, whitespace holding a newline and a word follow there. */
  lemma BrokenWordFound(s: string, i: nat, j: nat, m: nat, e: nat)
    requires i < j < m < e <= |s|
    requires forall k :: i <= k < j ==> IsWordChar(s[k])
    requires s[j] == '-'
    requires forall k :: j + 1 <= k < m ==> IsSpace(s[k])
    requires '\n' in s[j + 1..m]
    requires forall k :: m <= k < e ==> IsWordChar(s[k])
    requires e == |s| || !IsWordChar(s[e])
    ensures BrokenWordAt(s, i) == Some(Match(e, s[i..j] + s[m..e]))
  {
    WordRunIs(s, i, j);
    assert !IsSpace(s[m]) by { SpaceIsNotWord(s[m]); }
    SpaceRunIs(s, j + 1, m);
    WordRunIs(s, m, e);
  }

  /** Before a position that follows a non-word character, with no hyphen before it, nothing matches. */
  lemma NoBreakBefore(s: string, h: nat)
    requires h <= |s| && (h == 0 || !IsWordChar(s[h - 1]))
    requires forall k :: 0 <= k < h ==> s[k] != '-'
    ensures forall p :: 0 <= p < h ==> BrokenWordAt(s, p).None?
  {
    forall p | 0 <= p < h ensures BrokenWordAt(s, p).None? {
      assert WordEnd(s, p) < h;
    }
  }

  /** From a position on which no hyphen follows, nothing matches. */
  lemma NoBreakFrom(s: string, e: nat)
    requires e <= |s|
    requires forall k :: e <= k < |s| ==> s[k] != '-'
    ensures forall p :: e <= p < |s| ==> BrokenWordAt(s, p).None?
  {
  }
}
