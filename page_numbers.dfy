/**
 * `TextCleaner.remove_page_numbers`: three deletions applied in turn,
 *   `re.sub(r'^\s*\d+\s*$', '', text, flags=re.MULTILINE)`,
 *   `re.sub(r'\b[Pp]age\s+\d+\b', '', text)` and
 *   `re.sub(r'\bp\.\s*\d+\b', '', text)`.
 */
module PageNumbers {
  import opened TextBasics
  import opened Wrappers
  import opened RegexSub

  /** `^` in multi-line mode. */
  predicate LineStart(s: string, i: nat)
    requires i <= |s|
  {
    i == 0 || s[i - 1] == '\n'
  }

  /** `$` in multi-line mode. */
  predicate LineEnd(s: string, i: nat)
    requires i <= |s|
  {
    i == |s| || s[i] == '\n'
  }

  /** The largest `e` in `[lo, hi]` at which `$` holds: how far the greedy trailing `\s*` gets. */
  function LastLineEnd(s: string, lo: nat, hi: nat): (r: Option<nat>)
    requires lo <= hi <= |s|
    ensures r.Some? ==> lo <= r.value <= hi && LineEnd(s, r.value)
    ensures r.Some? ==> forall e :: r.value < e <= hi ==> !LineEnd(s, e)
    ensures r.None? ==> forall e :: lo <= e <= hi ==> !LineEnd(s, e)
    decreases hi - lo
  {
    if LineEnd(s, hi) then Some(hi)
    else if hi == lo then None
    else LastLineEnd(s, lo, hi - 1)
  }

  /**
   * `^\s*\d+\s*$` tried at `i`.  The leading `\s*` takes the whole whitespace
   * run (giving any back would leave a space where `\d+` must start), `\d+`
   * the whole digit run, and the trailing `\s*` backs off from the end of the
   * whitespace run to the last place where `$` holds.  Both runs may contain
   * newlines, so blank lines around a number line can be swallowed with it.
   */
  function NumberLineAt(s: string, i: nat): (r: Option<Match>)
    ensures r.Some? ==> i < r.value.end <= |s| && r.value.replacement == []
  {
    if i >= |s| || !LineStart(s, i) then None
    else
      var a := SpaceEnd(s, i);
      var d := DigitEnd(s, a);
      if d == a then None
      else match LastLineEnd(s, d, SpaceEnd(s, d))
        case Some(e) => Some(Match(e, []))
        case None => None
  }

  /**
   * `\b[Pp]age\s+\d+\b` tried at `i`.  `\s+` and `\d+` take whole runs; the
   * final `\b` then needs the digits not to be followed by a word character
   * (giving digits back would put the boundary between two digits).
   */
  function PageTokenAt(s: string, i: nat): (r: Option<Match>)
    ensures r.Some? ==> i < r.value.end <= |s| && r.value.replacement == []
  {
    if i + 4 > |s| || !(s[i] == 'P' || s[i] == 'p') || s[i + 1..i + 4] != "age" || !WordBoundary(s, i) then None
    else
      var a := SpaceEnd(s, i + 4);
      var d := DigitEnd(s, a);
      if a == i + 4 || d == a || !WordBoundary(s, d) then None
      else Some(Match(d, []))
  }

  /** `\bp\.\s*\d+\b` tried at `i`; only a lower-case `p` starts it. */
  function PTokenAt(s: string, i: nat): (r: Option<Match>)
    ensures r.Some? ==> i < r.value.end <= |s| && r.value.replacement == []
  {
    if i + 2 > |s| || s[i] != 'p' || s[i + 1] != '.' || !WordBoundary(s, i) then None
    else
      var a := SpaceEnd(s, i + 2);
      var d := DigitEnd(s, a);
      if d == a || !WordBoundary(s, d) then None
      else Some(Match(d, []))
  }

  lemma PatternsWellFormed(s: string)
    ensures WellFormed(NumberLineAt, s) && NeverLonger(NumberLineAt, s)
    ensures WellFormed(PageTokenAt, s) && NeverLonger(PageTokenAt, s)
    ensures WellFormed(PTokenAt, s) && NeverLonger(PTokenAt, s)
  {
  }

  function RemoveNumberLines(text: string): string
  {
    PatternsWellFormed(text);
    Sub(NumberLineAt, text)
  }

  function RemovePageTokens(text: string): string
  {
    PatternsWellFormed(text);
    Sub(PageTokenAt, text)
  }

  function RemovePTokens(text: string): string
  {
    PatternsWellFormed(text);
    Sub(PTokenAt, text)
  }

  function RemovePageNumbers(text: string): string
  {
    RemovePTokens(RemovePageTokens(RemoveNumberLines(text)))
  }

  // ---------------------------------------------------------------------------

  /** Only deletions happen, so the text never grows. */
  lemma RemovePageNumbersShrinks(text: string)
    ensures |RemovePageNumbers(text)| <= |text|
  {
    var t1 := RemoveNumberLines(text);
    var t2 := RemovePageTokens(t1);
    PatternsWellFormed(text);
    PatternsWellFormed(t1);
    PatternsWellFormed(t2);
    SubShrinks(NumberLineAt, text);
    SubShrinks(PageTokenAt, t1);
    SubShrinks(PTokenAt, t2);
  }

  /** Every one of the three patterns needs a digit: text without digits is unchanged. */
  lemma RemovePageNumbersIdentity(text: string)
    requires forall k :: 0 <= k < |text| ==> !IsDigit(text[k])
    ensures RemovePageNumbers(text) == text
  {
    PatternsWellFormed(text);
    forall i | 0 <= i < |text|
      ensures NumberLineAt(text, i).None? && PageTokenAt(text, i).None? && PTokenAt(text, i).None?
    {
      if i + 4 <= |text| { var a := SpaceEnd(text, i + 4); assert DigitEnd(text, a) == a; }
      if i + 2 <= |text| { var a := SpaceEnd(text, i + 2); assert DigitEnd(text, a) == a; }
      var a := SpaceEnd(text, i);
      assert DigitEnd(text, a) == a;
    }
    SubIdentity(NumberLineAt, text);
    SubIdentity(PageTokenAt, text);
    SubIdentity(PTokenAt, text);
  }

  // Where the patterns cannot match

  /** In digit-free text, the digit run after a whitespace run is empty. */
  lemma DigitFreeAfterSpace(s: string, e: nat, i: nat)
    requires e <= i <= |s| && NoDigits(s[e..])
    ensures DigitEnd(s, SpaceEnd(s, i)) == SpaceEnd(s, i)
  {
    var a := SpaceEnd(s, i);
    if a < |s| {
      assert s[a] == s[e..][a - e];
    }
  }

  /**
   * Nothing in the digit-free text above `h` matches, when the line just above
   * `h` ends in a character other than whitespace: the leading `\s*` cannot run
   * from there into the text at `h`.
   */
  lemma NoNumberLineBefore(s: string, h: nat)
    requires h <= |s| && NoDigits(s[..h])
    requires h == 0 || (h >= 2 && s[h - 1] == '\n' && !IsSpace(s[h - 2]))
    ensures forall p :: 0 <= p < h ==> NumberLineAt(s, p).None?
  {
    forall p | 0 <= p < h ensures NumberLineAt(s, p).None? {
      if p + 2 <= h {
        var a := SpaceEnd(s, p);
        assert a <= h - 2;
        assert s[a] == s[..h][a];
      }
    }
  }

  lemma NoNumberLineFrom(s: string, e: nat)
    requires e <= |s| && NoDigits(s[e..])
    ensures forall p :: e <= p < |s| ==> NumberLineAt(s, p).None?
  {
    forall p | e <= p < |s| ensures NumberLineAt(s, p).None? {
      DigitFreeAfterSpace(s, e, p);
    }
  }

  /** Nothing in the digit-free text before a `P` or `p` at `h` matches `\b[Pp]age\s+\d+\b`. */
  lemma NoPageTokenBefore(s: string, h: nat)
    requires h < |s| && (s[h] == 'P' || s[h] == 'p') && NoDigits(s[..h])
    ensures forall p :: 0 <= p < h ==> PageTokenAt(s, p).None?
  {
    forall p | 0 <= p < h ensures PageTokenAt(s, p).None? {
      if p + 4 <= h {
        var a := SpaceEnd(s, p + 4);
        assert a <= h;
        if a < h {
          assert s[a] == s[..h][a];
        }
      } else if p + 4 <= |s| {
        assert s[p + 1..p + 4][h - p - 1] == s[h];
      }
    }
  }

  lemma NoPageTokenFrom(s: string, e: nat)
    requires e <= |s| && NoDigits(s[e..])
    ensures forall p :: e <= p < |s| ==> PageTokenAt(s, p).None?
  {
    forall p | e <= p < |s| && p + 4 <= |s| ensures PageTokenAt(s, p).None? {
      DigitFreeAfterSpace(s, e, p + 4);
    }
  }

  /** Nothing in the digit-free text before a `p` at `h` matches `\bp\.\s*\d+\b`. */
  lemma NoPTokenBefore(s: string, h: nat)
    requires h < |s| && s[h] == 'p' && NoDigits(s[..h])
    ensures forall p :: 0 <= p < h ==> PTokenAt(s, p).None?
  {
    forall p | 0 <= p < h && p + 2 <= h ensures PTokenAt(s, p).None? {
      var a := SpaceEnd(s, p + 2);
      assert a <= h;
      if a < h {
        assert s[a] == s[..h][a];
      }
    }
  }

  lemma NoPTokenFrom(s: string, e: nat)
    requires e <= |s| && NoDigits(s[e..])
    ensures forall p :: e <= p < |s| ==> PTokenAt(s, p).None?
  {
    forall p | e <= p < |s| && p + 2 <= |s| ensures PTokenAt(s, p).None? {
      DigitFreeAfterSpace(s, e, p + 2);
    }
  }

  // ---------------------------------------------------------------------------
  // What each pattern deletes

  /** The trailing `\s*$` of a number line whose digits end at `d` stops at `e`. */
  lemma NumberLineTail(s: string, d: nat, e: nat)
    requires d <= e <= |s| && AllSpace(s[d..e])
    requires e == |s| || (e + 1 < |s| && s[e] == '\n' && !IsSpace(s[e + 1]))
    ensures LastLineEnd(s, d, SpaceEnd(s, d)) == Some(e)
  {
    if e == |s| {
      SpaceSliceIs(s, d, e);
    } else {
      assert s[d..e + 1] == s[d..e] + [s[e]];
      SpaceSliceIs(s, d, e + 1);
      assert LastLineEnd(s, d, e) == Some(e);
    }
  }

  /** `^\s*\d+\s*$` matches `s[h..e]`, the trailing `\s*` stopping before the line break at `e`. */
  lemma NumberLineFound(s: string, h: nat, a: nat, d: nat, e: nat)
    requires h <= a < d <= e <= |s|
    requires h == 0 || s[h - 1] == '\n'
    requires AllSpace(s[h..a]) && AllDigits(s[a..d]) && AllSpace(s[d..e])
    requires e == |s| || (e + 1 < |s| && s[e] == '\n' && !IsSpace(s[e + 1]))
    ensures NumberLineAt(s, h) == Some(Match(e, []))
  {
    assert s[a..d][0] == s[a];
    SpaceIsNotWord(s[a]);
    SpaceSliceIs(s, h, a);
    if d < |s| {
      assert d < e ==> s[d] == s[d..e][0];
      SpaceIsNotWord(s[d]);
    }
    DigitSliceIs(s, a, d);
    NumberLineTail(s, d, e);
  }

  /**
   * A number line `s[h..e]` (whitespace, digits, whitespace) between digit-free
   * text is the only match, and exactly it goes: the line break that ends the
   * text above it stays, and so does the line break that starts the text below.
   */
  lemma NumberLineOnlyAt(s: string, h: nat, a: nat, d: nat, e: nat)
    requires h <= a < d <= e <= |s|
    requires h == 0 || (h >= 2 && s[h - 1] == '\n' && !IsSpace(s[h - 2]))
    requires AllSpace(s[h..a]) && AllDigits(s[a..d]) && AllSpace(s[d..e])
    requires e == |s| || (e + 1 < |s| && s[e] == '\n' && !IsSpace(s[e + 1]))
    requires NoDigits(s[..h]) && NoDigits(s[e..])
    ensures RemoveNumberLines(s) == s[..h] + s[e..]
  {
    NumberLineFound(s, h, a, d, e);
    NoNumberLineBefore(s, h);
    NoNumberLineFrom(s, e);
    PatternsWellFormed(s);
    SubSingleMatch(NumberLineAt, s, h);
    assert s[..h] + [] == s[..h];
  }

  /**
   * A page-number line inside a text: the number with the whitespace around
   * it is deleted, and the text above and below is kept, line breaks included.
   */
  lemma NumberLineVanishesIn(x: string, before: string, number: string, after: string, y: string)
    requires x == [] || (|x| >= 2 && x[|x| - 1] == '\n' && !IsSpace(x[|x| - 2]))
    requires y == [] || (|y| >= 2 && y[0] == '\n' && !IsSpace(y[1]))
    requires NoDigits(x) && NoDigits(y)
    requires AllSpace(before) && AllSpace(after)
    requires number != [] && AllDigits(number)
    ensures RemoveNumberLines(x + before + number + after + y) == x + y
  {
    var s := x + before + number + after + y;
    var a := |x| + |before|;
    var d := a + |number|;
    var e := d + |after|;
    FivePieces(x, before, number, after, y);
    assert x != [] ==> s[|x| - 1] == x[|x| - 1] && s[|x| - 2] == x[|x| - 2];
    assert y != [] ==> s[e] == y[0] && s[e + 1] == y[1];
    NumberLineOnlyAt(s, |x|, a, d, e);
  }

  /** A text holding only a page number, with any whitespace around it, disappears completely. */
  lemma NumberLineVanishes(before: string, number: string, after: string)
    requires AllSpace(before) && AllSpace(after)
    requires number != [] && AllDigits(number)
    ensures RemovePageNumbers(before + number + after) == []
  {
    NumberLineVanishesIn([], before, number, after, []);
    assert [] + before + number + after + [] == before + number + after;
    PatternsWellFormed([]);
    assert SubFrom(PageTokenAt, [], 0) == [];
    assert SubFrom(PTokenAt, [], 0) == [];
  }

  lemma PageTokenFound(s: string, h: nat, a: nat, d: nat)
    requires h + 4 < a < d <= |s|
    requires (s[h] == 'P' || s[h] == 'p') && s[h + 1..h + 4] == "age"
    requires h == 0 || !IsWordChar(s[h - 1])
    requires AllSpace(s[h + 4..a]) && AllDigits(s[a..d])
    requires d == |s| || !IsWordChar(s[d])
    ensures PageTokenAt(s, h) == Some(Match(d, []))
  {
    assert s[a..d][0] == s[a];
    SpaceIsNotWord(s[a]);
    SpaceSliceIs(s, h + 4, a);
    DigitSliceIs(s, a, d);
    assert s[a..d][d - 1 - a] == s[d - 1];
    assert WordBoundary(s, h);
    assert WordBoundary(s, d);
    assert SpaceEnd(s, h + 4) == a;
    assert DigitEnd(s, a) == d;
  }

  /** A `Page N` or `page N` token `s[h..d]` between digit-free text is the only match, and exactly it goes. */
  lemma PageTokenOnlyAt(s: string, h: nat, a: nat, d: nat)
    requires h + 4 < a < d <= |s|
    requires (s[h] == 'P' || s[h] == 'p') && s[h + 1..h + 4] == "age"
    requires h == 0 || !IsWordChar(s[h - 1])
    requires AllSpace(s[h + 4..a]) && AllDigits(s[a..d])
    requires d == |s| || !IsWordChar(s[d])
    requires NoDigits(s[..h]) && NoDigits(s[d..])
    ensures RemovePageTokens(s) == s[..h] + s[d..]
  {
    PageTokenFound(s, h, a, d);
    NoPageTokenBefore(s, h);
    NoPageTokenFrom(s, d);
    PatternsWellFormed(s);
    SubSingleMatch(PageTokenAt, s, h);
    assert s[..h] + [] == s[..h];
  }

  /**
   * A `Page N` (or `page N`) token standing as a word of its own, the gap
   * being any whitespace including line breaks, is deleted and the text
   * around it is kept.
   */
  lemma PageTokenVanishes(x: string, page: string, gap: string, number: string, y: string)
    requires page == "Page" || page == "page"
    requires x == [] || !IsWordChar(x[|x| - 1])
    requires gap != [] && AllSpace(gap)
    requires number != [] && AllDigits(number)
    requires y == [] || !IsWordChar(y[0])
    requires NoDigits(x) && NoDigits(y)
    ensures RemovePageTokens(x + page + gap + number + y) == x + y
  {
    var s := x + page + gap + number + y;
    var h := |x|;
    var a := h + 4 + |gap|;
    var d := a + |number|;
    FivePieces(x, page, gap, number, y);
    assert s[h] == s[h..h + 4][0] && s[h + 1..h + 4] == s[h..h + 4][1..];
    assert x != [] ==> s[h - 1] == x[h - 1];
    assert y != [] ==> s[d] == y[0];
    PageTokenOnlyAt(s, h, a, d);
  }

  lemma PTokenFound(s: string, h: nat, a: nat, d: nat)
    requires h + 2 <= a < d <= |s|
    requires s[h] == 'p' && s[h + 1] == '.'
    requires h == 0 || !IsWordChar(s[h - 1])
    requires AllSpace(s[h + 2..a]) && AllDigits(s[a..d])
    requires d == |s| || !IsWordChar(s[d])
    ensures PTokenAt(s, h) == Some(Match(d, []))
  {
    assert s[a..d][0] == s[a];
    SpaceIsNotWord(s[a]);
    SpaceSliceIs(s, h + 2, a);
    DigitSliceIs(s, a, d);
    assert s[a..d][d - 1 - a] == s[d - 1];
    assert WordBoundary(s, h);
    assert WordBoundary(s, d);
    assert SpaceEnd(s, h + 2) == a;
    assert DigitEnd(s, a) == d;
  }

  /** A `p. N` token `s[h..d]` between digit-free text is the only match, and exactly it goes. */
  lemma PTokenOnlyAt(s: string, h: nat, a: nat, d: nat)
    requires h + 2 <= a < d <= |s|
    requires s[h] == 'p' && s[h + 1] == '.'
    requires h == 0 || !IsWordChar(s[h - 1])
    requires AllSpace(s[h + 2..a]) && AllDigits(s[a..d])
    requires d == |s| || !IsWordChar(s[d])
    requires NoDigits(s[..h]) && NoDigits(s[d..])
    ensures RemovePTokens(s) == s[..h] + s[d..]
  {
    PTokenFound(s, h, a, d);
    NoPTokenBefore(s, h);
    NoPTokenFrom(s, d);
    PatternsWellFormed(s);
    SubSingleMatch(PTokenAt, s, h);
    assert s[..h] + [] == s[..h];
  }

  /**
   * A `p. N` page reference standing as a word of its own is deleted and the
   * text around it is kept; `\s*` lets the gap be empty, as in `p.5`.
   */
  lemma PTokenVanishes(x: string, gap: string, number: string, y: string)
    requires x == [] || !IsWordChar(x[|x| - 1])
    requires AllSpace(gap)
    requires number != [] && AllDigits(number)
    requires y == [] || !IsWordChar(y[0])
    requires NoDigits(x) && NoDigits(y)
    ensures RemovePTokens(x + "p." + gap + number + y) == x + y
  {
    var s := x + "p." + gap + number + y;
    var h := |x|;
    var a := h + 2 + |gap|;
    var d := a + |number|;
    FivePieces(x, "p.", gap, number, y);
    assert s[h] == s[h..h + 2][0] && s[h + 1] == s[h..h + 2][1];
    assert x != [] ==> s[h - 1] == x[h - 1];
    assert y != [] ==> s[d] == y[0];
    PTokenOnlyAt(s, h, a, d);
  }

  /** The third pattern starts with a lower-case `p`: text without one is left alone. */
  lemma RemovePTokensNeedsLowerP(text: string)
    requires 'p' !in text
    ensures RemovePTokens(text) == text
  {
    PatternsWellFormed(text);
    SubIdentity(PTokenAt, text);
  }

  /** `P. N`, with a capital `P`, is not a page reference to this pattern and stays. */
  lemma CapitalPTokenKept(x: string, gap: string, number: string, y: string)
    requires 'p' !in x && 'p' !in y
    requires AllSpace(gap) && AllDigits(number)
    ensures RemovePTokens(x + "P." + gap + number + y) == x + "P." + gap + number + y
  {
    var s := x + "P." + gap + number + y;
    var a := |x| + 2 + |gap|;
    var d := a + |number|;
    forall k | 0 <= k < |s| ensures s[k] != 'p' {
      if k < |x| {
        assert s[k] == x[k];
      } else if |x| + 2 <= k < a {
        assert s[k] == gap[k - |x| - 2];
      } else if a <= k < d {
        assert s[k] == number[k - a];
      } else if d <= k {
        assert s[k] == y[k - d];
      }
    }
    RemovePTokensNeedsLowerP(s);
  }
}
