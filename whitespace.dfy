/**
 * `TextCleaner.clean_whitespace`: runs of spaces become one space, three or
 * more line breaks separated only by whitespace become one blank line, every
 * line is stripped, and so is the whole text.
 */
module Whitespace {
  import opened TextBasics
  import opened Wrappers
  import opened RegexSub

  // ---------------------------------------------------------------------------
  // re.sub(r' +', ' ', text)

  /** The end of the run of spaces (U+0020 only) that starts at `i`. */
  function BlankEnd(s: string, i: nat): (k: nat)
    requires i <= |s|
    ensures i <= k <= |s|
    ensures forall j :: i <= j < k ==> s[j] == ' '
    ensures k == |s| || s[k] != ' '
    decreases |s| - i
  {
    if i == |s| || s[i] != ' ' then i else BlankEnd(s, i + 1)
  }

  function SpacesAt(s: string, i: nat): (r: Option<Match>)
    ensures r.Some? ==> i < r.value.end <= |s| && r.value.replacement == " "
  {
    if i < |s| && s[i] == ' ' then Some(Match(BlankEnd(s, i), " ")) else None
  }

  function CollapseSpaces(text: string): string
  {
    Sub(SpacesAt, text)
  }

  // ---------------------------------------------------------------------------
  // re.sub(r'\n\s*\n\s*\n+', '\n\n', text)

  /** The last newline in `s[lo..hi]`, if there is one. */
  function LastNewline(s: string, lo: nat, hi: nat): (r: Option<nat>)
    requires hi <= |s|
    ensures r.Some? ==>
      (lo <= r.value < hi && s[r.value] == '\n' && forall q :: r.value < q < hi ==> s[q] != '\n')
    ensures r.None? ==> forall q :: lo <= q < hi ==> s[q] != '\n'
    decreases hi
  {
    if hi <= lo then None
    else if s[hi - 1] == '\n' then Some(hi - 1)
    else LastNewline(s, lo, hi - 1)
  }

  /**
   * The pattern tried at a newline `i`.  The first `\s*` takes the whole run
   * of whitespace after `i` and gives back until a newline follows it; the
   * second `\s*` does the same, so the two newlines found are the last two of
   * the run, and `\n+` then takes only the last one, since no newline comes
   * after it in the run.  The match thus ends just after the last newline of
   * the run, and exists exactly when the run from `i` holds three newlines.
   */
  function BlankLinesAt(s: string, i: nat): (r: Option<Match>)
    ensures r.Some? ==> i < r.value.end <= |s| && r.value.replacement == "\n\n"
  {
    if i < |s| && s[i] == '\n' then
      var e := SpaceEnd(s, i + 1);
      match LastNewline(s, i + 1, e)
      case None => None
      case Some(last) =>
        if LastNewline(s, i + 1, last).Some? then Some(Match(last + 1, "\n\n")) else None
    else None
  }

  function CollapseBlankLines(text: string): string
  {
    Sub(BlankLinesAt, text)
  }

  // ---------------------------------------------------------------------------
  // '\n'.join(line.strip() for line in text.split('\n')), then .strip()

  /** The generator `line.strip() for line in lines`. */
  function StripLines(lines: seq<string>): (r: seq<string>)
    ensures |r| == |lines| && forall k :: 0 <= k < |lines| ==> r[k] == Strip(lines[k])
  {
    seq(|lines|, k requires 0 <= k < |lines| => Strip(lines[k]))
  }

  function CleanWhitespace(text: string): string
  {
    Strip(Join(StripLines(Split(CollapseBlankLines(CollapseSpaces(text))))))
  }

  // ---------------------------------------------------------------------------
  // No two spaces in a row

  predicate NoDoubleSpace(t: string)
  {
    forall k :: 0 <= k && k + 1 < |t| ==> !(t[k] == ' ' && t[k + 1] == ' ')
  }

  /** Where the scanner of `' +'` arrives, a space never follows a space it has passed. */
  lemma {:induction false} SpacesCollapsedFrom(s: string, i: nat)
    requires i <= |s|
    requires i == 0 || s[i - 1] != ' ' || i == |s| || s[i] != ' '
    ensures var out := SubFrom(SpacesAt, s, i);
      NoDoubleSpace(out) && (out != [] && out[0] == ' ' ==> s[i] == ' ')
    decreases |s| - i
  {
    if i < |s| {
      var out := SubFrom(SpacesAt, s, i);
      if s[i] == ' ' {
        var e := BlankEnd(s, i);
        SpacesCollapsedFrom(s, e);
        var rest := SubFrom(SpacesAt, s, e);
        assert out == [' '] + rest;
        assert rest != [] ==> rest[0] != ' ';
      } else {
        SpacesCollapsedFrom(s, i + 1);
        assert out == [s[i]] + SubFrom(SpacesAt, s, i + 1);
      }
    }
  }

  lemma CollapseSpacesNoDouble(text: string)
    ensures NoDoubleSpace(CollapseSpaces(text))
  {
    SpacesCollapsedFrom(text, 0);
  }

  /** Replacing whitespace by `"\n\n"` never puts two spaces side by side. */
  lemma {:induction false} BlankLinesKeepNoDoubleFrom(s: string, i: nat)
    requires i <= |s| && NoDoubleSpace(s)
    ensures var out := SubFrom(BlankLinesAt, s, i);
      NoDoubleSpace(out) && (out != [] && out[0] == ' ' ==> s[i] == ' ')
    decreases |s| - i
  {
    if i < |s| {
      var out := SubFrom(BlankLinesAt, s, i);
      match BlankLinesAt(s, i)
      case Some(h) =>
        BlankLinesKeepNoDoubleFrom(s, h.end);
        assert out == "\n\n" + SubFrom(BlankLinesAt, s, h.end);
      case None =>
        BlankLinesKeepNoDoubleFrom(s, i + 1);
        var rest := SubFrom(BlankLinesAt, s, i + 1);
        assert out == [s[i]] + rest;
    }
  }

  // ---------------------------------------------------------------------------
  // No three line breaks in one run of whitespace

  /**
   * The number of newlines in the run of whitespace that ends `u`, counting
   * `c` newlines already seen just before `u` when `u` is all whitespace.
   */
  function Breaks(u: string, c: nat): nat
  {
    if u == [] then c
    else
      var b := Breaks(u[..|u| - 1], c);
      var ch := u[|u| - 1];
      if !IsSpace(ch) then 0 else if ch == '\n' then b + 1 else b
  }

  lemma {:induction false} BreaksAppend(a: string, b: string, c: nat)
    ensures Breaks(a + b, c) == Breaks(b, Breaks(a, c))
    decreases |b|
  {
    if b == [] {
      assert a + b == a;
    } else {
      var b' := b[..|b| - 1];
      BreaksAppend(a, b', c);
      assert (a + b)[..|a + b| - 1] == a + b';
    }
  }

  lemma {:induction false} BreaksAllSpace(b: string, c: nat)
    requires AllSpace(b)
    ensures Breaks(b, c) == c + CountChar(b, '\n')
    decreases |b|
  {
    if b != [] {
      var b' := b[..|b| - 1];
      BreaksAllSpace(b', c);
      CountCharAppend(b', [b[|b| - 1]], '\n');
      assert b' + [b[|b| - 1]] == b;
    }
  }

  /** No run of whitespace in `t` holds three newlines (`c` carried in from before `t`). */
  predicate NoTripleBreakAfter(t: string, c: nat)
  {
    forall k :: 0 <= k <= |t| ==> Breaks(t[..k], c) <= 2
  }

  predicate NoTripleBreak(t: string)
  {
    NoTripleBreakAfter(t, 0)
  }

  function Min2(n: nat): nat
  {
    if n <= 2 then n else 2
  }

  /** Where the pattern matches, it takes a stretch of whitespace with three newlines, starting at a newline. */
  lemma BlankLinesMatched(s: string, i: nat)
    requires BlankLinesAt(s, i).Some?
    ensures var end := BlankLinesAt(s, i).value.end;
      s[i] == '\n' && AllSpace(s[i..end]) && CountChar(s[i..end], '\n') >= 3
  {
    var e := SpaceEnd(s, i + 1);
    var last := LastNewline(s, i + 1, e).value;
    var mid := LastNewline(s, i + 1, last).value;
    assert BlankLinesAt(s, i).value.end == last + 1;
    ThreeNewlines(s, i, mid, last, e);
  }

  /** ... and it ends after the last newline of the run. */
  lemma BlankLinesMatchedToLast(s: string, i: nat)
    requires BlankLinesAt(s, i).Some?
    ensures var end := BlankLinesAt(s, i).value.end; var e := SpaceEnd(s, i);
      end <= e && SpaceEnd(s, end) == e && CountChar(s[end..e], '\n') == 0
  {
    var e := SpaceEnd(s, i + 1);
    assert SpaceEnd(s, i) == e;
    var last := LastNewline(s, i + 1, e).value;
    assert BlankLinesAt(s, i).value.end == last + 1;
    CountNone(s, last + 1, e, '\n');
  }

  lemma ThreeNewlines(s: string, i: nat, mid: nat, last: nat, e: nat)
    requires i < mid < last < e <= |s| && s[i] == '\n' && s[mid] == '\n' && s[last] == '\n'
    requires IsSpace(s[i]) && forall j :: i < j < e ==> IsSpace(s[j])
    ensures AllSpace(s[i..last + 1]) && CountChar(s[i..last + 1], '\n') >= 3
  {
    var w := s[i..last + 1];
    forall j | 0 <= j < |w| ensures IsSpace(w[j]) {
      assert w[j] == s[i + j];
    }
    ThreeNewlinesCount(s, i, mid, last);
  }

  lemma ThreeNewlinesCount(s: string, i: nat, mid: nat, last: nat)
    requires i < mid < last < |s| && s[i] == '\n' && s[mid] == '\n' && s[last] == '\n'
    ensures CountChar(s[i..last + 1], '\n') >= 3
  {
    assert s[i..last + 1] == s[i..mid] + s[mid..last] + s[last..last + 1];
    CountThree(s[i..mid], s[mid..last], s[last..last + 1]);
  }

  lemma CountThree(x: string, y: string, z: string)
    requires x != [] && y != [] && z != [] && x[0] == '\n' && y[0] == '\n' && z[0] == '\n'
    ensures CountChar(x + y + z, '\n') >= 3
  {
    CountCharAppend(x + y, z, '\n');
    CountCharAppend(x, y, '\n');
    assert '\n' in x && '\n' in y && '\n' in z;
  }

  /** Where the pattern does not match at a newline, the run from there holds at most two newlines. */
  lemma BlankLinesUnmatched(s: string, i: nat)
    requires i < |s| && s[i] == '\n' && BlankLinesAt(s, i).None?
    ensures CountChar(s[i..SpaceEnd(s, i)], '\n') <= 2
  {
    var e := SpaceEnd(s, i + 1);
    assert SpaceEnd(s, i) == e;
    CountSplit(s, i, i + 1, e, '\n');
    CountSingle(s, i, '\n');
    match LastNewline(s, i + 1, e) {
      case None =>
        CountNone(s, i + 1, e, '\n');
      case Some(last) =>
        assert LastNewline(s, i + 1, last).None?;
        CountNone(s, i + 1, last, '\n');
        CountNone(s, last + 1, e, '\n');
        CountSplit(s, i + 1, last, e, '\n');
        CountSplit(s, last, last + 1, e, '\n');
        CountSingle(s, last, '\n');
    }
  }

  lemma CountNone(s: string, lo: nat, hi: nat, c: char)
    requires lo <= hi <= |s| && forall q :: lo <= q < hi ==> s[q] != c
    ensures CountChar(s[lo..hi], c) == 0
  {
    assert c !in s[lo..hi];
  }

  /** Counting over `s[lo..hi]` in two parts. */
  lemma CountSplit(s: string, lo: nat, mid: nat, hi: nat, c: char)
    requires lo <= mid <= hi <= |s|
    ensures CountChar(s[lo..hi], c) == CountChar(s[lo..mid], c) + CountChar(s[mid..hi], c)
  {
    CountCharAppend(s[lo..mid], s[mid..hi], c);
    assert s[lo..hi] == s[lo..mid] + s[mid..hi];
  }

  lemma CountSingle(s: string, lo: nat, c: char)
    requires lo < |s|
    ensures CountChar(s[lo..lo + 1], c) == (if s[lo] == c then 1 else 0)
  {
    assert s[lo..lo + 1] == [s[lo]];
  }

  lemma CountAtLeastOne(t: string)
    requires t != [] && t[0] == '\n'
    ensures CountChar(t, '\n') >= 1
  {
  }

  lemma CountAtLeastTwo(t: string)
    requires |t| >= 2 && t[0] == '\n' && t[|t| - 1] == '\n'
    ensures CountChar(t, '\n') >= 2
  {
    CountCharAppend(t[..|t| - 1], [t[|t| - 1]], '\n');
    assert t == t[..|t| - 1] + [t[|t| - 1]];
    assert t[..|t| - 1][0] == '\n';
  }

  /**
   * Where the scanner can arrive at `i`, either no newline of the current run
   * lies behind `i`, or the whole run holds at most two, or none lies ahead.
   */
  predicate Arrivable(s: string, i: nat)
    requires i <= |s|
  {
    var n := Breaks(s[..i], 0);
    var ahead := CountChar(s[i..SpaceEnd(s, i)], '\n');
    n == 0 || n + ahead <= 2 || ahead == 0
  }

  lemma {:induction false} BlankLinesCollapsedFrom(s: string, i: nat)
    requires i <= |s| && Arrivable(s, i)
    ensures NoTripleBreakAfter(SubFrom(BlankLinesAt, s, i), Min2(Breaks(s[..i], 0)))
    decreases |s| - i
  {
    var out := SubFrom(BlankLinesAt, s, i);
    var n := Breaks(s[..i], 0);
    var c := Min2(n);
    if i == |s| {
      assert out == [];
      assert out[..0] == [];
      return;
    }
    if BlankLinesAt(s, i).Some? {
      var end := BlankLinesAt(s, i).value.end;
      BlankLinesMatchedToLast(s, i);
      BlankLinesCollapsedFrom(s, end);
      MatchedStep(s, i);
    } else {
      CopiedArrivable(s, i);
      BlankLinesCollapsedFrom(s, i + 1);
      CopiedStep(s, i);
    }
  }

  /** Where the pattern matches, no newline precedes in the run, and the match reaches a third one. */
  lemma MatchedCounts(s: string, i: nat)
    requires i < |s| && Arrivable(s, i) && BlankLinesAt(s, i).Some?
    ensures Breaks(s[..i], 0) == 0 && Breaks(s[..BlankLinesAt(s, i).value.end], 0) >= 3
  {
    var end := BlankLinesAt(s, i).value.end;
    BlankLinesMatched(s, i);
    assert Breaks(s[..i], 0) == 0 by {
      BlankLinesMatchedToLast(s, i);
      CountSplit(s, i, end, SpaceEnd(s, i), '\n');
    }
    BreaksThrough(s, i, end);
  }

  lemma MatchedStep(s: string, i: nat)
    requires i < |s| && Arrivable(s, i) && BlankLinesAt(s, i).Some?
    requires NoTripleBreakAfter(SubFrom(BlankLinesAt, s, BlankLinesAt(s, i).value.end),
      Min2(Breaks(s[..BlankLinesAt(s, i).value.end], 0)))
    ensures NoTripleBreakAfter(SubFrom(BlankLinesAt, s, i), Min2(Breaks(s[..i], 0)))
  {
    var end := BlankLinesAt(s, i).value.end;
    MatchedCounts(s, i);
    var rest := SubFrom(BlankLinesAt, s, end);
    assert SubFrom(BlankLinesAt, s, i) == "\n\n" + rest;
    AfterPrefix("\n\n", rest, 0, 2);
  }

  /** Across a stretch of whitespace, the count grows by its newlines. */
  lemma BreaksThrough(s: string, i: nat, end: nat)
    requires i <= end <= |s| && AllSpace(s[i..end])
    ensures Breaks(s[..end], 0) == Breaks(s[..i], 0) + CountChar(s[i..end], '\n')
  {
    BreaksAppend(s[..i], s[i..end], 0);
    assert s[..end] == s[..i] + s[i..end];
    BreaksAllSpace(s[i..end], Breaks(s[..i], 0));
  }

  /** Copying `s[i]` keeps the scanner at an arrivable position. */
  lemma CopiedArrivable(s: string, i: nat)
    requires i < |s| && Arrivable(s, i) && BlankLinesAt(s, i).None?
    ensures Arrivable(s, i + 1)
    ensures Min2(Breaks(s[..i + 1], 0)) == Breaks([s[i]], Min2(Breaks(s[..i], 0)))
  {
    BreaksAppend(s[..i], [s[i]], 0);
    assert s[..i + 1] == s[..i] + [s[i]];
    assert [s[i]][..0] == [];
    if IsSpace(s[i]) {
      var e := SpaceEnd(s, i);
      assert SpaceEnd(s, i + 1) == e;
      CountCharAppend([s[i]], s[i + 1..e], '\n');
      assert s[i..e] == [s[i]] + s[i + 1..e];
      if s[i] == '\n' {
        BlankLinesUnmatched(s, i);
      }
    }
  }

  lemma CopiedStep(s: string, i: nat)
    requires i < |s| && Arrivable(s, i) && BlankLinesAt(s, i).None?
    requires NoTripleBreakAfter(SubFrom(BlankLinesAt, s, i + 1), Min2(Breaks(s[..i + 1], 0)))
    ensures NoTripleBreakAfter(SubFrom(BlankLinesAt, s, i), Min2(Breaks(s[..i], 0)))
  {
    CopiedArrivable(s, i);
    var rest := SubFrom(BlankLinesAt, s, i + 1);
    assert SubFrom(BlankLinesAt, s, i) == [s[i]] + rest;
    var c := Min2(Breaks(s[..i], 0));
    assert [s[i]][..0] == [] && [s[i]][..1] == [s[i]];
    AfterPrefix([s[i]], rest, c, Min2(Breaks(s[..i + 1], 0)));
  }

  /** A run-free prefix handed on: the property after `p + t` from the property after `t`. */
  lemma AfterPrefix(p: string, t: string, c: nat, c': nat)
    requires c <= 2 && Breaks(p, c) == c' && NoTripleBreakAfter(t, c')
    requires forall k :: 0 <= k <= |p| ==> Breaks(p[..k], c) <= 2
    ensures NoTripleBreakAfter(p + t, c)
  {
    forall k | 0 <= k <= |p + t| ensures Breaks((p + t)[..k], c) <= 2 {
      if k <= |p| {
        assert (p + t)[..k] == p[..k];
      } else {
        assert (p + t)[..k] == p + t[..k - |p|];
        BreaksAppend(p, t[..k - |p|], c);
      }
    }
  }

  lemma CollapseBlankLinesNoTriple(text: string)
    ensures NoTripleBreak(CollapseBlankLines(text))
  {
    assert text[..0] == [];
    BlankLinesCollapsedFrom(text, 0);
  }

  // ---------------------------------------------------------------------------
  // Stripping every line, then the whole text

  /** A stripped line: no whitespace at either end. */
  predicate Stripped(t: string)
  {
    t == [] || (!IsSpace(t[0]) && !IsSpace(t[|t| - 1]))
  }

  /** The leading blank lines that the final `strip()` removes; one line always remains. */
  function DropLeading(ls: seq<string>): (r: seq<string>)
    requires |ls| >= 1
    ensures 1 <= |r| <= |ls| && r == ls[|ls| - |r|..]
    ensures |r| == 1 || r[0] != []
  {
    if |ls| > 1 && ls[0] == [] then DropLeading(ls[1..]) else ls
  }

  /** The trailing blank lines that the final `strip()` removes; one line always remains. */
  function DropTrailing(ls: seq<string>): (r: seq<string>)
    requires |ls| >= 1
    ensures 1 <= |r| <= |ls| && r == ls[..|r|]
    ensures |r| == 1 || r[|r| - 1] != []
  {
    if |ls| > 1 && ls[|ls| - 1] == [] then DropTrailing(ls[..|ls| - 1]) else ls
  }

  /** A leading newline is whitespace that `TrimStart` drops. */
  lemma TrimStartNewline(t: string)
    ensures TrimStart("\n" + t) == TrimStart(t)
  {
    assert ("\n" + t)[1..] == t;
  }

  lemma JoinEmptyHead(ls: seq<string>)
    requires |ls| > 1 && ls[0] == []
    ensures Join(ls) == "\n" + Join(ls[1..])
  {
  }

  lemma JoinHead(ls: seq<string>)
    requires |ls| >= 1 && ls[0] != []
    ensures Join(ls) != [] && Join(ls)[0] == ls[0][0]
  {
  }

  lemma {:induction false} TrimStartJoin(ls: seq<string>)
    requires |ls| >= 1 && forall i :: 0 <= i < |ls| ==> Stripped(ls[i])
    ensures TrimStart(Join(ls)) == Join(DropLeading(ls))
  {
    if |ls| > 1 && ls[0] == [] {
      TrimStartJoin(ls[1..]);
      JoinEmptyHead(ls);
      TrimStartNewline(Join(ls[1..]));
    } else if ls[0] != [] {
      JoinHead(ls);
    }
  }

  /** A trailing newline is whitespace that `TrimEnd` drops. */
  lemma TrimEndNewline(t: string)
    ensures TrimEnd(t + "\n") == TrimEnd(t)
  {
    assert (t + "\n")[..|t|] == t;
  }

  /** The last line of a joined list ends the joined text. */
  lemma JoinLast(ls: seq<string>)
    requires |ls| >= 1
    ensures |ls| > 1 ==> Join(ls) == Join(ls[..|ls| - 1]) + "\n" + ls[|ls| - 1]
    ensures ls[|ls| - 1] != [] ==> Join(ls) != [] && Join(ls)[|Join(ls)| - 1] == ls[|ls| - 1][|ls[|ls| - 1]| - 1]
  {
    var n := |ls|;
    if n > 1 {
      JoinAt(ls, n - 1);
      assert ls[n - 1..] == [ls[n - 1]];
    }
  }

  lemma {:induction false} TrimEndJoin(ls: seq<string>)
    requires |ls| >= 1 && forall i :: 0 <= i < |ls| ==> Stripped(ls[i])
    ensures TrimEnd(Join(ls)) == Join(DropTrailing(ls))
    decreases |ls|
  {
    var n := |ls|;
    JoinLast(ls);
    if n > 1 && ls[n - 1] == [] {
      var init := ls[..n - 1];
      TrimEndJoin(init);
      assert Join(ls) == Join(init) + "\n";
      TrimEndNewline(Join(init));
    }
  }

  /** Stripping the joined stripped lines drops the blank lines at both ends. */
  lemma StripJoin(ls: seq<string>)
    requires |ls| >= 1 && forall i :: 0 <= i < |ls| ==> Stripped(ls[i])
    ensures Strip(Join(ls)) == Join(DropTrailing(DropLeading(ls)))
  {
    TrimStartJoin(ls);
    TrimEndJoin(DropLeading(ls));
  }

  lemma NoDoubleSlice(t: string, lo: nat, hi: nat)
    requires lo <= hi <= |t|
    ensures NoDoubleSpace(t) ==> NoDoubleSpace(t[lo..hi])
  {
    assert forall k :: 0 <= k < hi - lo ==> t[lo..hi][k] == t[lo + k];
  }

  lemma NoDoubleInfix(x: string, t: string, y: string)
    ensures NoDoubleSpace(x + t + y) ==> NoDoubleSpace(t)
  {
    var w := x + t + y;
    assert w[|x|..|x| + |t|] == t;
    NoDoubleSlice(w, |x|, |x| + |t|);
  }

  /** What `strip()` leaves of one line is stripped, and stripping it again changes nothing. */
  lemma StripStripped(t: string)
    ensures Stripped(Strip(t)) && Strip(Strip(t)) == Strip(t)
  {
    StripEnds(t);
    StripNoop(Strip(t));
  }

  /** `strip()` keeps a slice of its argument, so it brings in no newline. */
  lemma StripKeepsNoNewline(t: string)
    requires '\n' !in t
    ensures '\n' !in Strip(t)
  {
    var k := StripIsSlice(t);
    var r := Strip(t);
    forall j | 0 <= j < |r| ensures r[j] != '\n' {
      assert r[j] == t[k + j];
    }
  }

  /** `strip()` keeps a slice of its argument, so it brings in no double space. */
  lemma StripKeepsNoDouble(t: string)
    requires NoDoubleSpace(t)
    ensures NoDoubleSpace(Strip(t))
  {
    var k := StripIsSlice(t);
    NoDoubleSlice(t, k, k + |Strip(t)|);
  }

  /** Lines without two spaces in a row keep that property when joined by newlines. */
  lemma {:induction false} NoDoubleJoin(ls: seq<string>)
    requires forall i :: 0 <= i < |ls| ==> NoDoubleSpace(ls[i])
    ensures NoDoubleSpace(Join(ls))
  {
    if |ls| > 1 {
      NoDoubleJoin(ls[1..]);
      var a, b := ls[0], Join(ls[1..]);
      var t := a + "\n" + b;
      forall k | 0 <= k && k + 1 < |t| ensures !(t[k] == ' ' && t[k + 1] == ' ') {
        if k + 1 < |a| {
          assert t[k] == a[k] && t[k + 1] == a[k + 1];
        } else if k > |a| {
          assert t[k] == b[k - |a| - 1] && t[k + 1] == b[k - |a|];
        } else if k == |a| {
          assert t[k] == '\n';
        } else {
          assert t[k + 1] == '\n';
        }
      }
    }
  }

  /** Two blank lines in a row put three newlines into one run of whitespace. */
  lemma BlankPairBreaks(a: string, b: string, c: nat)
    requires AllSpace(a) && AllSpace(b)
    ensures Breaks("\n" + a + "\n" + b + "\n", c) >= 3
  {
    var w := "\n" + a + "\n" + b + "\n";
    forall k | 0 <= k < |w| ensures IsSpace(w[k]) {
      if 1 <= k < 1 + |a| {
        assert w[k] == a[k - 1];
      } else if 2 + |a| <= k < 2 + |a| + |b| {
        assert w[k] == b[k - 2 - |a|];
      }
    }
    BreaksAllSpace(w, c);
    CountCharAppend("\n" + a + "\n" + b, "\n", '\n');
    CountCharAppend("\n" + a + "\n", b, '\n');
    CountCharAppend("\n" + a, "\n", '\n');
    CountCharAppend("\n", a, '\n');
  }

  /**
   * Two whitespace-only lines with a line before and a line after them give
   * a run of whitespace with three newlines.
   */
  lemma InteriorBlankPair(u: string, p: nat)
    requires 1 <= p && p + 2 < |Split(u)|
    ensures AllSpace(Split(u)[p]) && AllSpace(Split(u)[p + 1]) ==> !NoTripleBreak(u)
  {
    var ls := Split(u);
    JoinSplit(u);
    JoinAround(ls, p);
    var pre := Join(ls[..p]);
    var w := "\n" + ls[p] + "\n" + ls[p + 1] + "\n";
    var v := pre + w;
    assert u[..|v|] == v;
    if AllSpace(ls[p]) && AllSpace(ls[p + 1]) {
      BlankPairBreaks(ls[p], ls[p + 1], Breaks(pre, 0));
      BreaksAppend(pre, w, 0);
    }
  }

  /** Each line of `StripLines(lines)` is stripped and, when `lines` has no newline inside a line, neither has it. */
  lemma StripLinesStripped(lines: seq<string>)
    requires forall i :: 0 <= i < |lines| ==> '\n' !in lines[i]
    ensures forall i :: 0 <= i < |lines| ==> Stripped(StripLines(lines)[i]) && '\n' !in StripLines(lines)[i]
  {
    forall i | 0 <= i < |lines| ensures Stripped(StripLines(lines)[i]) && '\n' !in StripLines(lines)[i] {
      StripStripped(lines[i]);
      StripKeepsNoNewline(lines[i]);
    }
  }

  /** The lines left once the blank lines at both ends are gone: a stretch of `m`. */
  lemma TrimmedStretch(m: seq<string>) returns (a: nat, kept: seq<string>)
    requires |m| >= 1
    ensures kept == DropTrailing(DropLeading(m))
    ensures a + |kept| <= |m| && kept == m[a..a + |kept|]
    ensures |kept| > 1 ==> kept[0] != [] && kept[|kept| - 1] != []
  {
    var lead := DropLeading(m);
    kept := DropTrailing(lead);
    a := |m| - |lead|;
    assert kept == m[a..][..|kept|];
    assert m[a..][..|kept|] == m[a..a + |kept|];
    if |kept| > 1 {
      assert kept[0] == lead[0];
    }
  }

  /** Joining stripped lines and stripping the whole leaves the lines with the blank ones at both ends dropped. */
  lemma SplitStripJoin(m: seq<string>)
    requires |m| >= 1 && forall i :: 0 <= i < |m| ==> Stripped(m[i])
    requires forall i :: 0 <= i < |DropTrailing(DropLeading(m))| ==> '\n' !in DropTrailing(DropLeading(m))[i]
    ensures Split(Strip(Join(m))) == DropTrailing(DropLeading(m))
  {
    StripJoin(m);
    SplitJoin(DropTrailing(DropLeading(m)));
  }

  /** A stretch of lines without newlines has none either. */
  lemma StretchNoNewline(m: seq<string>, a: nat, kept: seq<string>)
    requires forall i :: 0 <= i < |m| ==> '\n' !in m[i]
    requires a + |kept| <= |m| && kept == m[a..a + |kept|]
    ensures forall i :: 0 <= i < |kept| ==> '\n' !in kept[i]
  {
    forall i | 0 <= i < |kept| ensures '\n' !in kept[i] {
      assert kept[i] == m[a + i];
    }
  }

  /** Joining stripped lines and stripping the whole keeps a stretch of those lines. */
  lemma KeptLines(m: seq<string>) returns (a: nat, kept: seq<string>)
    requires |m| >= 1 && forall i :: 0 <= i < |m| ==> Stripped(m[i]) && '\n' !in m[i]
    ensures kept == Split(Strip(Join(m)))
    ensures a + |kept| <= |m| && kept == m[a..a + |kept|]
    ensures |kept| > 1 ==> kept[0] != [] && kept[|kept| - 1] != []
  {
    a, kept := TrimmedStretch(m);
    StretchNoNewline(m, a, kept);
    SplitStripJoin(m);
  }

  /**
   * The promise of the last step about the lines of its result: the result
   * is stripped, so is every line, the first and the last line are not
   * blank (unless there is a single line), and no two blank lines follow each
   * other.
   */
  predicate TidyLines(r: string)
  {
    Strip(r) == r && TidyLineList(Split(r))
  }

  predicate TidyLineList(ls: seq<string>)
  {
    && (forall i :: 0 <= i < |ls| ==> Strip(ls[i]) == ls[i])
    && (|ls| > 1 ==> ls[0] != [] && ls[|ls| - 1] != [])
    && (forall i :: 0 <= i < |ls| - 1 ==> ls[i] != [] || ls[i + 1] != [])
  }

  /** No two blank lines in a row, except possibly at either end of `ls`. */
  predicate InteriorPairsFree(ls: seq<string>)
  {
    forall p :: 1 <= p && p + 2 < |ls| ==> !AllSpace(ls[p]) || !AllSpace(ls[p + 1])
  }

  /** In a text with no run of three newlines, no two inner lines in a row are blank. */
  lemma NoTripleBreakPairsFree(u: string)
    requires NoTripleBreak(u)
    ensures InteriorPairsFree(Split(u))
  {
    forall p | 1 <= p && p + 2 < |Split(u)| ensures !AllSpace(Split(u)[p]) || !AllSpace(Split(u)[p + 1]) {
      InteriorBlankPair(u, p);
    }
  }

  /** Two lines that are not both blank do not both strip to nothing. */
  lemma StrippedPair(x: string, y: string)
    requires !AllSpace(x) || !AllSpace(y)
    ensures Strip(x) != [] || Strip(y) != []
  {
    StripEmptyIffAllSpace(x);
    StripEmptyIffAllSpace(y);
  }

  /** No two empty lines in a row, except possibly at either end of `m`. */
  predicate InteriorEmptyPairsFree(m: seq<string>)
  {
    forall p :: 1 <= p && p + 2 < |m| ==> m[p] != [] || m[p + 1] != []
  }

  /** Stripping the lines turns inner blank-free pairs into inner empty-free pairs. */
  lemma StripLinesPairsFree(lines: seq<string>)
    requires InteriorPairsFree(lines)
    ensures InteriorEmptyPairsFree(StripLines(lines))
  {
    forall p | 1 <= p && p + 2 < |lines| ensures StripLines(lines)[p] != [] || StripLines(lines)[p + 1] != [] {
      StrippedPair(lines[p], lines[p + 1]);
    }
  }

  /** A stretch of `m` whose ends are not empty holds no two empty lines in a row. */
  lemma NoEmptyPair(m: seq<string>, a: nat, kept: seq<string>)
    requires InteriorEmptyPairsFree(m)
    requires a + |kept| <= |m| && kept == m[a..a + |kept|]
    requires |kept| > 1 ==> kept[0] != [] && kept[|kept| - 1] != []
    ensures forall i :: 0 <= i < |kept| - 1 ==> kept[i] != [] || kept[i + 1] != []
  {
    forall i | 0 < i && i + 2 < |kept| ensures kept[i] != [] || kept[i + 1] != [] {
      assert kept[i] == m[a + i] && kept[i + 1] == m[a + i + 1];
    }
  }

  /** Stripping lines taken from a stretch of stripped lines changes none of them. */
  lemma StrippedLinesFixed(m: seq<string>, a: nat, kept: seq<string>)
    requires forall i :: 0 <= i < |m| ==> Stripped(m[i])
    requires a + |kept| <= |m| && kept == m[a..a + |kept|]
    ensures forall i :: 0 <= i < |kept| ==> Strip(kept[i]) == kept[i]
  {
    forall i | 0 <= i < |kept| ensures Strip(kept[i]) == kept[i] {
      assert kept[i] == m[a + i];
      StripNoop(kept[i]);
    }
  }

  /** A stretch of stripped lines with no inner empty pair whose ends are not empty is a tidy list of lines. */
  lemma KeptTidy(m: seq<string>, a: nat, kept: seq<string>)
    requires forall i :: 0 <= i < |m| ==> Stripped(m[i])
    requires InteriorEmptyPairsFree(m)
    requires a + |kept| <= |m| && kept == m[a..a + |kept|]
    requires |kept| > 1 ==> kept[0] != [] && kept[|kept| - 1] != []
    ensures TidyLineList(kept)
  {
    StrippedLinesFixed(m, a, kept);
    NoEmptyPair(m, a, kept);
  }

  /** Joining stripped lines with no inner empty pair and stripping the whole leaves tidy lines. */
  lemma TidyJoin(m: seq<string>)
    requires |m| >= 1 && forall i :: 0 <= i < |m| ==> Stripped(m[i]) && '\n' !in m[i]
    requires InteriorEmptyPairsFree(m)
    ensures TidyLines(Strip(Join(m)))
  {
    var a, kept := KeptLines(m);
    StripStripped(Join(m));
    KeptTidy(m, a, kept);
  }

  /** Stripping lines among which no two inner ones in a row are blank leaves tidy lines. */
  lemma StripLinesTidy(lines: seq<string>)
    requires |lines| >= 1 && forall i :: 0 <= i < |lines| ==> '\n' !in lines[i]
    requires InteriorPairsFree(lines)
    ensures TidyLines(Strip(Join(StripLines(lines))))
  {
    StripLinesStripped(lines);
    StripLinesPairsFree(lines);
    TidyJoin(StripLines(lines));
  }

  /** Each line of a text without two spaces in a row has none either. */
  lemma LinesNoDouble(lines: seq<string>)
    requires NoDoubleSpace(Join(lines))
    ensures forall i :: 0 <= i < |lines| ==> NoDoubleSpace(lines[i])
  {
    forall i | 0 <= i < |lines| ensures NoDoubleSpace(lines[i]) {
      var x, y := LineInfix(lines, i);
      NoDoubleInfix(x, lines[i], y);
    }
  }

  /** Stripping each line keeps every line free of double spaces. */
  lemma StripLinesNoDoubleEach(lines: seq<string>)
    requires forall i :: 0 <= i < |lines| ==> NoDoubleSpace(lines[i])
    ensures forall i :: 0 <= i < |lines| ==> NoDoubleSpace(StripLines(lines)[i])
  {
    forall i | 0 <= i < |lines| ensures NoDoubleSpace(StripLines(lines)[i]) {
      StripKeepsNoDouble(lines[i]);
    }
  }

  /** A stretch of lines without double spaces has none either. */
  lemma StretchNoDouble(m: seq<string>, a: nat, kept: seq<string>)
    requires forall i :: 0 <= i < |m| ==> NoDoubleSpace(m[i])
    requires a + |kept| <= |m| && kept == m[a..a + |kept|]
    ensures forall i :: 0 <= i < |kept| ==> NoDoubleSpace(kept[i])
  {
    forall i | 0 <= i < |kept| ensures NoDoubleSpace(kept[i]) {
      assert kept[i] == m[a + i];
    }
  }

  /** Joining stripped lines without double spaces and stripping the whole brings in no double space. */
  lemma StripJoinNoDouble(m: seq<string>)
    requires |m| >= 1 && forall i :: 0 <= i < |m| ==> Stripped(m[i]) && NoDoubleSpace(m[i])
    ensures NoDoubleSpace(Strip(Join(m)))
  {
    var a, kept := TrimmedStretch(m);
    StripJoin(m);
    StretchNoDouble(m, a, kept);
    NoDoubleJoin(kept);
  }

  /** Stripping lines never puts two spaces side by side. */
  lemma StripLinesNoDouble(u: string)
    requires NoDoubleSpace(u)
    ensures NoDoubleSpace(Strip(Join(StripLines(Split(u)))))
  {
    var lines := Split(u);
    JoinSplit(u);
    LinesNoDouble(lines);
    StripLinesNoDoubleEach(lines);
    StripLinesStripped(lines);
    StripJoinNoDouble(StripLines(lines));
  }

  /** The lines of the result are tidy. */
  lemma CleanWhitespaceLines(text: string)
    ensures TidyLines(CleanWhitespace(text))
  {
    var u := CollapseBlankLines(CollapseSpaces(text));
    CollapseBlankLinesNoTriple(CollapseSpaces(text));
    NoTripleBreakPairsFree(u);
    StripLinesTidy(Split(u));
  }

  /** No two spaces follow each other anywhere in the result. */
  lemma CleanWhitespaceNoDoubleSpace(text: string)
    ensures NoDoubleSpace(CleanWhitespace(text))
  {
    CollapseSpacesNoDouble(text);
    BlankLinesKeepNoDoubleFrom(CollapseSpaces(text), 0);
    StripLinesNoDouble(CollapseBlankLines(CollapseSpaces(text)));
  }

  // ---------------------------------------------------------------------------
  // No three line breaks in a row

  predicate NoTripleNewline(t: string)
  {
    forall k :: 0 <= k && k + 2 < |t| ==> !(t[k] == '\n' && t[k + 1] == '\n' && t[k + 2] == '\n')
  }

  /** A joined text that starts with a line break starts with an empty line. */
  lemma JoinStartsWithNewline(ls: seq<string>)
    requires forall i :: 0 <= i < |ls| ==> '\n' !in ls[i]
    requires Join(ls) != [] && Join(ls)[0] == '\n'
    ensures |ls| > 1 && ls[0] == [] && Join(ls) == "\n" + Join(ls[1..])
  {
    if ls[0] != [] {
      JoinHead(ls);
    } else if |ls| > 1 {
      JoinEmptyHead(ls);
    }
  }

  /** Lines with no line break whose inner pairs are never both empty join without "\n\n\n". */
  lemma {:induction false} JoinNoTripleNewline(ls: seq<string>)
    requires forall i :: 0 <= i < |ls| ==> '\n' !in ls[i]
    requires InteriorEmptyPairsFree(ls)
    ensures NoTripleNewline(Join(ls))
  {
    if |ls| > 1 {
      var tl := ls[1..];
      assert forall i :: 0 <= i < |tl| ==> tl[i] == ls[i + 1];
      JoinNoTripleNewline(tl);
      var a, b := ls[0], Join(tl);
      var t := a + "\n" + b;
      assert Join(ls) == t;
      forall k | 0 <= k && k + 2 < |t|
        ensures !(t[k] == '\n' && t[k + 1] == '\n' && t[k + 2] == '\n')
      {
        if k < |a| {
          assert t[k] == a[k] && a[k] in a;
        } else if k == |a| {
          if t[k + 1] == '\n' && t[k + 2] == '\n' {
            assert b[0] == '\n';
            JoinStartsWithNewline(tl);
          }
        } else {
          assert t[k] == b[k - |a| - 1] && t[k + 1] == b[k - |a|] && t[k + 2] == b[k - |a| + 1];
        }
      }
    }
  }

  /** Tidy lines never hold three line breaks in a row. */
  lemma TidyNoTripleNewline(r: string)
    requires TidyLines(r)
    ensures NoTripleNewline(r)
  {
    JoinSplit(r);
    JoinNoTripleNewline(Split(r));
  }

  /** No three line breaks follow each other anywhere in the result. */
  lemma CleanWhitespaceNoTripleNewline(text: string)
    ensures NoTripleNewline(CleanWhitespace(text))
  {
    CleanWhitespaceLines(text);
    TidyNoTripleNewline(CleanWhitespace(text));
  }

  // ---------------------------------------------------------------------------
  // Never longer

  lemma SpacesShrink(s: string)
    ensures WellFormed(SpacesAt, s) && NeverLonger(SpacesAt, s)
  {
  }

  lemma BlankLinesShrink(s: string)
    ensures WellFormed(BlankLinesAt, s) && NeverLonger(BlankLinesAt, s)
  {
    forall i | 0 <= i < |s| && BlankLinesAt(s, i).Some?
      ensures |BlankLinesAt(s, i).value.replacement| <= BlankLinesAt(s, i).value.end - i
    {
      var e := SpaceEnd(s, i + 1);
      var last := LastNewline(s, i + 1, e).value;
      assert LastNewline(s, i + 1, last).Some?;
    }
  }

  /** Stripping each line never lengthens the joined text. */
  lemma {:induction false} JoinStripLinesShorter(ls: seq<string>)
    ensures |Join(StripLines(ls))| <= |Join(ls)|
  {
    if |ls| > 1 {
      JoinStripLinesShorter(ls[1..]);
      assert StripLines(ls)[1..] == StripLines(ls[1..]);
    }
  }

  /** The result is never longer than the input. */
  lemma CleanWhitespaceShrinks(text: string)
    ensures |CleanWhitespace(text)| <= |text|
  {
    SpacesShrink(text);
    SubShrinks(SpacesAt, text);
    var c := CollapseSpaces(text);
    BlankLinesShrink(c);
    SubShrinks(BlankLinesAt, c);
    var u := CollapseBlankLines(c);
    JoinSplit(u);
    JoinStripLinesShorter(Split(u));
  }
}
