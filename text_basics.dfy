/**
 * Character classes and the string operations of Python that the cleaner
 * builds on: `str.isspace` (the regex class `\s`), the word class `\w`,
 * `str.strip()`, `str.split('\n')` / `'\n'.join(...)`, `str.split()` and
 * ASCII case folding.
 */
module TextBasics {

  /** The characters for which Python's `str.isspace()` holds; `\s` matches exactly these. */
  const SpaceChars: set<char> := {
      '\U{9}', '\U{A}', '\U{B}', '\U{C}', '\U{D}', '\U{1C}', '\U{1D}', '\U{1E}',
      '\U{1F}', '\U{20}', '\U{85}', '\U{A0}', '\U{1680}', '\U{2000}', '\U{2001}', '\U{2002}',
      '\U{2003}', '\U{2004}', '\U{2005}', '\U{2006}', '\U{2007}', '\U{2008}', '\U{2009}', '\U{200A}',
      '\U{2028}', '\U{2029}', '\U{202F}', '\U{205F}', '\U{3000}'
    }

  predicate IsSpace(c: char)
  {
    c in SpaceChars
  }

  /** `\d`, restricted to the ASCII digits. */
  predicate IsDigit(c: char)
  {
    '0' <= c <= '9'
  }

  predicate IsAsciiLetter(c: char)
  {
    ('a' <= c <= 'z') || ('A' <= c <= 'Z')
  }

  /**
   * `\w`: letters, digits and the underscore.  Exact on Latin-1 and the Latin
   * Extended-A/B blocks; other scripts are treated as non-word characters.
   */
  predicate IsWordChar(c: char)
  {
    var n := c as int;
    IsAsciiLetter(c) || IsDigit(c) || n == 0x5F
    || n == 0xAA || n == 0xB2 || n == 0xB3 || n == 0xB5 || n == 0xB9 || n == 0xBA
    || (0xBC <= n <= 0xBE) || (0xC0 <= n <= 0x24F && n != 0xD7 && n != 0xF7)
  }

  lemma SpaceIsNotWord(c: char)
    ensures IsSpace(c) ==> !IsWordChar(c)
    ensures IsDigit(c) ==> IsWordChar(c) && !IsSpace(c)
  {
  }

  /** ASCII lower-casing; every other character is its own lower case. */
  function ToLower(c: char): (d: char)
    ensures IsAsciiLetter(c) <==> IsAsciiLetter(d)
    ensures !IsAsciiLetter(c) ==> d == c
    ensures 'a' <= d <= 'z' || !('A' <= d <= 'Z')
  {
    if 'A' <= c <= 'Z' then (c as int + 32) as char else c
  }

  function Lower(s: string): (r: string)
    ensures |r| == |s|
    ensures forall i :: 0 <= i < |s| ==> r[i] == ToLower(s[i])
  {
    if s == [] then [] else [ToLower(s[0])] + Lower(s[1..])
  }

  /** Equality up to ASCII case, as a regex with IGNORECASE compares two characters. */
  predicate SameIgnoringCase(c: char, d: char)
  {
    ToLower(c) == ToLower(d)
  }

  lemma SameIgnoringCaseKeepsWord(c: char, d: char)
    requires SameIgnoringCase(c, d)
    ensures IsWordChar(c) <==> IsWordChar(d)
  {
  }

  predicate EqualIgnoringCase(s: string, t: string)
  {
    |s| == |t| && forall i :: 0 <= i < |s| ==> SameIgnoringCase(s[i], t[i])
  }

  predicate AllSpace(s: string)
  {
    forall i :: 0 <= i < |s| ==> IsSpace(s[i])
  }

  predicate AllWordChars(s: string)
  {
    forall i :: 0 <= i < |s| ==> IsWordChar(s[i])
  }

  predicate AllDigits(s: string)
  {
    forall i :: 0 <= i < |s| ==> IsDigit(s[i])
  }

  predicate NoDigits(s: string)
  {
    forall i :: 0 <= i < |s| ==> !IsDigit(s[i])
  }

  /** `t` occurs in `s` at position `i`. */
  predicate OccursAt(s: string, i: nat, t: string)
  {
    i + |t| <= |s| && s[i..i + |t|] == t
  }

  /** Python's `t in s`. */
  predicate Contains(s: string, t: string)
  {
    exists i :: 0 <= i <= |s| && OccursAt(s, i, t)
  }

  /** The number of times `c` occurs in `s`. */
  function CountChar(s: string, c: char): (n: nat)
    ensures n <= |s|
    ensures n == 0 <==> c !in s
  {
    if s == [] then 0 else (if s[0] == c then 1 else 0) + CountChar(s[1..], c)
  }

  lemma CountCharAppend(s: string, t: string, c: char)
    ensures CountChar(s + t, c) == CountChar(s, c) + CountChar(t, c)
  {
    if s == [] {
      assert s + t == t;
    } else {
      assert (s + t)[1..] == s[1..] + t;
      CountCharAppend(s[1..], t, c);
    }
  }

  // ---------------------------------------------------------------------------
  // Maximal runs, as greedy `\w+`, `\s*` and `\d+` consume them

  /** The end of the maximal run of word characters that starts at `i`. */
  function WordEnd(s: string, i: nat): (k: nat)
    requires i <= |s|
    ensures i <= k <= |s|
    ensures forall j :: i <= j < k ==> IsWordChar(s[j])
    ensures k == |s| || !IsWordChar(s[k])
    decreases |s| - i
  {
    if i == |s| || !IsWordChar(s[i]) then i else WordEnd(s, i + 1)
  }

  /** The end of the maximal run of whitespace that starts at `i`. */
  function SpaceEnd(s: string, i: nat): (k: nat)
    requires i <= |s|
    ensures i <= k <= |s|
    ensures forall j :: i <= j < k ==> IsSpace(s[j])
    ensures k == |s| || !IsSpace(s[k])
    decreases |s| - i
  {
    if i == |s| || !IsSpace(s[i]) then i else SpaceEnd(s, i + 1)
  }

  /** The end of the maximal run of digits that starts at `i`. */
  function DigitEnd(s: string, i: nat): (k: nat)
    requires i <= |s|
    ensures i <= k <= |s|
    ensures forall j :: i <= j < k ==> IsDigit(s[j])
    ensures k == |s| || !IsDigit(s[k])
    decreases |s| - i
  {
    if i == |s| || !IsDigit(s[i]) then i else DigitEnd(s, i + 1)
  }

  lemma {:induction false} WordRunIs(s: string, i: nat, k: nat)
    requires i <= k <= |s|
    requires forall j :: i <= j < k ==> IsWordChar(s[j])
    requires k == |s| || !IsWordChar(s[k])
    ensures WordEnd(s, i) == k
    decreases k - i
  {
    if i < k {
      WordRunIs(s, i + 1, k);
    }
  }

  lemma {:induction false} SpaceRunIs(s: string, i: nat, k: nat)
    requires i <= k <= |s|
    requires forall j :: i <= j < k ==> IsSpace(s[j])
    requires k == |s| || !IsSpace(s[k])
    ensures SpaceEnd(s, i) == k
    decreases k - i
  {
    if i < k {
      SpaceRunIs(s, i + 1, k);
    }
  }

  lemma {:induction false} DigitRunIs(s: string, i: nat, k: nat)
    requires i <= k <= |s|
    requires forall j :: i <= j < k ==> IsDigit(s[j])
    requires k == |s| || !IsDigit(s[k])
    ensures DigitEnd(s, i) == k
    decreases k - i
  {
    if i < k {
      DigitRunIs(s, i + 1, k);
    }
  }

  /** `SpaceRunIs`, for a run given as a slice. */
  lemma SpaceSliceIs(s: string, i: nat, k: nat)
    requires i <= k <= |s| && AllSpace(s[i..k])
    requires k == |s| || !IsSpace(s[k])
    ensures SpaceEnd(s, i) == k
  {
    forall j | i <= j < k ensures IsSpace(s[j]) {
      assert s[j] == s[i..k][j - i];
    }
    SpaceRunIs(s, i, k);
  }

  /** `DigitRunIs`, for a run given as a slice. */
  lemma DigitSliceIs(s: string, i: nat, k: nat)
    requires i <= k <= |s| && AllDigits(s[i..k])
    requires k == |s| || !IsDigit(s[k])
    ensures DigitEnd(s, i) == k
  {
    forall j | i <= j < k ensures IsDigit(s[j]) {
      assert s[j] == s[i..k][j - i];
    }
    DigitRunIs(s, i, k);
  }

  /** `\b` at position `k`: exactly one of the characters around it is a word character. */
  predicate WordBoundary(s: string, k: nat)
    requires k <= |s|
  {
    (k > 0 && IsWordChar(s[k - 1])) != (k < |s| && IsWordChar(s[k]))
  }

  // ---------------------------------------------------------------------------
  // str.strip()

  function TrimStart(s: string): (r: string)
    ensures |r| <= |s| && r == s[|s| - |r|..]
    ensures r == [] || !IsSpace(r[0])
  {
    if s == [] || !IsSpace(s[0]) then s else TrimStart(s[1..])
  }

  /** Everything `TrimStart` drops is whitespace. */
  lemma {:induction false} TrimStartSkipsSpace(s: string)
    ensures forall j :: 0 <= j < |s| - |TrimStart(s)| ==> IsSpace(s[j])
  {
    if s != [] && IsSpace(s[0]) {
      TrimStartSkipsSpace(s[1..]);
      assert forall j :: 1 <= j < |s| ==> s[j] == s[1..][j - 1];
    }
  }

  function TrimEnd(s: string): (r: string)
    ensures |r| <= |s| && r == s[..|r|]
    ensures r == [] || !IsSpace(r[|r| - 1])
    ensures s != [] && !IsSpace(s[0]) ==> r != []
  {
    if s == [] || !IsSpace(s[|s| - 1]) then s else TrimEnd(s[..|s| - 1])
  }

  /** Python's `str.strip()`: whitespace removed from both ends. */
  function Strip(s: string): (r: string)
  {
    TrimEnd(TrimStart(s))
  }

  /** `Strip(s)` is the slice of `s` that starts after its leading whitespace. */
  lemma StripIsSlice(s: string) returns (k: nat)
    ensures k + |Strip(s)| <= |s| && Strip(s) == s[k..k + |Strip(s)|]
  {
    k := |s| - |TrimStart(s)|;
  }

  lemma StripEnds(s: string)
    ensures Strip(s) == [] || (!IsSpace(Strip(s)[0]) && !IsSpace(Strip(s)[|Strip(s)| - 1]))
  {
    var t := TrimStart(s);
    if Strip(s) != [] {
      assert Strip(s)[0] == t[0];
    }
  }

  lemma {:induction false} StripEmptyIffAllSpace(s: string)
    ensures AllSpace(s) <==> Strip(s) == []
  {
    var t := TrimStart(s);
    var k := |s| - |t|;
    if Strip(s) == [] {
      TrimStartSkipsSpace(s);
    } else {
      assert !IsSpace(s[k]);
    }
  }

  lemma StripNoop(s: string)
    requires s == [] || (!IsSpace(s[0]) && !IsSpace(s[|s| - 1]))
    ensures Strip(s) == s
  {
  }

  // ---------------------------------------------------------------------------
  // str.split('\n') and '\n'.join(...)

  /** Python's `s.split('\n')`: never empty, and no piece holds a newline. */
  function Split(s: string): (r: seq<string>)
    ensures |r| >= 1
    ensures forall i :: 0 <= i < |r| ==> '\n' !in r[i]
    ensures |r| == CountChar(s, '\n') + 1
  {
    if s == [] then [[]]
    else if s[0] == '\n' then [[]] + Split(s[1..])
    else
      var rest := Split(s[1..]);
      [[s[0]] + rest[0]] + rest[1..]
  }

  /** Python's `'\n'.join(ls)`. */
  function Join(ls: seq<string>): string
  {
    if |ls| == 0 then []
    else if |ls| == 1 then ls[0]
    else ls[0] + "\n" + Join(ls[1..])
  }

  lemma {:induction false} JoinSplit(s: string)
    ensures Join(Split(s)) == s
  {
    if s == [] {
    } else if s[0] == '\n' {
      JoinSplit(s[1..]);
      assert Split(s) == [[]] + Split(s[1..]);
      assert s == [] + "\n" + s[1..];
    } else {
      JoinSplit(s[1..]);
      var rest := Split(s[1..]);
      var x := [s[0]] + rest[0];
      assert Split(s) == [x] + rest[1..];
      if |rest| == 1 {
        calc {
          Join([x] + rest[1..]);
          { assert [x] + rest[1..] == [x]; }
          x;
          [s[0]] + s[1..];
        }
      } else {
        calc {
          Join([x] + rest[1..]);
          { assert ([x] + rest[1..])[1..] == rest[1..]; }
          x + "\n" + Join(rest[1..]);
          { assert x + "\n" + Join(rest[1..]) == [s[0]] + (rest[0] + "\n" + Join(rest[1..])); }
          [s[0]] + Join(rest);
          [s[0]] + s[1..];
        }
      }
      assert [s[0]] + s[1..] == s;
    }
  }

  lemma {:induction false} SplitJoin(ls: seq<string>)
    requires |ls| >= 1
    requires forall i :: 0 <= i < |ls| ==> '\n' !in ls[i]
    ensures Split(Join(ls)) == ls
  {
    if |ls| == 1 {
      SplitNoNewline(ls[0]);
    } else {
      SplitJoin(ls[1..]);
      SplitPrefix(ls[0], Join(ls[1..]));
      assert ls == [ls[0]] + ls[1..];
    }
  }

  lemma {:induction false} SplitNoNewline(s: string)
    requires '\n' !in s
    ensures Split(s) == [s]
  {
    if s != [] {
      SplitNoNewline(s[1..]);
      assert [s[0]] + s[1..] == s;
    }
  }

  lemma {:induction false} SplitPrefix(p: string, t: string)
    requires '\n' !in p
    ensures Split(p + "\n" + t) == [p] + Split(t)
  {
    if p == [] {
      assert p + "\n" + t == "\n" + t;
      assert ("\n" + t)[1..] == t;
    } else {
      var u := p + "\n" + t;
      assert u[0] == p[0] && u[1..] == p[1..] + "\n" + t;
      SplitPrefix(p[1..], t);
      var rest := Split(u[1..]);
      assert rest[0] == p[1..] && rest[1..] == Split(t);
      assert [p[0]] + p[1..] == p;
    }
  }

  lemma AppendAssoc(a: string, b: string, c: string)
    ensures (a + b) + c == a + (b + c)
  {
  }

  /** The five pieces of `a + b + c + d + e` are its slices at the running lengths. */
  lemma FivePieces(a: string, b: string, c: string, d: string, e: string)
    ensures (a + b + c + d + e)[..|a|] == a
    ensures (a + b + c + d + e)[|a|..|a| + |b|] == b
    ensures (a + b + c + d + e)[|a| + |b|..|a| + |b| + |c|] == c
    ensures (a + b + c + d + e)[|a| + |b| + |c|..|a| + |b| + |c| + |d|] == d
    ensures (a + b + c + d + e)[|a| + |b| + |c| + |d|..] == e
  {
    var s := a + b + c + d + e;
    var i, j, k := |a|, |a| + |b|, |a| + |b| + |c|;
    var l := k + |d|;
    assert s[..l] == a + b + c + d;
    assert s[..k] == (a + b + c + d)[..k] == a + b + c;
    assert s[..j] == (a + b + c)[..j] == a + b;
    assert s[..i] == (a + b)[..i] == a;
    assert s[i..j] == (a + b)[i..];
    assert s[j..k] == (a + b + c)[j..];
    assert s[k..l] == (a + b + c + d)[k..];
  }

  /** `'\n'.join` splits at any line boundary. */
  lemma {:induction false} JoinAt(ls: seq<string>, k: nat)
    requires 0 < k < |ls|
    ensures Join(ls) == Join(ls[..k]) + "\n" + Join(ls[k..])
    decreases k
  {
    if k == 1 {
      assert ls[..1] == [ls[0]];
    } else {
      var tl := ls[1..];
      JoinAt(tl, k - 1);
      assert tl[k - 1..] == ls[k..];
      assert ls[..k][0] == ls[0] && ls[..k][1..] == tl[..k - 1];
      calc {
        Join(ls);
        ls[0] + "\n" + Join(tl);
        ls[0] + "\n" + (Join(tl[..k - 1]) + "\n" + Join(ls[k..]));
        (ls[0] + "\n" + Join(tl[..k - 1])) + "\n" + Join(ls[k..]);
        Join(ls[..k]) + "\n" + Join(ls[k..]);
      }
    }
  }

  /** Two consecutive lines inside a joined text, with the newlines around them. */
  lemma JoinAround(ls: seq<string>, p: nat)
    requires 1 <= p && p + 2 < |ls|
    ensures Join(ls) == (Join(ls[..p]) + ("\n" + ls[p] + "\n" + ls[p + 1] + "\n")) + Join(ls[p + 2..])
  {
    var tl := ls[p..];
    var a, x, y, b := Join(ls[..p]), ls[p], ls[p + 1], Join(ls[p + 2..]);
    assert Join(ls) == (a + "\n") + Join(tl) by { JoinAt(ls, p); }
    assert Join(tl) == (x + "\n") + ((y + "\n") + b) by {
      assert tl[1..][0] == y && tl[1..][1..] == ls[p + 2..];
      assert Join(tl[1..]) == (y + "\n") + b;
      assert Join(tl) == (x + "\n") + Join(tl[1..]);
    }
    Regroup(a, x, y, b);
  }

  lemma Regroup(a: string, x: string, y: string, b: string)
    ensures (a + "\n") + ((x + "\n") + ((y + "\n") + b)) == (a + ("\n" + x + "\n" + y + "\n")) + b
  {
    var w := "\n" + x + "\n" + y + "\n";
    assert a + w == ((a + "\n") + (x + "\n")) + (y + "\n");
    AppendAssoc(a + "\n", x + "\n", (y + "\n") + b);
    AppendAssoc((a + "\n") + (x + "\n"), y + "\n", b);
  }

  /** Every line stands, whole, somewhere in the joined text. */
  lemma LineInfix(ls: seq<string>, i: nat) returns (x: string, y: string)
    requires i < |ls|
    ensures Join(ls) == x + ls[i] + y
  {
    y := [];
    if i + 1 < |ls| {
      JoinAt(ls, i + 1);
      y := "\n" + Join(ls[i + 1..]);
    } else {
      assert ls[..i + 1] == ls;
    }
    assert Join(ls) == Join(ls[..i + 1]) + y;
    if i == 0 {
      x := [];
      assert ls[..1] == [ls[0]];
    } else {
      var init := ls[..i + 1];
      JoinAt(init, i);
      assert init[..i] == ls[..i] && init[i..] == [ls[i]];
      x := Join(ls[..i]) + "\n";
    }
  }

  lemma {:induction false} JoinLength(ls: seq<string>)
    requires |ls| >= 1
    ensures |Join(ls)| == SumLengths(ls) + |ls| - 1
  {
    if |ls| > 1 {
      JoinLength(ls[1..]);
    }
  }

  function SumLengths(ls: seq<string>): nat
  {
    if ls == [] then 0 else |ls[0]| + SumLengths(ls[1..])
  }

  // ---------------------------------------------------------------------------
  // str.split() with no argument

  /** The end of the run of non-space characters that starts at `i`. */
  function RunEnd(s: string, i: nat): (k: nat)
    requires i <= |s|
    ensures i <= k <= |s|
    ensures forall j :: i <= j < k ==> !IsSpace(s[j])
    ensures k == |s| || IsSpace(s[k])
    decreases |s| - i
  {
    if i == |s| || IsSpace(s[i]) then i else RunEnd(s, i + 1)
  }

  predicate NoSpace(s: string)
  {
    forall j :: 0 <= j < |s| ==> !IsSpace(s[j])
  }

  /** The words of `s[i..]`: each maximal run of non-whitespace characters, in order. */
  function WordsFrom(s: string, i: nat): (ws: seq<string>)
    requires i <= |s|
    decreases |s| - i
  {
    if i == |s| then []
    else if IsSpace(s[i]) then WordsFrom(s, i + 1)
    else
      var k := RunEnd(s, i);
      [s[i..k]] + WordsFrom(s, k)
  }

  /** Python's `s.split()`: the maximal runs of non-whitespace characters. */
  function Words(s: string): (ws: seq<string>)
  {
    WordsFrom(s, 0)
  }

  /** Every word is a nonempty run of non-whitespace characters. */
  lemma {:induction false} WordsAreRuns(s: string, i: nat)
    requires i <= |s|
    ensures forall n :: 0 <= n < |WordsFrom(s, i)| ==> WordsFrom(s, i)[n] != [] && NoSpace(WordsFrom(s, i)[n])
    decreases |s| - i
  {
    if i < |s| {
      if IsSpace(s[i]) {
        WordsAreRuns(s, i + 1);
      } else {
        var k := RunEnd(s, i);
        WordsAreRuns(s, k);
        var ws := WordsFrom(s, i);
        assert forall n :: 1 <= n < |ws| ==> ws[n] == WordsFrom(s, k)[n - 1];
      }
    }
  }

  /** `len(s.split())`. */
  function WordCount(s: string): nat
  {
    |Words(s)|
  }

  lemma {:induction false} NoWordsFrom(s: string, i: nat)
    requires i <= |s|
    ensures WordsFrom(s, i) == [] <==> forall j :: i <= j < |s| ==> IsSpace(s[j])
    decreases |s| - i
  {
    if i < |s| && IsSpace(s[i]) {
      NoWordsFrom(s, i + 1);
    }
  }

  /** A text has no words exactly when it is all whitespace. */
  lemma NoWordsIffAllSpace(s: string)
    ensures WordCount(s) == 0 <==> AllSpace(s)
  {
    NoWordsFrom(s, 0);
  }
}
