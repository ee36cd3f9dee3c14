/**
 * `TextCleaner.normalize_medical_terms`: four diabetes abbreviations are
 * expanded, each by `re.sub(r'\bABBR\b', expansion, text, flags=re.IGNORECASE)`,
 * one after the other in the order of the source's dictionary.
 */
module MedicalTerms {
  import opened TextBasics
  import opened Wrappers
  import opened RegexSub

  /** The dictionary of the source, in insertion order. */
  const Abbreviations: seq<(string, string)> := [
    ("DT1", "diabète de type 1"),
    ("DT2", "diabète de type 2"),
    ("HbA1c", "hémoglobine glyquée"),
    ("IMC", "indice de masse corporelle")
  ]

  /** A pattern word: non-empty and made of word characters only. */
  predicate IsTerm(v: string)
  {
    v != [] && AllWordChars(v)
  }

  /**
   * `t` holds `v`, up to ASCII case, as a whole word at `j`: not preceded or
   * followed by a word character.  `before` says whether the character just
   * before `t` (if any) is a word character.
   */
  predicate WholeAt(t: string, before: bool, j: nat, v: string)
  {
    j + |v| <= |t| && EqualIgnoringCase(t[j..j + |v|], v)
    && (if j == 0 then !before else !IsWordChar(t[j - 1]))
    && (j + |v| == |t| || !IsWordChar(t[j + |v|]))
  }

  /** `t` holds `v` nowhere as a whole word. */
  predicate FreeOf(t: string, before: bool, v: string)
  {
    forall j :: 0 <= j <= |t| ==> !WholeAt(t, before, j, v)
  }

  /** `\bW\b` with IGNORECASE, tried at `i`. */
  function TermMatch(w: string, r: string, s: string, i: nat): (m: Option<Match>)
    ensures m.Some? ==> m.value == Match(i + |w|, r)
  {
    if i + |w| <= |s| && WordBoundary(s, i) && EqualIgnoringCase(s[i..i + |w|], w)
       && WordBoundary(s, i + |w|)
    then Some(Match(i + |w|, r))
    else None
  }

  function TermAt(w: string, r: string): Matcher
  {
    (s: string, i: nat) => TermMatch(w, r, s, i)
  }

  lemma TermWellFormed(w: string, r: string, s: string)
    requires w != []
    ensures WellFormed(TermAt(w, r), s)
  {
  }

  /** The pattern matches exactly at the whole-word occurrences of the abbreviation. */
  lemma TermMatchIsWholeWord(w: string, r: string, s: string, i: nat)
    requires IsTerm(w)
    ensures TermMatch(w, r, s, i).Some? <==> WholeAt(s, false, i, w)
  {
    var e := i + |w|;
    if e <= |s| && EqualIgnoringCase(s[i..e], w) {
      assert s[i..e][0] == s[i];
      assert s[i..e][|w| - 1] == s[e - 1];
      SameIgnoringCaseKeepsWord(s[i], w[0]);
      SameIgnoringCaseKeepsWord(s[e - 1], w[|w| - 1]);
    }
  }

  /** One `re.sub` call of the loop. */
  function ReplaceTerm(w: string, r: string, text: string): string
    requires w != []
  {
    TermWellFormed(w, r, text);
    Sub(TermAt(w, r), text)
  }

  /** The text after the first `k` dictionary entries have been applied. */
  function NormalizedUpTo(text: string, k: nat): string
    requires k <= |Abbreviations|
  {
    if k == 0 then text
    else ReplaceTerm(Abbreviations[k - 1].0, Abbreviations[k - 1].1, NormalizedUpTo(text, k - 1))
  }

  function Normalized(text: string): string
  {
    NormalizedUpTo(text, |Abbreviations|)
  }

  /** The loop of the source over its dictionary. */
  method NormalizeMedicalTerms(text: string) returns (r: string)
    ensures r == Normalized(text)
    ensures forall k :: 0 <= k < |Abbreviations| ==> FreeOf(r, false, Abbreviations[k].0)
  {
    r := text;
    for k := 0 to |Abbreviations|
      invariant r == NormalizedUpTo(text, k)
    {
      r := ReplaceTerm(Abbreviations[k].0, Abbreviations[k].1, r);
    }
    NoAbbreviationRemains(text);
  }

  // ---------------------------------------------------------------------------
  // No abbreviation survives as a whole word.

  /** A whole-word occurrence of a pattern word consists of word characters. */
  lemma WholeAtWords(t: string, before: bool, j: nat, v: string)
    requires IsTerm(v)
    ensures WholeAt(t, before, j, v) ==> forall p :: j <= p < j + |v| ==> IsWordChar(t[p])
  {
    if j + |v| <= |t| && EqualIgnoringCase(t[j..j + |v|], v) {
      forall p | j <= p < j + |v| ensures IsWordChar(t[p]) {
        assert t[j..j + |v|][p - j] == t[p];
        SameIgnoringCaseKeepsWord(t[p], v[p - j]);
      }
    }
  }

  /** An occurrence in the second part of a concatenation is one in that part, seen after the first. */
  lemma WholeAtShift(a: string, b: string, before: bool, j: nat, v: string)
    requires |a| <= j
    ensures WholeAt(a + b, before, j, v) ==>
      WholeAt(b, if a == [] then before else IsWordChar(a[|a| - 1]), j - |a|, v)
  {
    var t := a + b;
    if j + |v| <= |t| {
      assert t[j..j + |v|] == b[j - |a|..j - |a| + |v|];
    }
  }

  /** An occurrence inside the first part, when the second part starts with a non-word character. */
  lemma WholeAtInFirst(a: string, b: string, before: bool, j: nat, v: string)
    requires j + |v| <= |a| && (b == [] || !IsWordChar(b[0]))
    ensures WholeAt(a + b, before, j, v) ==> WholeAt(a, before, j, v)
  {
    var t := a + b;
    assert t[j..j + |v|] == a[j..j + |v|];
    if j + |v| < |a| {
      assert t[j + |v|] == a[j + |v|];
    }
  }

  /**
   * A run of word characters where the pattern does not match at its first
   * character is copied: inside the run `\b` fails.
   */
  lemma CopiesWord(w: string, r: string, s: string, i: nat, k: nat)
    requires IsTerm(w) && WellFormed(TermAt(w, r), s)
    requires i <= k <= |s| && forall p :: i <= p < k ==> IsWordChar(s[p])
    requires i < k ==> TermAt(w, r)(s, i).None?
    ensures SubFrom(TermAt(w, r), s, i) == s[i..k] + SubFrom(TermAt(w, r), s, k)
  {
    forall p | i < p < k
      ensures TermAt(w, r)(s, p).None?
    {
      assert !WordBoundary(s, p);
    }
    SubFromCopies(TermAt(w, r), s, i, k);
  }

  /** The pattern never matches at a character that is not a word character. */
  lemma NoMatchAtNonWord(w: string, r: string, s: string, i: nat)
    requires IsTerm(w) && i < |s| && !IsWordChar(s[i])
    ensures TermMatch(w, r, s, i).None?
  {
    TermMatchIsWholeWord(w, r, s, i);
    WholeAtWords(s, false, i, w);
  }

  /**
   * After one substitution pass for `w` the text holds `v` nowhere as a whole
   * word, provided the replacement does not hold it and either `v` is `w`
   * itself or the input did not hold it.  The replacement ends in a word
   * character, as the abbreviation it replaces does, so the text after it is
   * seen in the same context as before.
   */
  lemma {:induction false} PassFrees(w: string, r: string, v: string, s: string, i: nat)
    requires IsTerm(w) && IsTerm(v) && WellFormed(TermAt(w, r), s)
    requires r != [] && IsWordChar(r[|r| - 1]) && FreeOf(r, false, v)
    requires v == w || FreeOf(s, false, v)
    requires i <= |s|
    ensures FreeOf(SubFrom(TermAt(w, r), s, i), i > 0 && IsWordChar(s[i - 1]), v)
    decreases |s| - i
  {
    if i < |s| {
      if TermAt(w, r)(s, i).Some? {
        MatchEnd(w, r, s, i);
        PassFrees(w, r, v, s, i + |w|);
        MatchedFree(w, r, v, s, i);
      } else {
        PassFrees(w, r, v, s, i + 1);
        CopiedFree(w, r, v, s, i);
      }
    }
  }

  /** A match of the pattern ends inside `s`, on a word character. */
  lemma MatchEnd(w: string, r: string, s: string, i: nat)
    requires IsTerm(w) && TermAt(w, r)(s, i).Some?
    ensures i + |w| <= |s| && IsWordChar(s[i + |w| - 1])
  {
    TermMatchIsWholeWord(w, r, s, i);
    WholeAtWords(s, false, i, w);
  }

  /** The step of `PassFrees` where the pattern matches at `i`. */
  lemma MatchedFree(w: string, r: string, v: string, s: string, i: nat)
    requires IsTerm(w) && IsTerm(v) && WellFormed(TermAt(w, r), s)
    requires r != [] && IsWordChar(r[|r| - 1]) && FreeOf(r, false, v)
    requires i < |s| && TermAt(w, r)(s, i).Some?
    requires FreeOf(SubFrom(TermAt(w, r), s, i + |w|), true, v)
    ensures FreeOf(SubFrom(TermAt(w, r), s, i), i > 0 && IsWordChar(s[i - 1]), v)
  {
    var m := TermAt(w, r);
    var before := i > 0 && IsWordChar(s[i - 1]);
    var out := SubFrom(m, s, i);
    var e := i + |w|;
    TermMatchIsWholeWord(w, r, s, i);
    WholeAtWords(s, false, i, w);
    assert !before;
    var rest := SubFrom(m, s, e);
    assert out == r + rest;
    if e < |s| {
      NoMatchAtNonWord(w, r, s, e);
      assert rest[0] == s[e];
    }
    forall j | 0 <= j <= |out| ensures !WholeAt(out, before, j, v) {
      WholeAtWords(out, before, j, v);
      if j >= |r| {
        WholeAtShift(r, rest, before, j, v);
      } else if j + |v| <= |r| {
        WholeAtInFirst(r, rest, before, j, v);
      } else if rest != [] {
        assert out[|r|] == rest[0];
      }
    }
  }

  /** The step of `PassFrees` where the pattern does not match at `i` and `s[i]` is copied. */
  lemma CopiedFree(w: string, r: string, v: string, s: string, i: nat)
    requires IsTerm(w) && IsTerm(v) && WellFormed(TermAt(w, r), s)
    requires v == w || FreeOf(s, false, v)
    requires i < |s| && TermAt(w, r)(s, i).None?
    requires FreeOf(SubFrom(TermAt(w, r), s, i + 1), IsWordChar(s[i]), v)
    ensures FreeOf(SubFrom(TermAt(w, r), s, i), i > 0 && IsWordChar(s[i - 1]), v)
  {
    var m := TermAt(w, r);
    var before := i > 0 && IsWordChar(s[i - 1]);
    var out := SubFrom(m, s, i);
    var rest := SubFrom(m, s, i + 1);
    assert out == [s[i]] + rest;
    TermMatchIsWholeWord(w, r, s, i);
    forall j | 0 <= j <= |out| ensures !WholeAt(out, before, j, v) {
      if j >= 1 {
        WholeAtShift([s[i]], rest, before, j, v);
      } else {
        FirstWordCopied(w, r, v, s, i);
      }
    }
  }

  /**
   * Where the pattern does not match at a word character `s[i]`, the output
   * starts with the whole word run from `i`, followed by the character that
   * ends the run.
   */
  lemma WordRunCopied(w: string, r: string, s: string, i: nat) returns (k: nat)
    requires IsTerm(w) && WellFormed(TermAt(w, r), s)
    requires i < |s| && TermAt(w, r)(s, i).None?
    ensures i <= k <= |s| && k == WordEnd(s, i)
    ensures var tail := SubFrom(TermAt(w, r), s, k);
      SubFrom(TermAt(w, r), s, i) == s[i..k] + tail
      && (k == |s| ==> tail == []) && (k < |s| ==> tail != [] && tail[0] == s[k])
  {
    k := WordEnd(s, i);
    CopiesWord(w, r, s, i, k);
    if k < |s| {
      NoMatchAtNonWord(w, r, s, k);
      assert SubFrom(TermAt(w, r), s, k) == [s[k]] + SubFrom(TermAt(w, r), s, k + 1);
    }
  }

  /**
   * Where the pattern does not match at `i`, an occurrence of `v` at the start
   * of the output is a whole-word occurrence in the input at `i`.
   */
  lemma FirstWordCopied(w: string, r: string, v: string, s: string, i: nat)
    requires IsTerm(w) && IsTerm(v) && WellFormed(TermAt(w, r), s)
    requires i < |s| && TermAt(w, r)(s, i).None?
    ensures var out := SubFrom(TermAt(w, r), s, i);
      WholeAt(out, i > 0 && IsWordChar(s[i - 1]), 0, v) ==> WholeAt(s, false, i, v)
  {
    var out := SubFrom(TermAt(w, r), s, i);
    var before := i > 0 && IsWordChar(s[i - 1]);
    WholeAtWords(out, before, 0, v);
    var k := WordRunCopied(w, r, s, i);
    var tail := SubFrom(TermAt(w, r), s, k);
    if |v| == k - i {
      assert s[i..k] == out[..k - i];
      if k < |s| {
        assert out[k - i] == tail[0];
      }
    } else if |v| < k - i {
      assert out[|v|] == s[i + |v|];
    } else if k < |s| {
      assert out[k - i] == tail[0];
    }
  }

  /** No expansion holds any of the four abbreviations as a whole word. */
  lemma ExpansionFree(k: nat)
    requires k < |Abbreviations|
    ensures forall j :: 0 <= j < |Abbreviations| ==> FreeOf(Abbreviations[k].1, false, Abbreviations[j].0)
  {
    if k == 0 {
      Type1Free();
    } else if k == 1 {
      Type2Free();
    } else if k == 2 {
      HbA1cFree();
    } else {
      ImcFree();
    }
  }

  /** A text without a digit of `v` cannot hold `v`, since case folding leaves digits alone. */
  lemma MissingDigitFree(t: string, before: bool, v: string, p: nat)
    requires p < |v| && IsDigit(v[p]) && v[p] !in t
    ensures FreeOf(t, before, v)
  {
  }

  lemma Type1Free()
    ensures FreeOf("diabète de type 1", false, "DT1")
    ensures FreeOf("diabète de type 1", false, "DT2")
    ensures FreeOf("diabète de type 1", false, "HbA1c")
    ensures FreeOf("diabète de type 1", false, "IMC")
  {
    Type1OwnFree();
    MissingDigitFree("diabète de type 1", false, "DT2", 2);
    Type1NoHbA1c();
    Type1NoImc();
  }

  lemma Type2Free()
    ensures FreeOf("diabète de type 2", false, "DT1")
    ensures FreeOf("diabète de type 2", false, "DT2")
    ensures FreeOf("diabète de type 2", false, "HbA1c")
    ensures FreeOf("diabète de type 2", false, "IMC")
  {
    MissingDigitFree("diabète de type 2", false, "DT1", 2);
    Type2OwnFree();
    MissingDigitFree("diabète de type 2", false, "HbA1c", 3);
    Type2NoImc();
  }

  lemma HbA1cFree()
    ensures FreeOf("hémoglobine glyquée", false, "DT1")
    ensures FreeOf("hémoglobine glyquée", false, "DT2")
    ensures FreeOf("hémoglobine glyquée", false, "HbA1c")
    ensures FreeOf("hémoglobine glyquée", false, "IMC")
  {
    MissingDigitFree("hémoglobine glyquée", false, "DT1", 2);
    MissingDigitFree("hémoglobine glyquée", false, "DT2", 2);
    MissingDigitFree("hémoglobine glyquée", false, "HbA1c", 3);
    HbA1cNoImc();
  }

  lemma ImcFree()
    ensures FreeOf("indice de masse corporelle", false, "DT1")
    ensures FreeOf("indice de masse corporelle", false, "DT2")
    ensures FreeOf("indice de masse corporelle", false, "HbA1c")
    ensures FreeOf("indice de masse corporelle", false, "IMC")
  {
    MissingDigitFree("indice de masse corporelle", false, "DT1", 2);
    MissingDigitFree("indice de masse corporelle", false, "DT2", 2);
    MissingDigitFree("indice de masse corporelle", false, "HbA1c", 3);
    ImcOwnFree();
  }

  // Each of these is checked position by position on the concrete strings.

  lemma Type1OwnFree()
    ensures FreeOf("diabète de type 1", false, "DT1")
  {
  }

  lemma Type1NoHbA1c()
    ensures FreeOf("diabète de type 1", false, "HbA1c")
  {
  }

  lemma Type1NoImc()
    ensures FreeOf("diabète de type 1", false, "IMC")
  {
  }

  lemma Type2OwnFree()
    ensures FreeOf("diabète de type 2", false, "DT2")
  {
  }

  lemma Type2NoImc()
    ensures FreeOf("diabète de type 2", false, "IMC")
  {
  }

  lemma HbA1cNoImc()
    ensures FreeOf("hémoglobine glyquée", false, "IMC")
  {
  }

  lemma ImcOwnFree()
    ensures FreeOf("indice de masse corporelle", false, "IMC")
  {
  }

  lemma TermsAreWords()
    ensures forall k :: 0 <= k < |Abbreviations| ==>
      IsTerm(Abbreviations[k].0) && IsWordChar(Abbreviations[k].1[|Abbreviations[k].1| - 1])
  {
  }

  /** The abbreviations applied so far occur nowhere as whole words. */
  lemma {:induction false} NoAbbreviationRemainsUpTo(text: string, k: nat)
    requires k <= |Abbreviations|
    ensures forall j :: 0 <= j < k ==> FreeOf(NormalizedUpTo(text, k), false, Abbreviations[j].0)
  {
    if k > 0 {
      NoAbbreviationRemainsUpTo(text, k - 1);
      var (w, r) := Abbreviations[k - 1];
      var s := NormalizedUpTo(text, k - 1);
      TermsAreWords();
      ExpansionFree(k - 1);
      TermWellFormed(w, r, s);
      forall j | 0 <= j < k ensures FreeOf(NormalizedUpTo(text, k), false, Abbreviations[j].0) {
        PassFrees(w, r, Abbreviations[j].0, s, 0);
      }
    }
  }

  /** After the whole loop none of the four abbreviations is left as a word, in any case. */
  lemma NoAbbreviationRemains(text: string)
    ensures forall k :: 0 <= k < |Abbreviations| ==> FreeOf(Normalized(text), false, Abbreviations[k].0)
  {
    NoAbbreviationRemainsUpTo(text, |Abbreviations|);
  }

  /** A text holding none of the abbreviations as a whole word is left as it is. */
  lemma NormalizedIdentity(text: string)
    requires forall k :: 0 <= k < |Abbreviations| ==> FreeOf(text, false, Abbreviations[k].0)
    ensures Normalized(text) == text
  {
    StableFrom(text, 0, |Abbreviations|);
  }

  /** One `re.sub` pass leaves a text without a whole-word occurrence of its term unchanged. */
  lemma ReplaceTermIdentity(w: string, r: string, text: string)
    requires IsTerm(w) && FreeOf(text, false, w)
    ensures ReplaceTerm(w, r, text) == text
  {
    TermWellFormed(w, r, text);
    forall i | 0 <= i < |text| ensures TermAt(w, r)(text, i).None? {
      TermMatchIsWholeWord(w, r, text, i);
    }
    SubIdentity(TermAt(w, r), text);
  }

  /** Passes `k` to `n - 1` change nothing when the text after `k` passes holds none of their terms. */
  lemma {:induction false} StableFrom(text: string, k: nat, n: nat)
    requires k <= n <= |Abbreviations|
    requires forall j :: k <= j < n ==> FreeOf(NormalizedUpTo(text, k), false, Abbreviations[j].0)
    ensures NormalizedUpTo(text, n) == NormalizedUpTo(text, k)
  {
    if k < n {
      StableFrom(text, k, n - 1);
      TermsAreWords();
      ReplaceTermIdentity(Abbreviations[n - 1].0, Abbreviations[n - 1].1, NormalizedUpTo(text, k));
    }
  }

  /** Matching ignores case: a lower-case "imc" standing alone is expanded. */
  lemma ImcExpanded()
    ensures Normalized("imc") == "indice de masse corporelle"
  {
    var t := "imc";
    ImcHoldsNoOtherTerm();
    StableFrom(t, 0, 3);
    assert NormalizedUpTo(t, 3) == t;
    var w, r := "IMC", "indice de masse corporelle";
    assert Abbreviations[3] == (w, r);
    TermWellFormed(w, r, t);
    assert t[0..3] == t;
    assert EqualIgnoringCase(t, w) by {
      assert SameIgnoringCase('i', 'I') && SameIgnoringCase('m', 'M') && SameIgnoringCase('c', 'C');
    }
    assert WordBoundary(t, 0) && WordBoundary(t, 3);
    assert TermMatch(w, r, t, 0) == Some(Match(3, r));
    assert SubFrom(TermAt(w, r), t, 0) == r + SubFrom(TermAt(w, r), t, 3);
  }

  lemma ImcHoldsNoOtherTerm()
    ensures forall j :: 0 <= j < 3 ==> FreeOf("imc", false, Abbreviations[j].0)
  {
    MissingDigitFree("imc", false, "DT1", 2);
    MissingDigitFree("imc", false, "DT2", 2);
    MissingDigitFree("imc", false, "HbA1c", 3);
    assert Abbreviations[0].0 == "DT1" && Abbreviations[1].0 == "DT2" && Abbreviations[2].0 == "HbA1c";
  }

  // ---------------------------------------------------------------------------
  // An abbreviation standing alone in running text is expanded, the rest kept.

  /**
   * Joining two texts free of a term keeps it free, when a non-word character
   * sits on one side of the seam: a whole-word occurrence cannot straddle it.
   */
  lemma JoinFree(a: string, b: string, u: string)
    requires IsTerm(u) && FreeOf(a, false, u) && FreeOf(b, false, u)
    requires a == [] || b == [] || !IsWordChar(a[|a| - 1]) || !IsWordChar(b[0])
    ensures FreeOf(a + b, false, u)
  {
    var t := a + b;
    forall p | 0 <= p <= |t| ensures !WholeAt(t, false, p, u) {
      WholeAtWords(t, false, p, u);
      var e := p + |u|;
      if e <= |a| {
        assert !WholeAt(a, false, p, u);
        assert t[p..e] == a[p..e];
        if p > 0 {
          assert t[p - 1] == a[p - 1];
        }
        if e < |a| {
          assert t[e] == a[e];
        }
      } else if p >= |a| {
        assert !WholeAt(b, false, p - |a|, u);
        WholeAtShift(a, b, false, p, u);
      } else if b != [] {
        assert t[|a| - 1] == a[|a| - 1];
        assert t[|a|] == b[0];
      }
    }
  }

  /**
   * A case variant of one abbreviation holds no other as a whole word: the
   * four differ once case is ignored, and a shorter one cannot sit inside a
   * word.
   */
  lemma VariantFree(v: string, k: nat, j: nat)
    requires k < |Abbreviations| && j < |Abbreviations| && k != j
    requires EqualIgnoringCase(v, Abbreviations[k].0)
    ensures FreeOf(v, false, Abbreviations[j].0)
  {
    var w, u := Abbreviations[k].0, Abbreviations[j].0;
    TermsAreWords();
    forall p | 0 <= p <= |v| ensures !WholeAt(v, false, p, u) {
      if 0 < p < |v| {
        SameIgnoringCaseKeepsWord(v[p - 1], w[p - 1]);
      } else if p == 0 && |u| < |v| {
        SameIgnoringCaseKeepsWord(v[|u|], w[|u|]);
      } else if p == 0 && |u| == |v| {
        var i := if u[0] == w[0] then 2 else 0;
        assert ToLower(u[i]) != ToLower(w[i]);
        assert v[0..|u|][i] == v[i];
      }
    }
  }

  /** No whole-word occurrence starts before `h`, where a word starts after a non-word character. */
  lemma NoTermBefore(w: string, r: string, s: string, h: nat)
    requires IsTerm(w) && h < |s| && IsWordChar(s[h])
    requires h == 0 || !IsWordChar(s[h - 1])
    requires FreeOf(s[..h], false, w)
    ensures forall p :: 0 <= p < h ==> TermAt(w, r)(s, p).None?
  {
    forall p | 0 <= p < h ensures TermAt(w, r)(s, p).None? {
      assert TermAt(w, r)(s, p) == TermMatch(w, r, s, p);
      TermMatchIsWholeWord(w, r, s, p);
      WholeAtWords(s, false, p, w);
      var e := p + |w|;
      if e < h {
        assert !WholeAt(s[..h], false, p, w);
        assert s[p..e] == s[..h][p..e];
        assert s[e] == s[..h][e];
        if p > 0 {
          assert s[p - 1] == s[..h][p - 1];
        }
      }
    }
  }

  /** No whole-word occurrence starts at or after `e` when `s[e..]` holds none. */
  lemma NoTermFrom(w: string, r: string, s: string, e: nat)
    requires IsTerm(w) && 0 < e <= |s|
    requires FreeOf(s[e..], false, w)
    ensures forall p :: e <= p < |s| ==> TermAt(w, r)(s, p).None?
  {
    assert s == s[..e] + s[e..];
    forall p | e <= p < |s| ensures TermAt(w, r)(s, p).None? {
      assert TermAt(w, r)(s, p) == TermMatch(w, r, s, p);
      assert !WholeAt(s[e..], false, p - e, w);
      TermMatchIsWholeWord(w, r, s, p);
      WholeAtShift(s[..e], s[e..], false, p, w);
    }
  }

  /**
   * One pass in running text: the term, in any case, standing as a word of
   * its own between `x` and `y` that hold no other occurrence, becomes the
   * expansion and `x` and `y` are kept.
   */
  lemma TermReplacedIn(w: string, r: string, x: string, v: string, y: string)
    requires IsTerm(w) && EqualIgnoringCase(v, w)
    requires x == [] || !IsWordChar(x[|x| - 1])
    requires y == [] || !IsWordChar(y[0])
    requires FreeOf(x, false, w) && FreeOf(y, false, w)
    ensures ReplaceTerm(w, r, x + v + y) == x + r + y
  {
    var s := x + v + y;
    var h, e := |x|, |x| + |v|;
    assert s[..h] == x && s[h..e] == v && s[e..] == y;
    assert s[h] == v[0];
    SameIgnoringCaseKeepsWord(v[0], w[0]);
    if x != [] {
      assert s[h - 1] == x[|x| - 1];
    }
    if y != [] {
      assert s[e] == y[0];
    }
    TermWellFormed(w, r, s);
    TermMatchIsWholeWord(w, r, s, h);
    NoTermBefore(w, r, s, h);
    NoTermFrom(w, r, s, e);
    SubSingleMatch(TermAt(w, r), s, h);
  }

  /**
   * The whole normalisation in running text: one of DT1, DT2, HbA1c, IMC, in
   * any case, standing as a word of its own between `x` and `y` that hold
   * none of the four, becomes its expansion and the rest of the text is kept.
   */
  lemma NormalizedIn(x: string, v: string, y: string, k: nat)
    requires k < |Abbreviations| && EqualIgnoringCase(v, Abbreviations[k].0)
    requires x == [] || !IsWordChar(x[|x| - 1])
    requires y == [] || !IsWordChar(y[0])
    requires forall j :: 0 <= j < |Abbreviations| ==>
      FreeOf(x, false, Abbreviations[j].0) && FreeOf(y, false, Abbreviations[j].0)
    ensures Normalized(x + v + y) == x + Abbreviations[k].1 + y
  {
    var s := x + v + y;
    var t := x + Abbreviations[k].1 + y;
    TermsAreWords();
    forall j | 0 <= j < k ensures FreeOf(s, false, Abbreviations[j].0) {
      VariantFree(v, k, j);
      JoinFree(x, v, Abbreviations[j].0);
      JoinFree(x + v, y, Abbreviations[j].0);
    }
    StableFrom(s, 0, k);
    TermReplacedIn(Abbreviations[k].0, Abbreviations[k].1, x, v, y);
    assert NormalizedUpTo(s, k + 1) == t;
    ExpansionFree(k);
    forall j | k < j < |Abbreviations| ensures FreeOf(t, false, Abbreviations[j].0) {
      JoinFree(x, Abbreviations[k].1, Abbreviations[j].0);
      JoinFree(x + Abbreviations[k].1, y, Abbreviations[j].0);
    }
    StableFrom(s, k + 1, |Abbreviations|);
  }
}
