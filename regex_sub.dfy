/**
 * Python's `re.sub(pattern, repl, text)` for the patterns of the cleaner.
 *
 * A pattern is given by its matcher: the match (end and replacement text) the
 * regex engine finds when it tries the pattern at a position, or `None`.  The
 * substitution scans left to right: at a match it emits the replacement and
 * resumes at the match end, otherwise it copies one character and moves on.
 * None of the cleaner's patterns can match the empty string, so a match always
 * ends after the position it starts at.
 */
module RegexSub {
  import opened Wrappers

  datatype Match = Match(end: nat, replacement: string)

  type Matcher = (string, nat) -> Option<Match>

  /** Every match of `m` in `s` is non-empty and ends inside `s`. */
  ghost predicate WellFormed(m: Matcher, s: string)
  {
    forall i :: 0 <= i < |s| && m(s, i).Some? ==> i < m(s, i).value.end <= |s|
  }

  /** The substitution applied to `s[i..]`; `\b`, `^` and `$` still see all of `s`. */
  function SubFrom(m: Matcher, s: string, i: nat): string
    requires WellFormed(m, s)
    requires i <= |s|
    decreases |s| - i
  {
    if i == |s| then []
    else match m(s, i)
      case Some(h) => h.replacement + SubFrom(m, s, h.end)
      case None => [s[i]] + SubFrom(m, s, i + 1)
  }

  function Sub(m: Matcher, s: string): string
    requires WellFormed(m, s)
  {
    SubFrom(m, s, 0)
  }

  /** The pattern matches nowhere in `s`. */
  ghost predicate NoMatch(m: Matcher, s: string)
  {
    forall i :: 0 <= i < |s| ==> m(s, i).None?
  }

  /** A pattern that matches nowhere leaves the text unchanged. */
  lemma SubIdentity(m: Matcher, s: string)
    requires WellFormed(m, s) && NoMatch(m, s)
    ensures Sub(m, s) == s
  {
    SubFromIdentity(m, s, 0);
  }

  lemma SubFromIdentity(m: Matcher, s: string, i: nat)
    requires WellFormed(m, s) && NoMatch(m, s)
    requires i <= |s|
    ensures SubFrom(m, s, i) == s[i..]
  {
    SubFromCopies(m, s, i, |s|);
  }

  /** A stretch where the pattern matches at no position is copied unchanged. */
  lemma {:induction false} SubFromCopies(m: Matcher, s: string, i: nat, k: nat)
    requires WellFormed(m, s)
    requires i <= k <= |s| && forall p :: i <= p < k ==> m(s, p).None?
    ensures SubFrom(m, s, i) == s[i..k] + SubFrom(m, s, k)
    decreases k - i
  {
    if i < k {
      SubFromCopies(m, s, i + 1, k);
      assert m(s, i).None?;
      assert SubFrom(m, s, i) == [s[i]] + SubFrom(m, s, i + 1);
      assert s[i..k] == [s[i]] + s[i + 1..k];
    }
  }

  /**
   * When the scan meets its only match at `a` (nothing matches before `a`, and
   * nothing from the match end on), exactly that span is replaced and the rest
   * of the text is kept on both sides.
   */
  lemma SubSingleMatch(m: Matcher, s: string, a: nat)
    requires WellFormed(m, s)
    requires a < |s| && m(s, a).Some?
    requires forall p :: 0 <= p < a ==> m(s, p).None?
    requires forall p :: m(s, a).value.end <= p < |s| ==> m(s, p).None?
    ensures Sub(m, s) == s[..a] + m(s, a).value.replacement + s[m(s, a).value.end..]
  {
    var e := m(s, a).value.end;
    SubFromCopies(m, s, 0, a);
    SubFromCopies(m, s, e, |s|);
    assert SubFrom(m, s, a) == m(s, a).value.replacement + SubFrom(m, s, e);
    assert SubFrom(m, s, |s|) == [];
    assert s[0..a] == s[..a] && s[e..|s|] == s[e..];
  }

  /** Every replacement is at most as long as the text it replaces. */
  ghost predicate NeverLonger(m: Matcher, s: string)
  {
    forall i :: 0 <= i < |s| && m(s, i).Some? ==> |m(s, i).value.replacement| <= m(s, i).value.end - i
  }

  /** When no replacement is longer than its match, the result is no longer than the input. */
  lemma SubShrinks(m: Matcher, s: string)
    requires WellFormed(m, s) && NeverLonger(m, s)
    ensures |Sub(m, s)| <= |s|
  {
    SubFromShrinks(m, s, 0);
  }

  lemma {:induction false} SubFromShrinks(m: Matcher, s: string, i: nat)
    requires WellFormed(m, s) && NeverLonger(m, s)
    requires i <= |s|
    ensures |SubFrom(m, s, i)| <= |s| - i
    decreases |s| - i
  {
    if i < |s| {
      match m(s, i)
      case Some(h) => SubFromShrinks(m, s, h.end);
      case None => SubFromShrinks(m, s, i + 1);
    }
  }
}
