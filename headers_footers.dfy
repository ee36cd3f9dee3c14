/**
 * `TextCleaner.remove_headers_footers`: the text is split into lines, every
 * short stripped line is counted, and every line whose stripped form was
 * counted at least `min_repetition` times is dropped as a running header or
 * footer.  The counting loop is shared with the document analysis of the
 * preprocessing script, which runs the same loop.
 */
module HeadersFooters {
  import opened TextBasics

  /** The longest stripped line that is still counted, plus one. */
  const ShortLineLimit: nat := 100

  /** A stripped line that the counting loop records: non-empty and shorter than 100 characters. */
  predicate IsShortLine(t: string)
  {
    t != [] && |t| < ShortLineLimit
  }

  /** How many of `lines` strip to `t`. */
  function Occurrences(lines: seq<string>, t: string): (n: nat)
    ensures n <= |lines|
  {
    if lines == [] then 0
    else Occurrences(lines[..|lines| - 1], t) + (if Strip(lines[|lines| - 1]) == t then 1 else 0)
  }

  /** `counts` holds, for each short stripped line of `lines`, how often it occurs. */
  ghost predicate Tally(counts: map<string, nat>, lines: seq<string>)
  {
    && (forall t :: t in counts <==> IsShortLine(t) && Occurrences(lines, t) > 0)
    && (forall t :: t in counts ==> counts[t] == Occurrences(lines, t))
  }

  /**
   * The loop that fills `line_counts`: afterwards the keys are exactly the
   * short stripped lines that occur, each mapped to its number of occurrences.
   */
  method CountShortLines(lines: seq<string>) returns (counts: map<string, nat>)
    ensures forall t :: t in counts <==> IsShortLine(t) && Occurrences(lines, t) > 0
    ensures forall t :: t in counts ==> counts[t] == Occurrences(lines, t)
  {
    counts := map[];
    for k := 0 to |lines|
      invariant Tally(counts, lines[..k])
    {
      var cleaned := Strip(lines[k]);
      var next := if IsShortLine(cleaned) then counts[cleaned := (if cleaned in counts then counts[cleaned] else 0) + 1] else counts;
      TallyStep(counts, lines, k, next);
      counts := next;
    }
    assert lines[..|lines|] == lines;
  }

  lemma TallyStep(counts: map<string, nat>, lines: seq<string>, k: nat, next: map<string, nat>)
    requires k < |lines| && Tally(counts, lines[..k])
    requires var c := Strip(lines[k]);
      next == if IsShortLine(c) then counts[c := (if c in counts then counts[c] else 0) + 1] else counts
    ensures Tally(next, lines[..k + 1])
  {
    var c := Strip(lines[k]);
    forall t ensures Occurrences(lines[..k + 1], t) == Occurrences(lines[..k], t) + (if c == t then 1 else 0) {
      OccurrencesStep(lines, k, t);
    }
    forall t ensures t in next <==> IsShortLine(t) && Occurrences(lines[..k + 1], t) > 0 {
      if t != c {
        assert t in next <==> t in counts;
      }
    }
    forall t | t in next ensures next[t] == Occurrences(lines[..k + 1], t) {
      if t != c {
        assert next[t] == counts[t];
      }
    }
  }

  /** One more line counts once more for its own stripped form. */
  lemma OccurrencesStep(lines: seq<string>, k: nat, t: string)
    requires k < |lines|
    ensures Occurrences(lines[..k + 1], t) == Occurrences(lines[..k], t) + (if Strip(lines[k]) == t then 1 else 0)
  {
    var after := lines[..k + 1];
    assert after[..k] == lines[..k];
    assert after[k] == lines[k];
  }

  /** The source's `repetitive_lines`: a counted line that reaches the threshold. */
  predicate IsRepetitive(lines: seq<string>, t: string, minRepetition: int)
  {
    IsShortLine(t) && Occurrences(lines, t) > 0 && Occurrences(lines, t) >= minRepetition
  }

  /** The lines of `ls` that the list comprehension keeps, judged against all lines `all`. */
  function Kept(ls: seq<string>, all: seq<string>, minRepetition: int): (r: seq<string>)
    ensures |r| <= |ls|
  {
    if ls == [] then []
    else (if IsRepetitive(all, Strip(ls[0]), minRepetition) then [] else [ls[0]])
         + Kept(ls[1..], all, minRepetition)
  }

  /** The comprehension itself: keep the lines whose stripped form is not in `drop`. */
  function Filter(ls: seq<string>, drop: set<string>): (r: seq<string>)
  {
    if ls == [] then [] else (if Strip(ls[0]) in drop then [] else [ls[0]]) + Filter(ls[1..], drop)
  }

  lemma {:induction false} FilterIsKept(ls: seq<string>, all: seq<string>, minRepetition: int, drop: set<string>)
    requires forall t :: t in drop <==> IsRepetitive(all, t, minRepetition)
    ensures Filter(ls, drop) == Kept(ls, all, minRepetition)
  {
    if ls != [] {
      FilterIsKept(ls[1..], all, minRepetition, drop);
    }
  }

  /** What the function returns: the kept lines joined by newlines. */
  function HeadersFootersRemoved(text: string, minRepetition: int): string
  {
    var lines := Split(text);
    Join(Kept(lines, lines, minRepetition))
  }

  method RemoveHeadersFooters(text: string, minRepetition: int) returns (r: string)
    ensures r == HeadersFootersRemoved(text, minRepetition)
  {
    var lines := Split(text);
    var counts := CountShortLines(lines);
    var repetitive := set t | t in counts && counts[t] >= minRepetition;
    FilterIsKept(lines, lines, minRepetition, repetitive);
    var filtered := Filter(lines, repetitive);
    r := Join(filtered);
  }

  // ---------------------------------------------------------------------------

  /** `a` is `b` with some elements left out, the rest in their original order. */
  predicate IsSubsequence<T(==)>(a: seq<T>, b: seq<T>)
    decreases |b|
  {
    a == [] || (b != [] && if a[0] == b[0] then IsSubsequence(a[1..], b[1..]) else IsSubsequence(a, b[1..]))
  }

  /** A line survives when its stripped form is not repetitive. */
  predicate Survives(all: seq<string>, line: string, minRepetition: int)
  {
    !IsRepetitive(all, Strip(line), minRepetition)
  }

  /** The kept lines are an order-preserving subsequence of the input lines. */
  lemma {:induction false} KeptIsSubsequence(ls: seq<string>, all: seq<string>, minRepetition: int)
    ensures IsSubsequence(Kept(ls, all, minRepetition), ls)
  {
    if ls != [] {
      KeptIsSubsequence(ls[1..], all, minRepetition);
      var rest := Kept(ls[1..], all, minRepetition);
      if Survives(all, ls[0], minRepetition) {
        assert Kept(ls, all, minRepetition) == [ls[0]] + rest;
        assert Kept(ls, all, minRepetition)[1..] == rest;
      } else {
        assert Kept(ls, all, minRepetition) == rest;
        SubsequenceSkip(rest, ls);
      }
    }
  }

  /**
   * Each line value is kept exactly as often as it occurs when it survives,
   * and not at all otherwise.
   */
  lemma {:induction false} KeptCounts(ls: seq<string>, all: seq<string>, minRepetition: int)
    ensures forall l :: multiset(Kept(ls, all, minRepetition))[l]
                        == if Survives(all, l, minRepetition) then multiset(ls)[l] else 0
  {
    if ls != [] {
      KeptCounts(ls[1..], all, minRepetition);
      assert ls == [ls[0]] + ls[1..];
      assert multiset(ls) == multiset([ls[0]]) + multiset(ls[1..]);
      var head := if Survives(all, ls[0], minRepetition) then [ls[0]] else [];
      assert Kept(ls, all, minRepetition) == head + Kept(ls[1..], all, minRepetition);
      assert multiset(Kept(ls, all, minRepetition)) == multiset(head) + multiset(Kept(ls[1..], all, minRepetition));
    }
  }

  lemma SubsequenceSkip<T>(a: seq<T>, b: seq<T>)
    requires b != [] && IsSubsequence(a, b[1..])
    ensures IsSubsequence(a, b)
    decreases |b|, 0
  {
    if a != [] && a[0] == b[0] {
      SubsequenceTail(a, b[1..]);
    }
  }

  lemma SubsequenceTail<T>(a: seq<T>, c: seq<T>)
    requires a != [] && IsSubsequence(a, c)
    ensures IsSubsequence(a[1..], c)
    decreases |c|, 1
  {
    if a[0] != c[0] {
      SubsequenceTail(a, c[1..]);
    }
    SubsequenceSkip(a[1..], c);
  }

  /**
   * A line is dropped exactly when its stripped form is non-empty, shorter
   * than 100 characters and occurs at least `minRepetition` times; blank lines
   * and lines of 100 characters or more always survive.
   */
  lemma DroppedIff(all: seq<string>, line: string, minRepetition: int)
    requires line in all
    ensures !Survives(all, line, minRepetition) <==>
      Strip(line) != [] && |Strip(line)| < 100 && Occurrences(all, Strip(line)) >= minRepetition
  {
    OccursWhenPresent(all, line);
  }

  lemma OccursWhenPresent(all: seq<string>, line: string)
    requires line in all
    ensures Occurrences(all, Strip(line)) > 0
  {
    var j :| 0 <= j < |all| && all[j] == line;
    OccursAtIndex(all, j);
  }

  lemma {:induction false} OccursAtIndex(all: seq<string>, j: nat)
    requires j < |all|
    ensures Occurrences(all, Strip(all[j])) > 0
  {
    if j < |all| - 1 {
      var init := all[..|all| - 1];
      assert init[j] == all[j];
      OccursAtIndex(init, j);
    }
  }

  /** When no short line reaches the threshold, the text comes back unchanged. */
  lemma HeadersFootersIdentity(text: string, minRepetition: int)
    requires forall t :: IsShortLine(t) && Occurrences(Split(text), t) > 0 ==> Occurrences(Split(text), t) < minRepetition
    ensures HeadersFootersRemoved(text, minRepetition) == text
  {
    var lines := Split(text);
    KeptAll(lines, lines, minRepetition);
    JoinSplit(text);
  }

  lemma {:induction false} KeptAll(ls: seq<string>, all: seq<string>, minRepetition: int)
    requires forall t :: !IsRepetitive(all, t, minRepetition)
    ensures Kept(ls, all, minRepetition) == ls
  {
    if ls != [] {
      KeptAll(ls[1..], all, minRepetition);
      assert ls == [ls[0]] + ls[1..];
    }
  }

  /** Dropping whole lines never makes the text longer. */
  lemma HeadersFootersShrinks(text: string, minRepetition: int)
    ensures |HeadersFootersRemoved(text, minRepetition)| <= |text|
  {
    var lines := Split(text);
    var kept := Kept(lines, lines, minRepetition);
    JoinSplit(text);
    if kept != [] {
      KeptLengths(lines, lines, minRepetition);
      JoinLength(kept);
      JoinLength(lines);
    }
  }

  lemma {:induction false} KeptLengths(ls: seq<string>, all: seq<string>, minRepetition: int)
    ensures SumLengths(Kept(ls, all, minRepetition)) <= SumLengths(ls)
  {
    if ls != [] {
      KeptLengths(ls[1..], all, minRepetition);
      SumLengthsAppend(if IsRepetitive(all, Strip(ls[0]), minRepetition) then [] else [ls[0]],
                       Kept(ls[1..], all, minRepetition));
    }
  }

  lemma {:induction false} SumLengthsAppend(a: seq<string>, b: seq<string>)
    ensures SumLengths(a + b) == SumLengths(a) + SumLengths(b)
  {
    if a != [] {
      assert (a + b)[1..] == a[1..] + b;
      SumLengthsAppend(a[1..], b);
    } else {
      assert a + b == b;
    }
  }
}
