/**
 * The decision rules of the preprocessing script: the preview truncation of
 * `display_document_preview`, and the problems and recommendations that
 * `analyze_documents` reports, returned as values instead of printed.
 */
module PreprocessPdfs {
  import opened TextBasics
  import opened Wrappers
  import opened HeadersFooters
  import opened TextCleaner

  // ---------------------------------------------------------------------------
  // display_document_preview

  /** The default `max_chars`, and the one the side-by-side comparison passes. */
  const DefaultPreviewChars: int := 500
  const ComparisonPreviewChars: int := 300

  /** Where Python's `s[:n]` stops on a text of length `len`; a negative `n` counts from the end. */
  function SliceEnd(len: nat, n: int): (k: nat)
    ensures k <= len
  {
    if n >= 0 then (if n < len then n else len)
    else if len + n > 0 then len + n
    else 0
  }

  /** `text[:max_chars]`, followed by "..." when the text is longer than `max_chars`. */
  function Preview(text: string, maxChars: int): (r: string)
    ensures |text| <= maxChars ==> r == text
    ensures |text| > maxChars ==>
      |r| >= 3 && r[|r| - 3..] == "..." && |r| - 3 <= |text| && r[..|r| - 3] == text[..|r| - 3]
    ensures 0 <= maxChars < |text| ==> |r| == maxChars + 3
    ensures 0 <= maxChars ==> |r| <= maxChars + 3
  {
    var shown := text[..SliceEnd(|text|, maxChars)];
    if |text| > maxChars then shown + "..." else shown
  }

  // ---------------------------------------------------------------------------
  // Problems found in one document

  /** A text shorter than this is reported as too short. */
  const TooShortLimit: nat := 100

  /** A line seen more often than this is reported as repetitive. */
  const RepetitionLimit: nat := 5

  /** Each problem carries the 1-based number of its document and the figure the message shows. */
  datatype Problem =
    | TooShort(doc: nat, characters: nat)
    | RepetitiveLines(doc: nat, lines: nat)
    | Urls(doc: nat, count: nat)

  /** The comprehension `repetitive`: the counted lines seen more than five times. */
  function RepeatedLines(lines: seq<string>): set<string>
  {
    set k | 0 <= k < |lines| && IsShortLine(Strip(lines[k])) && Occurrences(lines, Strip(lines[k])) > RepetitionLimit
      :: Strip(lines[k])
  }

  /** Python's `s.count(w)`: occurrences of `w` in `s[i..]`, taken left to right without overlap. */
  function CountFrom(s: string, w: string, i: nat): (n: nat)
    requires w != [] && i <= |s|
    decreases |s| - i
  {
    if i + |w| > |s| then 0
    else if s[i..i + |w|] == w then 1 + CountFrom(s, w, i + |w|)
    else CountFrom(s, w, i + 1)
  }

  function Count(s: string, w: string): (n: nat)
    requires w != []
  {
    CountFrom(s, w, 0)
  }

  /** The "too short" check, appending to the problems found so far. */
  function ShortCheck(text: string, index: nat, found: seq<Problem>): seq<Problem>
  {
    if |text| < TooShortLimit then found + [TooShort(index, |text|)] else found
  }

  /** The repetitive-lines check. */
  function RepetitionCheck(text: string, index: nat, found: seq<Problem>): seq<Problem>
  {
    var repeated := RepeatedLines(Split(text));
    if repeated != {} then found + [RepetitiveLines(index, |repeated|)] else found
  }

  /** `'http' in text.lower()`. */
  predicate MentionsHttp(text: string)
  {
    Contains(Lower(text), "http")
  }

  /** `text.lower().count('http')`. */
  function HttpCount(text: string): nat
  {
    Count(Lower(text), "http")
  }

  /** The URL check. */
  function UrlCheck(text: string, index: nat, found: seq<Problem>): seq<Problem>
  {
    if MentionsHttp(text) then found + [Urls(index, HttpCount(text))] else found
  }

  /** The problems of the document numbered `index`, in the order the checks run. */
  function DocumentProblems(text: string, index: nat): seq<Problem>
  {
    UrlCheck(text, index, RepetitionCheck(text, index, ShortCheck(text, index, [])))
  }

  /** The problems of all documents, numbered from 1, in document order. */
  function Problems(docs: seq<Document>): seq<Problem>
  {
    if docs == [] then []
    else Problems(docs[..|docs| - 1]) + DocumentProblems(docs[|docs| - 1].text, |docs|)
  }

  // ---------------------------------------------------------------------------
  // Recommendations

  /** The cleaning recommendation carries the two totals its percentage is computed from. */
  datatype Recommendation =
    | EnableCleaning(charactersBefore: nat, charactersAfter: nat)
    | EnableUrlRemoval
    | EnableMedicalNormalization

  const MedicalAbbreviations: seq<string> := ["DT1", "DT2", "HbA1c", "IMC"]

  /** `any(term in text for term in medical_terms)`: a case-sensitive substring test. */
  predicate HasMedicalAbbreviation(text: string)
  {
    exists k :: 0 <= k < |MedicalAbbreviations| && Contains(text, MedicalAbbreviations[k])
  }

  /**
   * A character reduction of more than ten percent, `reduction > 10` with
   * `reduction = (before - after) / before * 100`, as integer cross-multiplication.
   */
  predicate SignificantReduction(before: nat, after: nat)
  {
    before > 0 && (before - after) * 100 > 10 * before
  }

  function Recommendations(before: Stats, after: Stats, docs: seq<Document>): seq<Recommendation>
  {
    (if SignificantReduction(before.totalCharacters, after.totalCharacters)
     then [EnableCleaning(before.totalCharacters, after.totalCharacters)] else [])
    + (if exists i :: 0 <= i < |docs| && MentionsHttp(docs[i].text) then [EnableUrlRemoval] else [])
    + (if exists i :: 0 <= i < |docs| && HasMedicalAbbreviation(docs[i].text)
       then [EnableMedicalNormalization] else [])
  }

  // ---------------------------------------------------------------------------
  // analyze_documents

  /** The word reduction divides by the word total without checking it. */
  datatype Error = ZeroDivision

  datatype Report = Report(
    before: Stats,
    after: Stats,
    problems: seq<Problem>,
    recommendations: seq<Recommendation>)

  /**
   * The options `analyze_documents` cleans with: URLs removed, no medical
   * normalisation, and the cleaner's default repetition threshold.
   */
  const AnalysisOptions: Options := Options(true, false, DefaultOptions.minRepetition)

  function Analysis(docs: seq<Document>): Result<Report, Error>
  {
    var before := GetDocumentStats(docs);
    var after := GetDocumentStats(CleanDocuments(docs, AnalysisOptions));
    if before.totalCharacters > 0 && before.totalWords == 0 then Failure(ZeroDivision)
    else Success(Report(before, after, Problems(docs), Recommendations(before, after, docs)))
  }

  /**
   * The analysis of loaded documents: statistics before and after cleaning,
   * the reduction (which fails when there are characters but no words), the
   * problems of every document and the recommendations.
   */
  method AnalyzeDocuments(docs: seq<Document>) returns (r: Result<Report, Error>)
    ensures r == Analysis(docs)
  {
    var before := GetDocumentStats(docs);
    var cleaned := CleanDocuments(docs, AnalysisOptions);
    var after := GetDocumentStats(cleaned);
    if before.totalCharacters > 0 && before.totalWords == 0 {
      return Failure(ZeroDivision);
    }
    var problems := FindProblems(docs);
    var recommendations := Recommend(before, after, docs);
    r := Success(Report(before, after, problems, recommendations));
  }

  /** The loop over the documents, numbered from 1, that appends each document's problems. */
  method FindProblems(docs: seq<Document>) returns (problems: seq<Problem>)
    ensures problems == Problems(docs)
  {
    problems := [];
    for i := 0 to |docs|
      invariant problems == Problems(docs[..i])
    {
      var found := CheckDocument(docs[i].text, i + 1);
      assert docs[..i + 1][..i] == docs[..i];
      problems := problems + found;
    }
    assert docs[..|docs|] == docs;
  }

  /** The three checks on one document, with the line tally filled by the counting loop. */
  method CheckDocument(text: string, index: nat) returns (found: seq<Problem>)
    ensures found == DocumentProblems(text, index)
  {
    found := [];
    if |text| < TooShortLimit {
      found := found + [TooShort(index, |text|)];
    }
    var repetitive := Repetitive(Split(text));
    if repetitive != {} {
      found := found + [RepetitiveLines(index, |repetitive|)];
    }
    if MentionsHttp(text) {
      found := found + [Urls(index, HttpCount(text))];
    }
  }

  /** The tally of the counted lines, and the comprehension over it that keeps those seen more than five times. */
  method Repetitive(lines: seq<string>) returns (repetitive: set<string>)
    ensures repetitive == RepeatedLines(lines)
  {
    var counts := CountShortLines(lines);
    repetitive := set t | t in counts && counts[t] > RepetitionLimit;
    RepetitiveIsRepeated(lines, counts, repetitive);
  }

  /** The recommendations, appended in order: cleaning, URL removal, medical normalisation. */
  method Recommend(before: Stats, after: Stats, docs: seq<Document>) returns (recommendations: seq<Recommendation>)
    ensures recommendations == Recommendations(before, after, docs)
  {
    recommendations := [];
    if SignificantReduction(before.totalCharacters, after.totalCharacters) {
      recommendations := recommendations + [EnableCleaning(before.totalCharacters, after.totalCharacters)];
    }
    var hasUrls := exists i :: 0 <= i < |docs| && MentionsHttp(docs[i].text);
    if hasUrls {
      recommendations := recommendations + [EnableUrlRemoval];
    }
    var hasMedicalAbbreviation := exists i :: 0 <= i < |docs| && HasMedicalAbbreviation(docs[i].text);
    if hasMedicalAbbreviation {
      recommendations := recommendations + [EnableMedicalNormalization];
    }
  }

  /** The set the loop builds from the tally is the set of repeated lines. */
  lemma RepetitiveIsRepeated(lines: seq<string>, counts: map<string, nat>, repetitive: set<string>)
    requires forall t :: t in counts <==> IsShortLine(t) && Occurrences(lines, t) > 0
    requires forall t :: t in counts ==> counts[t] == Occurrences(lines, t)
    requires repetitive == set t | t in counts && counts[t] > RepetitionLimit
    ensures repetitive == RepeatedLines(lines)
  {
    forall t ensures t in repetitive <==> t in RepeatedLines(lines) {
      RepeatedLinesIff(lines, t);
    }
  }

  // ---------------------------------------------------------------------------
  // Properties

  /** A line is repeated exactly when it is a counted line seen more than five times. */
  lemma RepeatedLinesIff(lines: seq<string>, t: string)
    ensures t in RepeatedLines(lines) <==> IsShortLine(t) && Occurrences(lines, t) > RepetitionLimit
  {
    if IsShortLine(t) && Occurrences(lines, t) > RepetitionLimit {
      var k := OccurrenceIndex(lines, t);
      assert Strip(lines[k]) == t;
    }
  }

  /** A stripped form that occurs is the stripped form of some line. */
  lemma {:induction false} OccurrenceIndex(lines: seq<string>, t: string) returns (k: nat)
    requires Occurrences(lines, t) > 0
    ensures k < |lines| && Strip(lines[k]) == t
  {
    var init := lines[..|lines| - 1];
    if Occurrences(init, t) > 0 {
      k := OccurrenceIndex(init, t);
      assert init[k] == lines[k];
    } else {
      k := |lines| - 1;
    }
  }

  /** The count is positive exactly when the word occurs in what is left of the text. */
  lemma {:induction false} CountFromPositive(s: string, w: string, i: nat)
    requires w != [] && i <= |s|
    ensures CountFrom(s, w, i) > 0 <==> exists j :: i <= j <= |s| && OccursAt(s, j, w)
    decreases |s| - i
  {
    if i + |w| <= |s| {
      if s[i..i + |w|] == w {
        assert OccursAt(s, i, w);
      } else {
        CountFromPositive(s, w, i + 1);
        if exists j :: i <= j <= |s| && OccursAt(s, j, w) {
          var j :| i <= j <= |s| && OccursAt(s, j, w);
          assert j != i;
        }
      }
    } else {
      forall j | i <= j <= |s| ensures !OccursAt(s, j, w) {
      }
    }
  }

  /** `'http' in text` holds exactly when `text.count('http')` is at least one. */
  lemma CountPositiveIffContains(s: string, w: string)
    requires w != []
    ensures Count(s, w) > 0 <==> Contains(s, w)
  {
    CountFromPositive(s, w, 0);
  }

  /**
   * Repetitive lines are reported exactly when some counted line is seen
   * more than five times; the figure reported is the number of such
   * distinct lines (see `RepeatedLinesIff`).
   */
  lemma RepetitionIff(text: string, index: nat)
    ensures RepetitiveLines(index, |RepeatedLines(Split(text))|) in DocumentProblems(text, index) <==>
      exists t :: IsShortLine(t) && Occurrences(Split(text), t) > RepetitionLimit
  {
    RepetitionReported(text, index);
    SomeRepeated(Split(text));
  }

  lemma RepetitionReported(text: string, index: nat)
    ensures RepetitiveLines(index, |RepeatedLines(Split(text))|) in DocumentProblems(text, index) <==>
      RepeatedLines(Split(text)) != {}
  {
    var x := RepetitiveLines(index, |RepeatedLines(Split(text))|);
    var short := ShortCheck(text, index, []);
    UrlCheckKeeps(text, index, RepetitionCheck(text, index, short), x);
    assert x !in short;
  }

  lemma SomeRepeated(lines: seq<string>)
    ensures RepeatedLines(lines) != {} <==> exists t :: IsShortLine(t) && Occurrences(lines, t) > RepetitionLimit
  {
    if exists t :: IsShortLine(t) && Occurrences(lines, t) > RepetitionLimit {
      var t :| IsShortLine(t) && Occurrences(lines, t) > RepetitionLimit;
      RepeatedLinesIff(lines, t);
    }
    if RepeatedLines(lines) != {} {
      var t :| t in RepeatedLines(lines);
      RepeatedLinesIff(lines, t);
    }
  }

  /** The URL check adds nothing but a URL problem. */
  lemma UrlCheckKeeps(text: string, index: nat, found: seq<Problem>, x: Problem)
    requires !x.Urls?
    ensures x in UrlCheck(text, index, found) <==> x in found
  {
  }

  /** URLs are reported exactly when the lower-cased text counts at least one "http", with that count. */
  lemma UrlIff(text: string, index: nat)
    ensures Urls(index, HttpCount(text)) in DocumentProblems(text, index) <==> HttpCount(text) > 0
  {
    CountPositiveIffContains(Lower(text), "http");
    var short := ShortCheck(text, index, []);
    RepetitionCheckAddsNoUrl(text, index, short);
    UrlCheckAdds(text, index, RepetitionCheck(text, index, short));
  }

  lemma RepetitionCheckAddsNoUrl(text: string, index: nat, found: seq<Problem>)
    requires forall k :: 0 <= k < |found| ==> !found[k].Urls?
    ensures forall k :: 0 <= k < |RepetitionCheck(text, index, found)| ==> !RepetitionCheck(text, index, found)[k].Urls?
  {
  }

  lemma UrlCheckAdds(text: string, index: nat, found: seq<Problem>)
    requires forall k :: 0 <= k < |found| ==> !found[k].Urls?
    ensures Urls(index, HttpCount(text)) in UrlCheck(text, index, found) <==> MentionsHttp(text)
  {
    if !MentionsHttp(text) {
      assert UrlCheck(text, index, found) == found;
      assert forall k :: 0 <= k < |found| ==> found[k] != Urls(index, HttpCount(text));
    }
  }

  /** "Too short" is reported exactly when the text has fewer than 100 characters. */
  lemma ShortIff(text: string, index: nat)
    ensures TooShort(index, |text|) in DocumentProblems(text, index) <==> |text| < TooShortLimit
  {
    var x := TooShort(index, |text|);
    var short := ShortCheck(text, index, []);
    UrlCheckKeeps(text, index, RepetitionCheck(text, index, short), x);
    RepetitionCheckKeeps(text, index, short, x);
  }

  /** The repetition check adds nothing but a repetitive-lines problem. */
  lemma RepetitionCheckKeeps(text: string, index: nat, found: seq<Problem>, x: Problem)
    requires !x.RepetitiveLines?
    ensures x in RepetitionCheck(text, index, found) <==> x in found
  {
  }

  /** The order of a problem in the report: by document, then too short, repetitive, URLs. */
  function Rank(p: Problem): nat
  {
    3 * p.doc + (match p case TooShort(_, _) => 0 case RepetitiveLines(_, _) => 1 case Urls(_, _) => 2)
  }

  predicate StrictlyOrdered(ps: seq<Problem>)
  {
    forall a, b :: 0 <= a < b < |ps| ==> Rank(ps[a]) < Rank(ps[b])
  }

  lemma DocumentProblemsRanks(text: string, index: nat)
    ensures StrictlyOrdered(DocumentProblems(text, index))
    ensures forall k :: 0 <= k < |DocumentProblems(text, index)| ==> DocumentProblems(text, index)[k].doc == index
  {
    var short := ShortCheck(text, index, []);
    ShortRanks(text, index);
    RepetitionRanks(text, index, short);
    UrlRanks(text, index, RepetitionCheck(text, index, short));
  }

  /** The problems found so far are ordered, all of document `index`, and none ranks above `bound`. */
  predicate RankedUpTo(found: seq<Problem>, index: nat, bound: nat)
  {
    StrictlyOrdered(found) && forall k :: 0 <= k < |found| ==> found[k].doc == index && Rank(found[k]) <= bound
  }

  lemma ShortRanks(text: string, index: nat)
    ensures RankedUpTo(ShortCheck(text, index, []), index, 3 * index)
  {
  }

  lemma RepetitionRanks(text: string, index: nat, found: seq<Problem>)
    requires RankedUpTo(found, index, 3 * index)
    ensures RankedUpTo(RepetitionCheck(text, index, found), index, 3 * index + 1)
  {
    var repeated := RepeatedLines(Split(text));
    StepRanked(found, repeated != {}, RepetitiveLines(index, |repeated|), index, 3 * index);
  }

  lemma UrlRanks(text: string, index: nat, found: seq<Problem>)
    requires RankedUpTo(found, index, 3 * index + 1)
    ensures RankedUpTo(UrlCheck(text, index, found), index, 3 * index + 2)
  {
    StepRanked(found, MentionsHttp(text), Urls(index, HttpCount(text)), index, 3 * index + 1);
  }

  /** A check that may append a problem ranked just above those found so far keeps them ranked. */
  lemma StepRanked(found: seq<Problem>, fails: bool, p: Problem, index: nat, bound: nat)
    requires RankedUpTo(found, index, bound) && p.doc == index && Rank(p) == bound + 1
    ensures RankedUpTo(if fails then found + [p] else found, index, bound + 1)
  {
    if fails {
      StepOrdered(found, p, index);
    }
  }

  /** Appending a problem of a higher rank, for the same document, keeps the order. */
  lemma StepOrdered(found: seq<Problem>, p: Problem, index: nat)
    requires StrictlyOrdered(found) && p.doc == index
    requires forall k :: 0 <= k < |found| ==> found[k].doc == index && Rank(found[k]) < Rank(p)
    ensures StrictlyOrdered(found + [p])
    ensures forall k :: 0 <= k < |found + [p]| ==> (found + [p])[k].doc == index && Rank((found + [p])[k]) <= Rank(p)
  {
  }

  /**
   * Problems are listed by document, and within a document in the order
   * too short, repetitive, URLs, each at most once; every problem names a
   * document between 1 and the number of documents.
   */
  lemma {:induction false} ProblemsOrdered(docs: seq<Document>)
    ensures StrictlyOrdered(Problems(docs))
    ensures forall k :: 0 <= k < |Problems(docs)| ==> 1 <= Problems(docs)[k].doc <= |docs|
  {
    if docs != [] {
      var init := docs[..|docs| - 1];
      ProblemsOrdered(init);
      DocumentProblemsRanks(docs[|docs| - 1].text, |docs|);
      AppendOrdered(Problems(init), DocumentProblems(docs[|docs| - 1].text, |docs|), |docs|);
    }
  }

  lemma AppendOrdered(a: seq<Problem>, b: seq<Problem>, index: nat)
    requires index >= 1 && StrictlyOrdered(a) && StrictlyOrdered(b)
    requires forall k :: 0 <= k < |a| ==> 1 <= a[k].doc < index
    requires forall k :: 0 <= k < |b| ==> b[k].doc == index
    ensures StrictlyOrdered(a + b)
    ensures forall k :: 0 <= k < |a + b| ==> 1 <= (a + b)[k].doc <= index
  {
    forall k | 0 <= k < |a + b| ensures 1 <= (a + b)[k].doc <= index {
      if k >= |a| {
        assert (a + b)[k] == b[k - |a|];
      }
    }
    forall x, y | 0 <= x < y < |a + b| ensures Rank((a + b)[x]) < Rank((a + b)[y]) {
      if y < |a| {
      } else if x < |a| {
        assert Rank(a[x]) < 3 * index;
        assert (a + b)[y] == b[y - |a|];
      } else {
        assert (a + b)[x] == b[x - |a|] && (a + b)[y] == b[y - |a|];
      }
    }
  }

  /**
   * The medical recommendation follows case-sensitive substrings: it is made
   * exactly when some document contains "DT1", "DT2", "HbA1c" or "IMC"
   * verbatim, inside a word or not.
   */
  lemma MedicalRecommendedIff(before: Stats, after: Stats, docs: seq<Document>)
    ensures EnableMedicalNormalization in Recommendations(before, after, docs) <==>
      exists i, k :: 0 <= i < |docs| && 0 <= k < |MedicalAbbreviations| && Contains(docs[i].text, MedicalAbbreviations[k])
  {
  }

  /** The recommendations of a successful analysis are those for its two statistics. */
  lemma AnalysisRecommendations(docs: seq<Document>)
    requires Analysis(docs).Success?
    ensures Analysis(docs).value.recommendations
      == Recommendations(GetDocumentStats(docs), GetDocumentStats(CleanDocuments(docs, AnalysisOptions)), docs)
  {
  }

  lemma CleaningRecommendation(before: Stats, after: Stats, docs: seq<Document>)
    ensures EnableCleaning(before.totalCharacters, after.totalCharacters) in Recommendations(before, after, docs)
      <==> before.totalCharacters > 0 && (before.totalCharacters - after.totalCharacters) * 100 > 10 * before.totalCharacters
    ensures forall r :: r in Recommendations(before, after, docs) && r.EnableCleaning? ==>
      r == EnableCleaning(before.totalCharacters, after.totalCharacters)
  {
  }

  /**
   * A successful analysis recommends cleaning, with the character totals
   * before and after, exactly when cleaning with the analysis options removes
   * more than ten percent of the characters; it makes no other cleaning
   * recommendation.
   */
  lemma CleaningRecommendedIff(docs: seq<Document>)
    ensures Analysis(docs).Success? ==>
      (EnableCleaning(TotalCharacters(docs), TotalCharacters(CleanDocuments(docs, AnalysisOptions)))
         in Analysis(docs).value.recommendations
       <==> TotalCharacters(docs) > 0
            && (TotalCharacters(docs) - TotalCharacters(CleanDocuments(docs, AnalysisOptions))) * 100
               > 10 * TotalCharacters(docs))
    ensures Analysis(docs).Success? ==>
      forall r :: r in Analysis(docs).value.recommendations && r.EnableCleaning? ==>
        r == EnableCleaning(TotalCharacters(docs), TotalCharacters(CleanDocuments(docs, AnalysisOptions)))
  {
    if Analysis(docs).Success? {
      AnalysisRecommendations(docs);
      CleaningRecommendation(GetDocumentStats(docs), GetDocumentStats(CleanDocuments(docs, AnalysisOptions)), docs);
    }
  }

  /**
   * A successful analysis recommends URL removal exactly when some document
   * contains "http" in any letter case.
   */
  lemma UrlRecommendedIff(docs: seq<Document>)
    ensures Analysis(docs).Success? ==>
      (EnableUrlRemoval in Analysis(docs).value.recommendations
       <==> exists i :: 0 <= i < |docs| && Contains(Lower(docs[i].text), "http"))
  {
    if Analysis(docs).Success? {
      AnalysisRecommendations(docs);
      UrlRecommendation(GetDocumentStats(docs), GetDocumentStats(CleanDocuments(docs, AnalysisOptions)), docs);
    }
  }

  lemma UrlRecommendation(before: Stats, after: Stats, docs: seq<Document>)
    ensures EnableUrlRemoval in Recommendations(before, after, docs)
      <==> exists i :: 0 <= i < |docs| && Contains(Lower(docs[i].text), "http")
  {
  }

  /**
   * The analysis fails exactly when the documents hold some character but
   * every document is whitespace only: the character reduction is computed,
   * then the word reduction divides by a word total of zero.
   */
  lemma AnalysisFailsIff(docs: seq<Document>)
    ensures Analysis(docs).Failure? <==>
      (exists i :: 0 <= i < |docs| && docs[i].text != []) && forall i :: 0 <= i < |docs| ==> AllSpace(docs[i].text)
  {
    NoCharactersIffAllEmpty(docs);
    NoWordsIffAllBlank(docs);
  }
}
