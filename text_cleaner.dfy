/**
 * `TextCleaner.clean_document`, `TextCleaner.clean_documents` and
 * `get_document_stats`: the cleaning steps chained in their fixed order, the
 * rebuilt metadata, and the corpus statistics.
 */
module TextCleaner {
  import opened TextBasics
  import SpecialCharacters
  import Hyphenation
  import PageNumbers
  import HeadersFooters
  import UrlsAndEmails
  import MedicalTerms
  import Whitespace

  /** A metadata value: the few shapes the pipeline reads or writes. */
  datatype Value = Text(s: string) | Flag(b: bool) | Number(n: int) | Items(items: seq<Value>)

  /** A document: its text and its metadata dictionary. */
  datatype Document = Document(text: string, metadata: map<string, Value>)

  /** The keyword arguments of `clean_document` and `clean_documents`. */
  datatype Options = Options(removeUrls: bool, normalizeMedical: bool, minRepetition: int)

  /** `remove_urls=True`, `normalize_medical=False`, `min_repetition=3`. */
  const DefaultOptions: Options := Options(true, false, 3)

  // ---------------------------------------------------------------------------
  // clean_document

  /** The text after every step but the last, in the order the steps run. */
  function BeforeWhitespace(text: string, opts: Options): string
  {
    var special := SpecialCharacters.Cleaned(text);
    var joined := Hyphenation.FixHyphenation(special);
    var unnumbered := PageNumbers.RemovePageNumbers(joined);
    var unrepeated := HeadersFooters.HeadersFootersRemoved(unnumbered, opts.minRepetition);
    var unlinked := if opts.removeUrls then UrlsAndEmails.RemoveUrlsAndEmails(unrepeated) else unrepeated;
    if opts.normalizeMedical then MedicalTerms.Normalized(unlinked) else unlinked
  }

  /** The text `clean_document` puts in the new document. */
  function CleanedText(text: string, opts: Options): string
  {
    Whitespace.CleanWhitespace(BeforeWhitespace(text, opts))
  }

  /** `{**metadata, 'cleaned': True, 'headlines': []}`. */
  function CleanedMetadata(metadata: map<string, Value>): (r: map<string, Value>)
    ensures r.Keys == metadata.Keys + {"cleaned", "headlines"}
    ensures r["cleaned"] == Flag(true) && r["headlines"] == Items([])
    ensures forall k :: k in metadata && k != "cleaned" && k != "headlines" ==> r[k] == metadata[k]
  {
    metadata["cleaned" := Flag(true)]["headlines" := Items([])]
  }

  function CleanedDocument(doc: Document, opts: Options): Document
  {
    Document(CleanedText(doc.text, opts), CleanedMetadata(doc.metadata))
  }

  /**
   * The method rebinds the text once per step; the result is the cleaned
   * document, whose text is trimmed with tidy lines and whose metadata keeps
   * every key, marks the document cleaned and empties its headlines.
   */
  method CleanDocument(doc: Document, opts: Options) returns (r: Document)
    ensures r == CleanedDocument(doc, opts)
    ensures Strip(r.text) == r.text && Whitespace.TidyLines(r.text)
    ensures doc.metadata.Keys <= r.metadata.Keys
    ensures r.metadata["cleaned"] == Flag(true) && r.metadata["headlines"] == Items([])
  {
    var text := doc.text;
    text := SpecialCharacters.CleanSpecialCharacters(text);
    text := Hyphenation.FixHyphenation(text);
    text := PageNumbers.RemovePageNumbers(text);
    text := HeadersFooters.RemoveHeadersFooters(text, opts.minRepetition);
    if opts.removeUrls {
      text := UrlsAndEmails.RemoveUrlsAndEmails(text);
    }
    if opts.normalizeMedical {
      text := MedicalTerms.NormalizeMedicalTerms(text);
    }
    ghost var beforeWhitespace := text;
    text := Whitespace.CleanWhitespace(text);
    Whitespace.CleanWhitespaceLines(beforeWhitespace);
    r := Document(text, CleanedMetadata(doc.metadata));
  }

  /** The cleaned text is trimmed, its lines are tidy, and it has no double space and no triple line break. */
  lemma CleanedTextTidy(text: string, opts: Options)
    ensures Strip(CleanedText(text, opts)) == CleanedText(text, opts)
    ensures Whitespace.TidyLines(CleanedText(text, opts))
    ensures Whitespace.NoDoubleSpace(CleanedText(text, opts))
    ensures Whitespace.NoTripleNewline(CleanedText(text, opts))
  {
    var expanded := BeforeWhitespace(text, opts);
    Whitespace.CleanWhitespaceLines(expanded);
    Whitespace.CleanWhitespaceNoDoubleSpace(expanded);
    Whitespace.CleanWhitespaceNoTripleNewline(expanded);
  }

  /**
   * Without medical normalisation only the ellipsis makes the text longer:
   * every later step never lengthens it, so the cleaned text is at most two
   * characters per ellipsis longer than the original.
   */
  lemma CleanedTextLength(text: string, opts: Options)
    requires !opts.normalizeMedical
    ensures |CleanedText(text, opts)| <= |text| + 2 * CountChar(text, SpecialCharacters.Ellipsis)
  {
    var special := SpecialCharacters.Cleaned(text);
    SpecialCharacters.CleanedLength(text);
    var joined := Hyphenation.FixHyphenation(special);
    Hyphenation.FixHyphenationShrinks(special);
    var unnumbered := PageNumbers.RemovePageNumbers(joined);
    PageNumbers.RemovePageNumbersShrinks(joined);
    var unrepeated := HeadersFooters.HeadersFootersRemoved(unnumbered, opts.minRepetition);
    HeadersFooters.HeadersFootersShrinks(unnumbered, opts.minRepetition);
    UrlsAndEmails.RemoveUrlsAndEmailsShrinks(unrepeated);
    Whitespace.CleanWhitespaceShrinks(BeforeWhitespace(text, opts));
  }

  // ---------------------------------------------------------------------------
  // clean_documents

  /** A comprehension `[f(doc) for doc in docs]`: one result per document, in order. */
  function MapDocuments(docs: seq<Document>, f: Document -> Document): (r: seq<Document>)
    ensures |r| == |docs|
    ensures forall i :: 0 <= i < |docs| ==> r[i] == f(docs[i])
  {
    if docs == [] then [] else [f(docs[0])] + MapDocuments(docs[1..], f)
  }

  /** `clean_documents`: every document cleaned with the same options, in order. */
  function CleanDocuments(docs: seq<Document>, opts: Options): (r: seq<Document>)
    ensures |r| == |docs|
    ensures forall i :: 0 <= i < |docs| ==> r[i] == CleanedDocument(docs[i], opts)
  {
    MapDocuments(docs, doc => CleanedDocument(doc, opts))
  }

  // ---------------------------------------------------------------------------
  // get_document_stats

  /**
   * The statistics dictionary.  Python's float averages are exact reals here:
   * the total divided by the number of documents, or 0 for no documents.
   */
  datatype Stats = Stats(
    numDocuments: nat,
    totalCharacters: nat,
    totalWords: nat,
    avgCharsPerDocument: real,
    avgWordsPerDocument: real)

  /** `sum(len(doc.text) for doc in documents)`. */
  function TotalCharacters(docs: seq<Document>): nat
  {
    if docs == [] then 0 else |docs[0].text| + TotalCharacters(docs[1..])
  }

  /** `sum(len(doc.text.split()) for doc in documents)`. */
  function TotalWords(docs: seq<Document>): nat
  {
    if docs == [] then 0 else WordCount(docs[0].text) + TotalWords(docs[1..])
  }

  function GetDocumentStats(docs: seq<Document>): (s: Stats)
    ensures s.numDocuments == |docs|
    ensures s.totalCharacters == TotalCharacters(docs) && s.totalWords == TotalWords(docs)
    ensures docs == [] ==> s.avgCharsPerDocument == 0.0 && s.avgWordsPerDocument == 0.0
    ensures docs != [] ==> s.avgCharsPerDocument * |docs| as real == s.totalCharacters as real
    ensures docs != [] ==> s.avgWordsPerDocument * |docs| as real == s.totalWords as real
  {
    var chars := TotalCharacters(docs);
    var words := TotalWords(docs);
    var n := |docs|;
    Stats(n, chars, words,
          if n > 0 then chars as real / n as real else 0.0,
          if n > 0 then words as real / n as real else 0.0)
  }

  /** A corpus has no characters exactly when every document is empty. */
  lemma {:induction false} NoCharactersIffAllEmpty(docs: seq<Document>)
    ensures TotalCharacters(docs) == 0 <==> forall i :: 0 <= i < |docs| ==> docs[i].text == []
  {
    if docs != [] {
      NoCharactersIffAllEmpty(docs[1..]);
      assert forall i :: 1 <= i < |docs| ==> docs[i] == docs[1..][i - 1];
    }
  }

  /** A corpus has no words exactly when every document is whitespace only. */
  lemma {:induction false} NoWordsIffAllBlank(docs: seq<Document>)
    ensures TotalWords(docs) == 0 <==> forall i :: 0 <= i < |docs| ==> AllSpace(docs[i].text)
  {
    if docs != [] {
      NoWordsIffAllBlank(docs[1..]);
      NoWordsIffAllSpace(docs[0].text);
      assert forall i :: 1 <= i < |docs| ==> docs[i] == docs[1..][i - 1];
    }
  }

  /** Every word takes at least one character, so a corpus never has more words than characters. */
  lemma {:induction false} WordsAtMostCharacters(docs: seq<Document>)
    ensures TotalWords(docs) <= TotalCharacters(docs)
  {
    if docs != [] {
      WordsAtMostCharacters(docs[1..]);
      WordsFromAtMost(docs[0].text, 0);
    }
  }

  lemma {:induction false} WordsFromAtMost(s: string, i: nat)
    requires i <= |s|
    ensures |WordsFrom(s, i)| <= |s| - i
    decreases |s| - i
  {
    if i < |s| {
      if IsSpace(s[i]) {
        WordsFromAtMost(s, i + 1);
      } else {
        WordsFromAtMost(s, RunEnd(s, i));
      }
    }
  }
}
