# Text cleaning for a PDF question-answering pipeline

This project models the text-cleaning core of a retrieval-augmented question
answering system that indexes French medical PDFs. It covers two parts:

- `TextCleaner` (`text_cleaner.py`) runs each extracted document through a
  fixed chain of steps:
  1. special-character replacement;
  2. re-joining of hyphenated words;
  3. removal of page numbers;
  4. removal of repeated header and footer lines;
  5. optionally, removal of URLs and e-mail addresses;
  6. optionally, normalisation of four diabetes abbreviations;
  7. whitespace clean-up.

  It then rebuilds the document's metadata and computes corpus statistics.
- The decision rules of `preprocess_pdfs.py`:
  - the truncated preview of a document;
  - the problems `analyze_documents` reports for each document;
  - the recommendations it makes.

  These are returned as values; nothing is printed.

Each regular expression of the source becomes a hand-written matcher. The
matcher is tried at every position, left to right, with the greedy and
backtracking behaviour of Python's `re` worked out by hand. The generic
driver `RegexSub.Sub` copies unmatched characters and splices in the
replacement of each match, as `re.sub` does.

Modules, one per file:

- `Wrappers`: `Option` and `Result`.
- `TextBasics`: Python's `str.isspace`, `strip`, `split('\n')` / `'\n'.join`, `split()` and `lower`.
- `RegexSub`: the `re.sub` driver.
- `SpecialCharacters`, `Hyphenation`, `PageNumbers`, `HeadersFooters`, `UrlsAndEmails`, `MedicalTerms` and `Whitespace`: one cleaning step each.
- `TextCleaner`: `clean_document`, `clean_documents` and `get_document_stats`.
- `PreprocessPdfs`: the preview and `analyze_documents`.

The default keyword arguments of `clean_document` and `clean_documents`
(`remove_urls=True`, `normalize_medical=False`, `min_repetition=3`) are the
constant `TextCleaner.DefaultOptions`. `analyze_documents` passes the first
two explicitly and leaves `min_repetition` at its default, so its options
`PreprocessPdfs.AnalysisOptions` take the threshold from `DefaultOptions`.

Where the source changes a variable step by step, the model is a method:
the replacement-table loop, the line-counting loop, the medical-term loop,
the step chain of `clean_document` and the problem and recommendation
loops. Each such method is proved equal to a specification function. The
properties are proved about that function.

## Model

| member | source | states |
|---|---|---|
| SpecialCharacters.CleanSpecialCharacters | text_cleaner.py:107-125 | the loop over the eight-entry replacement table, followed by the control-character deletion, equals the per-character image `Cleaned`: no replacement output contains a later key, so the order of the table does not matter |
| SpecialCharacters.CleanedHasNoSpecials | text_cleaner.py:107-125 | no replaced character (no-break space, curly quotes, en/em dash, ellipsis) and no deleted control character (0x00-0x08, 0x0B-0x0C, 0x0E-0x1F, 0x7F-0x9F) is left in the result |
| SpecialCharacters.CleanedLength | text_cleaner.py:108-123 | the length changes by exactly +2 per ellipsis and -1 per deleted control character |
| SpecialCharacters.CleanedKeepsCount | text_cleaner.py:108-123 | every surviving character that no replacement produces keeps its number of occurrences |
| SpecialCharacters.KeepsLineBreaksAndTabs | text_cleaner.py:122-123 | `\n`, `\t` and `\r` are outside the deleted ranges, so their counts are unchanged |
| SpecialCharacters.CleanedIdentity | text_cleaner.py:107-125 | a text without any replaced or control character is returned unchanged |
| SpecialCharacters.ReplaceChar | text_cleaner.py:119-120 | `str.replace` of a character that does not occur returns the text unchanged |
| Hyphenation.BrokenWordAt | text_cleaner.py:139 | a match of `(\w+)-\s*\n\s*(\w+)` lies inside the text, and its replacement is at least two characters shorter than the match |
| Hyphenation.BrokenWordShape | text_cleaner.py:139 | a match is the word run at its start, a hyphen, a whitespace run holding a line break and the word run after it; the replacement is exactly the two word runs glued together, so it is one run of word characters |
| Hyphenation.FixHyphenationShrinks | text_cleaner.py:139 | re-joining never lengthens the text |
| Hyphenation.FixHyphenationIdentity | text_cleaner.py:139 | a text where no hyphen after a word character is followed by whitespace holding a line break is unchanged |
| Hyphenation.Rejoin | text_cleaner.py:139 | inside a text, `word1 + "-" + gap + word2`, with a gap of whitespace holding a line break, becomes `word1 + word2` and the text on both sides is kept: the hyphen is dropped |
| Hyphenation.RejoinAt | text_cleaner.py:139 | the same, for a broken word found at given positions of a text |
| PageNumbers.NumberLineAt | text_cleaner.py:53 | a match of `^\s*\d+\s*$` (multi-line) is a nonempty deletion inside the text |
| PageNumbers.PageTokenAt | text_cleaner.py:56 | a match of `\b[Pp]age\s+\d+\b` is a nonempty deletion inside the text |
| PageNumbers.PTokenAt | text_cleaner.py:57 | a match of `\bp\.\s*\d+\b` is a nonempty deletion inside the text |
| PageNumbers.LastLineEnd | text_cleaner.py:53 | the backtracking search for `$` finds the last line end within reach, or reports that there is none |
| PageNumbers.RemovePageNumbersShrinks | text_cleaner.py:52-59 | the three deletions never lengthen the text |
| PageNumbers.RemovePageNumbersIdentity | text_cleaner.py:52-59 | a text without digits is unchanged |
| PageNumbers.NumberLineVanishes | text_cleaner.py:52-57 | a text holding only a number with whitespace around it, line breaks included, is deleted whole by the three deletions |
| PageNumbers.NumberLineVanishesIn | text_cleaner.py:53 | inside a text, a line holding only a number with whitespace around it is deleted; the text above it, ending in a line break after a non-blank character, and the text below it, starting with a line break before a non-blank character, are kept |
| PageNumbers.NumberLineOnlyAt | text_cleaner.py:53 | the same, for a number line found at given positions of a text |
| PageNumbers.PageTokenVanishes | text_cleaner.py:56 | inside a text, "Page" or "page", a gap of any whitespace (line breaks included) and a number, standing as a word of its own, are deleted and the text on both sides is kept |
| PageNumbers.PageTokenOnlyAt | text_cleaner.py:56 | the same, for a token found at given positions of a text |
| PageNumbers.PTokenVanishes | text_cleaner.py:57 | inside a text, "p.", a possibly empty whitespace gap and a number, standing as a word of its own, are deleted and the text on both sides is kept |
| PageNumbers.PTokenOnlyAt | text_cleaner.py:57 | the same, for a token found at given positions of a text |
| PageNumbers.RemovePTokensNeedsLowerP | text_cleaner.py:57 | the third pattern leaves a text without a lower-case "p" unchanged |
| PageNumbers.CapitalPTokenKept | text_cleaner.py:57 | "P." with a capital, followed by whitespace and a number, is kept, in a text without a lower-case "p" |
| HeadersFooters.CountShortLines | text_cleaner.py:76-80 | the counting loop's dictionary holds exactly the stripped lines that are nonempty and shorter than 100 characters, each with its number of occurrences |
| HeadersFooters.RemoveHeadersFooters | text_cleaner.py:73-94 | split, count, build the repetitive set and filter: equals the line filter `HeadersFootersRemoved` |
| HeadersFooters.FilterIsKept | text_cleaner.py:83-92 | filtering against the set of repetitive lines keeps exactly the lines the survival rule keeps |
| HeadersFooters.KeptIsSubsequence | text_cleaner.py:89-92 | the kept lines are a subsequence of the original lines, in order |
| HeadersFooters.KeptCounts | text_cleaner.py:89-92 | a surviving line value keeps all its occurrences; a dropped one keeps none |
| HeadersFooters.DroppedIff | text_cleaner.py:79-91 | a line is dropped exactly when its stripped form is nonempty, shorter than 100 characters and occurs at least `min_repetition` times |
| HeadersFooters.HeadersFootersIdentity | text_cleaner.py:73-94 | when no short line repeats `min_repetition` times, the text is unchanged |
| HeadersFooters.HeadersFootersShrinks | text_cleaner.py:73-94 | removing lines never lengthens the text |
| HeadersFooters.OccursWhenPresent | text_cleaner.py:76-80 | every line's stripped form is counted at least once |
| UrlsAndEmails.UrlAt | text_cleaner.py:155 | a URL match is a nonempty deletion inside the text |
| UrlsAndEmails.UrlRunEnd | text_cleaner.py:155 | the greedy repetition stops at the first character outside the URL class |
| UrlsAndEmails.EmailAt | text_cleaner.py:158 | an e-mail match is a nonempty deletion inside the text |
| UrlsAndEmails.DotSearchFindsLastDot | text_cleaner.py:158 | backtracking tries the last dot of the domain first |
| UrlsAndEmails.RemoveUrlsAndEmailsShrinks | text_cleaner.py:154-160 | the two deletions never lengthen the text |
| UrlsAndEmails.RemoveUrlsAndEmailsIdentity | text_cleaner.py:154-160 | a text without "http://", "https://" and "@" is unchanged |
| UrlsAndEmails.UrlVanishes | text_cleaner.py:155 | inside a text, a scheme followed by the whole run of URL characters after it is deleted, and the text on both sides is kept |
| UrlsAndEmails.UrlFound | text_cleaner.py:155 | the URL pattern matches from a scheme to the end of the run of URL characters after it |
| UrlsAndEmails.EmailVanishes | text_cleaner.py:158 | inside a text, an address with a user part, a domain and a top-level domain of at least two letters is deleted whole, and the text on both sides is kept |
| UrlsAndEmails.EmailOnlyAt | text_cleaner.py:158 | the same, for an address found at given positions of a text |
| UrlsAndEmails.EmailFound | text_cleaner.py:158 | the e-mail pattern matches from the user part to the end of the top-level domain after the last dot |
| UrlsAndEmails.UrlTakesTrailingPunctuation | text_cleaner.py:155 | the range `$-_` swallows `>` and `.`: "<http://a.fr>." becomes "<" |
| UrlsAndEmails.EmailTldAdmitsBar | text_cleaner.py:158 | the top-level-domain class written with a bar between its two letter ranges also admits the bar character, so "a" + "@b.c" + bar + "d" is deleted whole |
| MedicalTerms.TermMatch | text_cleaner.py:175-182 | a term match ends right after the term and carries the expansion |
| MedicalTerms.TermMatchIsWholeWord | text_cleaner.py:175-182 | `\bTERM\b` with IGNORECASE matches exactly where the term stands as a whole word, in any case |
| MedicalTerms.NormalizeMedicalTerms | text_cleaner.py:173-184 | the loop over the four patterns equals `Normalized`, and afterwards none of DT1, DT2, HbA1c, IMC stands as a whole word in any case; `NormalizedIn` states what it does to an abbreviation in running text |
| MedicalTerms.NormalizedIn | text_cleaner.py:173-184 | one of DT1, DT2, HbA1c, IMC, in any case, standing as a word of its own in running text becomes its expansion and the text around it is kept, when that text holds none of the four as a whole word |
| MedicalTerms.TermReplacedIn | text_cleaner.py:181-182 | one `re.sub(r'\bTERM\b', expansion, text, flags=re.IGNORECASE)` pass turns the term, in any case, standing between non-word characters into the expansion and keeps the surrounding text, when that text holds no other whole-word occurrence |
| MedicalTerms.ReplaceTermIdentity | text_cleaner.py:181-182 | one pass leaves a text without a whole-word occurrence of its term unchanged |
| MedicalTerms.ExpansionFree | text_cleaner.py:174-179 | no expansion holds any of the four abbreviations as a whole word, so no pass creates an occurrence for itself or for a later pass |
| MedicalTerms.VariantFree | text_cleaner.py:174-179 | a case variant of one abbreviation holds no other abbreviation as a whole word, so the other passes leave it alone |
| MedicalTerms.NoAbbreviationRemains | text_cleaner.py:173-184 | after normalisation no abbreviation remains as a whole word: no expansion reintroduces an earlier or later term |
| MedicalTerms.NormalizedIdentity | text_cleaner.py:173-184 | a text without any of the four abbreviations as a whole word is unchanged |
| MedicalTerms.ImcExpanded | text_cleaner.py:178-182 | a lower-case "imc" is expanded too, because of IGNORECASE |
| MedicalTerms.ImcHoldsNoOtherTerm | text_cleaner.py:175-177 | "imc" contains none of the first three terms, so the first three passes leave it alone |
| Whitespace.CollapseBlankLinesNoTriple | text_cleaner.py:34 | after the blank-line collapse, no stretch of whitespace holds three line breaks |
| Whitespace.CleanWhitespaceLines | text_cleaner.py:30-39 | the result is stripped, and every line is stripped with no two consecutive interior empty lines |
| Whitespace.CleanWhitespaceNoDoubleSpace | text_cleaner.py:30-39 | the result has no two consecutive spaces |
| Whitespace.CleanWhitespaceNoTripleNewline | text_cleaner.py:30-39 | the result has no three consecutive line breaks |
| Whitespace.CleanWhitespaceShrinks | text_cleaner.py:30-39 | whitespace clean-up never lengthens the text |
| Whitespace.SpacesShrink | text_cleaner.py:31 | `' +'` to one space: every match is at least as long as its replacement |
| Whitespace.BlankLinesShrink | text_cleaner.py:34 | `\n\s*\n\s*\n+` to two line breaks: every match is at least as long as its replacement |
| TextCleaner.CleanDocument | text_cleaner.py:186-229 | the steps chained in the source's order equal `CleanedDocument`; the new text is stripped with tidy lines; the metadata keeps every key, sets `cleaned` to true and `headlines` to an empty list |
| TextCleaner.CleanedMetadata | text_cleaner.py:220-226 | the keys are the old ones plus `cleaned` and `headlines`, with those two overwritten and every other value kept |
| TextCleaner.CleanedTextTidy | text_cleaner.py:203-217 | whatever the options, the cleaned text is stripped, has tidy lines, no double space and no triple line break |
| TextCleaner.CleanedTextLength | text_cleaner.py:203-217 | without medical normalisation the cleaned text is at most two characters per ellipsis longer than the original |
| TextCleaner.MapDocuments | text_cleaner.py:248-256 | the list comprehension keeps the number and the order of the documents |
| TextCleaner.CleanDocuments | text_cleaner.py:231-256 | one cleaned document per input document, in order, all cleaned with the same options |
| TextCleaner.GetDocumentStats | text_cleaner.py:259-280 | the count, the character and word totals, and averages that are 0 for no documents and otherwise times the count give the totals |
| TextCleaner.NoCharactersIffAllEmpty | text_cleaner.py:269 | the character total is 0 exactly when every document is empty |
| TextCleaner.NoWordsIffAllBlank | text_cleaner.py:270 | the word total is 0 exactly when every document is whitespace only |
| TextCleaner.WordsAtMostCharacters | text_cleaner.py:269-270 | a corpus never has more words than characters |
| TextBasics.JoinSplit | text_cleaner.py:73-94 | joining the lines of a split with line breaks gives back the text |
| TextBasics.SplitJoin | text_cleaner.py:37 | splitting a join of break-free lines gives back the lines |
| TextBasics.NoWordsIffAllSpace | text_cleaner.py:270 | `str.split()` finds no word exactly when the text is whitespace only |
| TextBasics.WordsAreRuns | text_cleaner.py:270 | every word `str.split()` returns is a nonempty run without whitespace |
| TextBasics.StripEmptyIffAllSpace | text_cleaner.py:79 | `strip()` gives the empty string exactly when the text is whitespace only |
| TextBasics.StripEnds | text_cleaner.py:39 | a stripped text neither starts nor ends with whitespace |
| RegexSub.SubShrinks | text_cleaner.py:53-57 | `re.sub` with a pattern whose replacement is never longer than its match never lengthens the text |
| RegexSub.SubIdentity | text_cleaner.py:53-57 | `re.sub` with a pattern that matches nowhere returns the text unchanged |
| RegexSub.SubSingleMatch | text_cleaner.py:53-57 | when a pattern matches at one position only, `re.sub` replaces exactly that span and keeps the text on both sides |
| PreprocessPdfs.Preview | preprocess_pdfs.py:21-23 | a text no longer than `max_chars` is shown whole; a longer one shows a prefix followed by "...", exactly `max_chars + 3` characters when `max_chars` is not negative |
| PreprocessPdfs.AnalyzeDocuments | preprocess_pdfs.py:34-182 | statistics before and after cleaning with URL removal, without medical normalisation and with the default repetition threshold, a zero-division failure in the word reduction, the problems and the recommendations, equal to `Analysis` |
| PreprocessPdfs.FindProblems | preprocess_pdfs.py:111-132 | the loop over the documents numbered from 1 appends each document's problems in order, giving `Problems` |
| PreprocessPdfs.CheckDocument | preprocess_pdfs.py:113-132 | the three checks in the source's order give `DocumentProblems` |
| PreprocessPdfs.Repetitive | preprocess_pdfs.py:118-125 | the tally and the comprehension over it give the set of short lines seen more than five times |
| PreprocessPdfs.Recommend | preprocess_pdfs.py:144-173 | the recommendations are appended in the source's order (cleaning, URL removal, medical normalisation), each under its own condition, giving `Recommendations` |
| PreprocessPdfs.RepeatedLinesIff | preprocess_pdfs.py:118-125 | a line value is repetitive exactly when it is a nonempty stripped line under 100 characters occurring more than five times |
| PreprocessPdfs.CountPositiveIffContains | preprocess_pdfs.py:130-131 | the non-overlapping count of "http" is positive exactly when "http" occurs, so a reported URL count is never 0 |
| PreprocessPdfs.ShortIff | preprocess_pdfs.py:114-115 | a document is reported too short, with its length, exactly when it has fewer than 100 characters |
| PreprocessPdfs.RepetitionIff | preprocess_pdfs.py:118-127 | repetitive lines are reported, with their number, exactly when some short line occurs more than five times |
| PreprocessPdfs.UrlIff | preprocess_pdfs.py:130-132 | URLs are reported, with the count of "http" in the lower-cased text, exactly when that count is positive |
| PreprocessPdfs.ProblemsOrdered | preprocess_pdfs.py:111-132 | the problems are grouped by document in increasing order, each document's in the order short, repetitive, URLs; each names a document between 1 and the number of documents |
| PreprocessPdfs.CleaningRecommendation | preprocess_pdfs.py:146-154 | cleaning is recommended, with the totals before and after, exactly when the characters shrink by more than ten percent, and no other cleaning recommendation is made |
| PreprocessPdfs.UrlRecommendation | preprocess_pdfs.py:157-161 | URL removal is recommended exactly when some document contains "http" in any letter case |
| PreprocessPdfs.AnalysisRecommendations | preprocess_pdfs.py:34-182 | a successful analysis carries the recommendations for the statistics before and after cleaning with the analysis options |
| PreprocessPdfs.CleaningRecommendedIff | preprocess_pdfs.py:61-64 | a successful analysis recommends cleaning exactly when cleaning the documents with URL removal, no medical normalisation and the default threshold removes more than ten percent of their characters |
| PreprocessPdfs.UrlRecommendedIff | preprocess_pdfs.py:157-161 | a successful analysis recommends URL removal exactly when some document's lower-cased text contains "http" |
| PreprocessPdfs.MedicalRecommendedIff | preprocess_pdfs.py:164-171 | medical normalisation is recommended exactly when some document contains one of the four abbreviations verbatim, case-sensitively |
| PreprocessPdfs.AnalysisFailsIff | preprocess_pdfs.py:79-83 | the analysis fails exactly when some document is nonempty and every document is whitespace only: the word reduction then divides by zero |

## Left out

- Reading the PDFs (`SimpleDirectoryReader`), argument parsing, `main`, printing and the `input()` pause between previews are left out. Documents are a parameter, and the analysis returns a report instead of printing it.
- The other files of the repository (the app, the embedding manager, the LLM wrapper and the evaluation script) are not part of this model.
- Floating point: averages and the reduction are exact. `avg * n == total` holds over the reals. The ten-percent test is integer cross-multiplication, so the model has no rounding at the boundary. The printed percentages are not modelled.
- The word reduction in `analyze_documents` divides by the word total without a guard. The model makes this an explicit `Failure(ZeroDivision)` instead of an exception.
- Unicode: `\w` is exact up to U+024F only: the ASCII letters, digits and `_`; U+00AA, U+00B2, U+00B3, U+00B5, U+00B9, U+00BA and U+00BC to U+00BE (the feminine and masculine ordinals, the superscript digits, the micro sign and the vulgar fractions); and U+00C0 to U+024F except U+00D7 and U+00F7 (the Latin-1 letters and Latin Extended-A and -B). Characters of other scripts count as non-word characters. `\d` is ASCII digits. IGNORECASE and `lower()` fold ASCII letters only. `\s` and `str.isspace` use Python's exact set of whitespace characters.
- `MedicalTerms.NormalizeMedicalTerms`: the comparison ignores case for ASCII letters only, which covers the four abbreviations. Non-ASCII case pairs are not folded.
- `Hyphenation.Rejoin`: the comment at text_cleaner.py:138 says the result is "mot-mot", but the code at line 139 drops the hyphen. The model follows the code.
- `PageNumbers.PageTokenVanishes`: `\s` in `[Pp]age\s+\d+` also matches line breaks, so "Page" at the end of one line followed by a number on the next is deleted. The model keeps this behaviour.
- `Hyphenation.Rejoin`, `PageNumbers.NumberLineVanishesIn`, `PageNumbers.PageTokenVanishes`, `PageNumbers.PTokenVanishes`, `UrlsAndEmails.UrlVanishes`, `UrlsAndEmails.EmailVanishes`: each is stated for surrounding text in which its pattern cannot match (no hyphen, no digit, no scheme, no `@` respectively), so that the span shown is the only match. Texts with several matches are covered by the `Shrinks` and `Identity` lemmas only.
- `MedicalTerms.NormalizedIn`, `MedicalTerms.TermReplacedIn`: stated for one abbreviation in text that holds no other whole-word abbreviation, so that it is the only match of any pass. Texts with several abbreviations are covered by `NoAbbreviationRemains` and `NormalizedIdentity` only.
- `PreprocessPdfs.Preview`: the heading, the file name and the printed length and word count around the preview are printing only and are left out.
- `PreprocessPdfs.Problems`: problem messages are values carrying the document number and the figure the message shows, not formatted strings.
