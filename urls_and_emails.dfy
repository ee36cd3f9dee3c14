/**
 * `TextCleaner.remove_urls_and_emails`: two deletions applied in turn,
 *   `re.sub(r'http[s]?://(?:[a-zA-Z]|[0-9]|[$-_@.&+]|[!*\\(\\),]|(?:%[0-9a-fA-F][0-9a-fA-F]))+', '', text)`
 *   and `re.sub(r'\b[A-Za-z0-9._%+-]+@[A-Za-z0-9.-]+\.[A-Z|a-z]{2,}\b', '', text)`.
 */
module UrlsAndEmails {
  import opened TextBasics
  import opened Wrappers
  import opened RegexSub

  // ---------------------------------------------------------------------------
  // URLs

  /**
   * A character one repetition of the URL group can consume.  `[$-_@.&+]` is
   * the RANGE from `$` (0x24) to `_` (0x5F), so it already holds the digits,
   * the upper-case letters, `:`, `/`, `?`, `=`, `<`, `>`, `[`, `\`, `]`, `(`,
   * `)`, `*`, `,` and `%`; the raw-string class `[!*\\(\\),]` adds `!`, and the
   * `%XX` alternative adds nothing that `%` alone does not already match.
   */
  predicate IsUrlChar(c: char)
  {
    c == '!' || ('$' <= c <= '_') || ('a' <= c <= 'z')
  }

  function UrlRunEnd(s: string, i: nat): (k: nat)
    requires i <= |s|
    ensures i <= k <= |s|
    ensures forall j :: i <= j < k ==> IsUrlChar(s[j])
    ensures k == |s| || !IsUrlChar(s[k])
    decreases |s| - i
  {
    if i == |s| || !IsUrlChar(s[i]) then i else UrlRunEnd(s, i + 1)
  }

  lemma {:induction false} UrlRunIs(s: string, i: nat, k: nat)
    requires i <= k <= |s|
    requires forall j :: i <= j < k ==> IsUrlChar(s[j])
    requires k == |s| || !IsUrlChar(s[k])
    ensures UrlRunEnd(s, i) == k
    decreases k - i
  {
    if i < k {
      UrlRunIs(s, i + 1, k);
    }
  }

  /**
   * The URL pattern tried at `i`.  `[s]?` first takes an `s`; without `://`
   * after it, dropping the `s` cannot help, since `:` would have to stand
   * where the `s` is.  The greedy repetition takes the whole run of URL
   * characters, which must not be empty.
   */
  function UrlAt(s: string, i: nat): (r: Option<Match>)
    ensures r.Some? ==> i < r.value.end <= |s| && r.value.replacement == []
  {
    if i >= |s| then None
    else if OccursAt(s, i, "https://") then
      var e := UrlRunEnd(s, i + 8);
      if e == i + 8 then None else Some(Match(e, []))
    else if OccursAt(s, i, "http://") then
      var e := UrlRunEnd(s, i + 7);
      if e == i + 7 then None else Some(Match(e, []))
    else None
  }

  // ---------------------------------------------------------------------------
  // E-mail addresses

  /** `[A-Za-z0-9._%+-]`, the user part. */
  predicate IsLocalChar(c: char)
  {
    IsAsciiLetter(c) || IsDigit(c) || c in "._%+-"
  }

  /** `[A-Za-z0-9.-]`, the domain part. */
  predicate IsDomainChar(c: char)
  {
    IsAsciiLetter(c) || IsDigit(c) || c == '.' || c == '-'
  }

  /** `[A-Z|a-z]`: the `|` in the class is a literal bar, so it is admitted as well. */
  predicate IsTldChar(c: char)
  {
    IsAsciiLetter(c) || c == '|'
  }

  function LocalEnd(s: string, i: nat): (k: nat)
    requires i <= |s|
    ensures i <= k <= |s|
    ensures forall j :: i <= j < k ==> IsLocalChar(s[j])
    ensures k == |s| || !IsLocalChar(s[k])
    decreases |s| - i
  {
    if i == |s| || !IsLocalChar(s[i]) then i else LocalEnd(s, i + 1)
  }

  function DomainEnd(s: string, i: nat): (k: nat)
    requires i <= |s|
    ensures i <= k <= |s|
    ensures forall j :: i <= j < k ==> IsDomainChar(s[j])
    ensures k == |s| || !IsDomainChar(s[k])
    decreases |s| - i
  {
    if i == |s| || !IsDomainChar(s[i]) then i else DomainEnd(s, i + 1)
  }

  function TldEnd(s: string, i: nat): (k: nat)
    requires i <= |s|
    ensures i <= k <= |s|
    ensures forall j :: i <= j < k ==> IsTldChar(s[j])
    ensures k == |s| || !IsTldChar(s[k])
    decreases |s| - i
  {
    if i == |s| || !IsTldChar(s[i]) then i else TldEnd(s, i + 1)
  }

  /** The largest `t` in `[lo, hi]` with `\b` at `t`: where `[A-Z|a-z]{2,}\b` stops after giving back. */
  function LastBoundary(s: string, lo: nat, hi: nat): (r: Option<nat>)
    requires hi <= |s|
    ensures r.Some? ==> lo <= r.value <= hi && WordBoundary(s, r.value)
    decreases hi
  {
    if hi < lo then None
    else if WordBoundary(s, hi) then Some(hi)
    else if hi == 0 then None
    else LastBoundary(s, lo, hi - 1)
  }

  /**
   * The backtracking over `[A-Za-z0-9.-]+\.`: the dot is tried at `k`, then at
   * every earlier dot down to `lo` (the domain part must keep one character);
   * for each dot the top-level domain takes its whole run and gives back down
   * to two characters.  The first success is the match end.
   */
  function DotSearch(s: string, lo: nat, k: nat): (r: Option<nat>)
    requires k < |s|
    ensures r.Some? ==> lo + 3 <= r.value <= |s|
    decreases k
  {
    var found :=
      if k < lo || s[k] != '.' then None
      else LastBoundary(s, k + 3, TldEnd(s, k + 1));
    if found.Some? then found
    else if k <= lo then None
    else DotSearch(s, lo, k - 1)
  }

  /** The e-mail pattern tried at `i`. */
  function EmailAt(s: string, i: nat): (r: Option<Match>)
    ensures r.Some? ==> i < r.value.end <= |s| && r.value.replacement == []
  {
    if i >= |s| || !WordBoundary(s, i) then None
    else
      var a := LocalEnd(s, i);
      if a == i || a == |s| || s[a] != '@' then None
      else
        var d := DomainEnd(s, a + 1);
        if d < a + 3 then None
        else match DotSearch(s, a + 2, d - 1)
          case Some(e) => Some(Match(e, []))
          case None => None
  }

  lemma PatternsWellFormed(s: string)
    ensures WellFormed(UrlAt, s) && NeverLonger(UrlAt, s)
    ensures WellFormed(EmailAt, s) && NeverLonger(EmailAt, s)
  {
  }

  function RemoveUrls(text: string): string
  {
    PatternsWellFormed(text);
    Sub(UrlAt, text)
  }

  function RemoveEmails(text: string): string
  {
    PatternsWellFormed(text);
    Sub(EmailAt, text)
  }

  function RemoveUrlsAndEmails(text: string): string
  {
    RemoveEmails(RemoveUrls(text))
  }

  // ---------------------------------------------------------------------------

  /** Only deletions happen, so the text never grows. */
  lemma RemoveUrlsAndEmailsShrinks(text: string)
    ensures |RemoveUrlsAndEmails(text)| <= |text|
  {
    var t := RemoveUrls(text);
    PatternsWellFormed(text);
    PatternsWellFormed(t);
    SubShrinks(UrlAt, text);
    SubShrinks(EmailAt, t);
  }

  /** Text with no `http://`, no `https://` and no `@` is returned unchanged. */
  lemma RemoveUrlsAndEmailsIdentity(text: string)
    requires !Contains(text, "http://") && !Contains(text, "https://") && '@' !in text
    ensures RemoveUrlsAndEmails(text) == text
  {
    PatternsWellFormed(text);
    forall i | 0 <= i < |text| ensures UrlAt(text, i).None? && EmailAt(text, i).None? {
      assert !OccursAt(text, i, "http://");
      assert !OccursAt(text, i, "https://");
    }
    SubIdentity(UrlAt, text);
    SubIdentity(EmailAt, text);
  }

  // ---------------------------------------------------------------------------
  // Where the patterns cannot match

  /** Neither scheme occurs in `t`. */
  predicate NoScheme(t: string)
  {
    !Contains(t, "http://") && !Contains(t, "https://")
  }

  /**
   * Nothing before an `h` at position `h` matches when the text before it
   * holds no scheme: a scheme starting earlier and running into position `h`
   * would need an `h` at one of its later places, and neither scheme has one.
   */
  lemma NoUrlBefore(s: string, h: nat)
    requires h < |s| && s[h] == 'h' && NoScheme(s[..h])
    ensures forall p :: 0 <= p < h ==> UrlAt(s, p).None?
  {
    forall p | 0 <= p < h ensures !OccursAt(s, p, "http://") && !OccursAt(s, p, "https://") {
      if p + 7 <= h {
        assert !OccursAt(s[..h], p, "http://");
        assert s[p..p + 7] == s[..h][p..p + 7];
      } else if p + 7 <= |s| {
        assert s[p..p + 7][h - p] == s[h];
      }
      if p + 8 <= h {
        assert !OccursAt(s[..h], p, "https://");
        assert s[p..p + 8] == s[..h][p..p + 8];
      } else if p + 8 <= |s| {
        assert s[p..p + 8][h - p] == s[h];
      }
    }
  }

  lemma NoUrlFrom(s: string, e: nat)
    requires e <= |s| && NoScheme(s[e..])
    ensures forall p :: e <= p < |s| ==> UrlAt(s, p).None?
  {
    forall p | e <= p < |s| ensures !OccursAt(s, p, "http://") && !OccursAt(s, p, "https://") {
      assert !OccursAt(s[e..], p - e, "http://") && !OccursAt(s[e..], p - e, "https://");
      if p + 7 <= |s| {
        assert s[p..p + 7] == s[e..][p - e..p - e + 7];
      }
      if p + 8 <= |s| {
        assert s[p..p + 8] == s[e..][p - e..p - e + 8];
      }
    }
  }

  predicate AllUrlChars(t: string)
  {
    forall k :: 0 <= k < |t| ==> IsUrlChar(t[k])
  }

  lemma UrlSliceIs(s: string, i: nat, k: nat)
    requires i <= k <= |s| && AllUrlChars(s[i..k])
    requires k == |s| || !IsUrlChar(s[k])
    ensures UrlRunEnd(s, i) == k
  {
    forall j | i <= j < k ensures IsUrlChar(s[j]) {
      assert s[j] == s[i..k][j - i];
    }
    UrlRunIs(s, i, k);
  }

  /** The URL pattern matches `s[h..e]`: a scheme at `h` and the whole run of URL characters after it. */
  lemma UrlFound(s: string, h: nat, scheme: string, e: nat)
    requires scheme == "http://" || scheme == "https://"
    requires h + |scheme| < e <= |s| && s[h..h + |scheme|] == scheme
    requires AllUrlChars(s[h + |scheme|..e]) && (e == |s| || !IsUrlChar(s[e]))
    ensures UrlAt(s, h) == Some(Match(e, []))
  {
    UrlSliceIs(s, h + |scheme|, e);
    if scheme == "http://" {
      assert OccursAt(s, h, "http://");
      assert !OccursAt(s, h, "https://") by {
        assert s[h + 4] == s[h..h + 7][4] == ':';
      }
    } else {
      assert OccursAt(s, h, "https://");
    }
  }

  /**
   * A URL inside a text is deleted together with the whole run of URL
   * characters that follows its scheme, and the text around it is kept.
   */
  lemma UrlVanishes(x: string, scheme: string, rest: string, y: string)
    requires scheme == "http://" || scheme == "https://"
    requires rest != [] && AllUrlChars(rest)
    requires y == [] || !IsUrlChar(y[0])
    requires NoScheme(x) && NoScheme(y)
    ensures RemoveUrls(x + scheme + rest + y) == x + y
  {
    var s := x + scheme + rest + y;
    var h := |x|;
    var e := h + |scheme| + |rest|;
    FivePieces(x, scheme, rest, y, []);
    assert s + [] == s;
    assert s[..h] == x && s[h..h + |scheme|] == scheme && s[h + |scheme|..e] == rest && s[e..] == y;
    assert s[h] == s[h..h + |scheme|][0];
    assert y != [] ==> s[e] == y[0];
    UrlFound(s, h, scheme, e);
    NoUrlBefore(s, h);
    NoUrlFrom(s, e);
    PatternsWellFormed(s);
    SubSingleMatch(UrlAt, s, h);
    assert x + [] == x;
  }

  predicate AllLocalChars(t: string)
  {
    forall k :: 0 <= k < |t| ==> IsLocalChar(t[k])
  }

  predicate AllDomainChars(t: string)
  {
    forall k :: 0 <= k < |t| ==> IsDomainChar(t[k])
  }

  predicate AllLetters(t: string)
  {
    forall k :: 0 <= k < |t| ==> IsAsciiLetter(t[k])
  }

  lemma {:induction false} LocalRunIs(s: string, i: nat, k: nat)
    requires i <= k <= |s|
    requires forall j :: i <= j < k ==> IsLocalChar(s[j])
    requires k == |s| || !IsLocalChar(s[k])
    ensures LocalEnd(s, i) == k
    decreases k - i
  {
    if i < k {
      LocalRunIs(s, i + 1, k);
    }
  }

  lemma {:induction false} DomainRunIs(s: string, i: nat, k: nat)
    requires i <= k <= |s|
    requires forall j :: i <= j < k ==> IsDomainChar(s[j])
    requires k == |s| || !IsDomainChar(s[k])
    ensures DomainEnd(s, i) == k
    decreases k - i
  {
    if i < k {
      DomainRunIs(s, i + 1, k);
    }
  }

  lemma {:induction false} TldRunIs(s: string, i: nat, k: nat)
    requires i <= k <= |s|
    requires forall j :: i <= j < k ==> IsTldChar(s[j])
    requires k == |s| || !IsTldChar(s[k])
    ensures TldEnd(s, i) == k
    decreases k - i
  {
    if i < k {
      TldRunIs(s, i + 1, k);
    }
  }

  /** No address starts before `h` when the text before it has no `@` and does not end in a user-part character. */
  lemma NoEmailBefore(s: string, h: nat)
    requires h <= |s| && '@' !in s[..h]
    requires h == 0 || !IsLocalChar(s[h - 1])
    ensures forall p :: 0 <= p < h ==> EmailAt(s, p).None?
  {
    forall p | 0 <= p < h ensures EmailAt(s, p).None? {
      var a := LocalEnd(s, p);
      assert a < h;
      assert s[a] == s[..h][a];
    }
  }

  lemma NoEmailFrom(s: string, e: nat)
    requires e <= |s| && '@' !in s[e..]
    ensures forall p :: e <= p < |s| ==> EmailAt(s, p).None?
  {
    forall p | e <= p < |s| ensures EmailAt(s, p).None? {
      var a := LocalEnd(s, p);
      if a < |s| {
        assert s[a] == s[e..][a - e];
      }
    }
  }

  /** The user part `s[h..a]` ends at the `@`. */
  lemma LocalPartIs(s: string, h: nat, a: nat)
    requires h <= a < |s| && AllLocalChars(s[h..a]) && s[a] == '@'
    ensures LocalEnd(s, h) == a
  {
    forall j | h <= j < a ensures IsLocalChar(s[j]) {
      assert s[j] == s[h..a][j - h];
    }
    LocalRunIs(s, h, a);
  }

  /** After the `@`, the domain run takes the domain, the dot and the top-level domain, and stops at `e`. */
  lemma DomainPartIs(s: string, a: nat, dot: nat, e: nat)
    requires a < dot < e <= |s| && AllDomainChars(s[a + 1..dot]) && s[dot] == '.'
    requires AllLetters(s[dot + 1..e]) && (e == |s| || !IsDomainChar(s[e]))
    ensures DomainEnd(s, a + 1) == e
  {
    forall j | a + 1 <= j < e ensures IsDomainChar(s[j]) {
      if j < dot {
        assert s[j] == s[a + 1..dot][j - a - 1];
      } else if j > dot {
        assert s[j] == s[dot + 1..e][j - dot - 1];
      }
    }
    DomainRunIs(s, a + 1, e);
  }

  /** The top-level domain `s[dot + 1..e]` is taken whole, and `\b` holds after it. */
  lemma TldPartIs(s: string, dot: nat, e: nat)
    requires dot + 3 <= e <= |s| && AllLetters(s[dot + 1..e])
    requires e == |s| || (!IsWordChar(s[e]) && !IsTldChar(s[e]))
    ensures forall j :: dot < j < e ==> s[j] != '.'
    ensures LastBoundary(s, dot + 3, TldEnd(s, dot + 1)) == Some(e)
  {
    forall j | dot < j < e ensures IsTldChar(s[j]) && s[j] != '.' {
      assert s[j] == s[dot + 1..e][j - dot - 1];
    }
    TldRunIs(s, dot + 1, e);
    assert IsAsciiLetter(s[e - 1]) by {
      assert s[e - 1] == s[dot + 1..e][e - dot - 2];
    }
    assert WordBoundary(s, e);
  }

  /** After the `@` at `a`, the domain run and the search over its dots end the match at `e`. */
  lemma AfterAtIs(s: string, a: nat, dot: nat, e: nat)
    requires a + 1 < dot && dot + 3 <= e <= |s|
    requires AllDomainChars(s[a + 1..dot]) && s[dot] == '.' && AllLetters(s[dot + 1..e])
    requires e == |s| || (!IsWordChar(s[e]) && !IsDomainChar(s[e]) && !IsTldChar(s[e]))
    ensures DomainEnd(s, a + 1) == e
    ensures DotSearch(s, a + 2, e - 1) == Some(e)
  {
    DomainPartIs(s, a, dot, e);
    TldPartIs(s, dot, e);
    DotSearchFindsLastDot(s, a + 2, e - 1, dot);
  }

  /** The e-mail pattern matches `s[h..e]`: user part, `@`, domain, last dot, top-level domain. */
  lemma EmailFound(s: string, h: nat, a: nat, dot: nat, e: nat)
    requires h < a && a + 1 < dot && dot + 3 <= e <= |s|
    requires IsAsciiLetter(s[h]) || IsDigit(s[h])
    requires h == 0 || !IsWordChar(s[h - 1])
    requires AllLocalChars(s[h..a]) && s[a] == '@'
    requires AllDomainChars(s[a + 1..dot]) && s[dot] == '.' && AllLetters(s[dot + 1..e])
    requires e == |s| || (!IsWordChar(s[e]) && !IsDomainChar(s[e]) && !IsTldChar(s[e]))
    ensures EmailAt(s, h) == Some(Match(e, []))
  {
    LocalPartIs(s, h, a);
    AfterAtIs(s, a, dot, e);
    assert WordBoundary(s, h);
  }

  /** Where `"@" + domain + "."` stands in `s`, the `@`, the domain and the dot are at their places. */
  lemma AtDomainDot(s: string, a: nat, domain: string, dot: nat)
    requires dot == a + 1 + |domain| < |s| && s[a..dot + 1] == "@" + domain + "."
    ensures s[a] == '@' && s[dot] == '.' && s[a + 1..dot] == domain
  {
    var mid := "@" + domain + ".";
    assert mid == ['@'] + domain + ['.'];
    assert s[a] == mid[0] && s[dot] == mid[1 + |domain|];
    forall k | 0 <= k < |domain| ensures s[a + 1..dot][k] == domain[k] {
      assert s[a + 1 + k] == s[a..dot + 1][1 + k] == mid[1 + k];
    }
  }

  /** An address `s[h..e]` between text without `@` is the only match, and exactly it goes. */
  lemma EmailOnlyAt(s: string, h: nat, a: nat, dot: nat, e: nat)
    requires h < a && a + 1 < dot && dot + 3 <= e <= |s|
    requires IsAsciiLetter(s[h]) || IsDigit(s[h])
    requires h == 0 || (!IsWordChar(s[h - 1]) && !IsLocalChar(s[h - 1]))
    requires AllLocalChars(s[h..a]) && s[a] == '@'
    requires AllDomainChars(s[a + 1..dot]) && s[dot] == '.' && AllLetters(s[dot + 1..e])
    requires e == |s| || (!IsWordChar(s[e]) && !IsDomainChar(s[e]) && !IsTldChar(s[e]))
    requires '@' !in s[..h] && '@' !in s[e..]
    ensures RemoveEmails(s) == s[..h] + s[e..]
  {
    EmailFound(s, h, a, dot, e);
    NoEmailBefore(s, h);
    NoEmailFrom(s, e);
    PatternsWellFormed(s);
    SubSingleMatch(EmailAt, s, h);
    assert s[..h] + [] == s[..h];
  }

  /**
   * An address `local@domain.tld` inside a text is deleted whole and the
   * text around it is kept.  The user part starts with a letter or digit
   * (so `\b` holds before it), the top-level domain is at least two letters,
   * and dots inside the domain are passed over, because the last dot is
   * tried first.  The text before the address must not end in a character
   * of the user part, nor the text after it begin with one the domain or the
   * top-level domain could take, or the address would be read as longer.
   */
  lemma EmailVanishes(x: string, local: string, domain: string, tld: string, y: string)
    requires x == [] || (!IsWordChar(x[|x| - 1]) && !IsLocalChar(x[|x| - 1]))
    requires local != [] && (IsAsciiLetter(local[0]) || IsDigit(local[0])) && AllLocalChars(local)
    requires domain != [] && AllDomainChars(domain)
    requires |tld| >= 2 && AllLetters(tld)
    requires y == [] || (!IsWordChar(y[0]) && !IsDomainChar(y[0]) && !IsTldChar(y[0]))
    requires '@' !in x && '@' !in y
    ensures RemoveEmails(x + local + ("@" + domain + ".") + tld + y) == x + y
  {
    var mid := "@" + domain + ".";
    var s := x + local + mid + tld + y;
    var h := |x|;
    var a := h + |local|;
    var dot := a + 1 + |domain|;
    var e := dot + 1 + |tld|;
    FivePieces(x, local, mid, tld, y);
    assert s[h] == local[0];
    AtDomainDot(s, a, domain, dot);
    assert x != [] ==> s[h - 1] == x[h - 1];
    assert y != [] ==> s[e] == y[0];
    EmailOnlyAt(s, h, a, dot, e);
  }

  /** The backward search over dots settles on the last dot that admits a top-level domain. */
  lemma {:induction false} DotSearchFindsLastDot(s: string, lo: nat, k: nat, dot: nat)
    requires lo <= dot <= k < |s|
    requires s[dot] == '.' && forall j :: dot < j <= k ==> s[j] != '.'
    requires LastBoundary(s, dot + 3, TldEnd(s, dot + 1)).Some?
    ensures DotSearch(s, lo, k) == LastBoundary(s, dot + 3, TldEnd(s, dot + 1))
    decreases k
  {
    if k > dot {
      DotSearchFindsLastDot(s, lo, k - 1, dot);
    }
  }

  /** Everything from `$` to `_` counts as a URL character, so closing brackets and punctuation go with the URL. */
  lemma UrlTakesTrailingPunctuation()
    ensures RemoveUrls("<http://a.fr>.") == "<"
  {
    var s := "<http://a.fr>.";
    PatternsWellFormed(s);
    assert !OccursAt(s, 0, "http://") && !OccursAt(s, 0, "https://") by {
      assert s[0..7][0] == s[0] == '<' && s[0..8][0] == s[0];
    }
    assert !OccursAt(s, 1, "https://") by {
      assert s[1..9][4] == s[5] == ':' && "https://"[4] == 's';
    }
    assert OccursAt(s, 1, "http://") by {
      assert forall j :: 0 <= j < 7 ==> s[1 + j] == "http://"[j];
    }
    assert UrlRunEnd(s, 8) == 14 by {
      assert forall j :: 8 <= j < 14 ==> IsUrlChar(s[j]);
      UrlRunIs(s, 8, 14);
    }
    assert UrlAt(s, 1) == Some(Match(14, []));
    assert SubFrom(UrlAt, s, 0) == "<" + SubFrom(UrlAt, s, 1);
  }

  /** The bar written inside `[A-Z|a-z]` is literal, so a "top-level domain" may contain `|`. */
  lemma EmailTldAdmitsBar()
    ensures RemoveEmails("a@b.c|d") == []
  {
    var s := "a@b.c|d";
    PatternsWellFormed(s);
    assert LocalEnd(s, 0) == 1;
    assert DomainEnd(s, 2) == 5;
    assert TldEnd(s, 4) == 7;
    assert LastBoundary(s, 6, 7) == Some(7);
    assert DotSearch(s, 3, 4) == Some(7);
    assert EmailAt(s, 0) == Some(Match(7, []));
  }
}
