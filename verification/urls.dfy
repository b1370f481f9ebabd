/** The URL scanner and the per-URL features of the rule engine:
    `extract_urls`, a `re.findall` of `https?://[^\s)>\]"\']+` under
    `re.IGNORECASE`, and `url_features`, five flags and a domain per URL.
    The public-suffix splitter `tldextract.extract` is a parameter. */
module Urls {
  import opened Strings

  datatype Option<T> = None | Some(value: T)

  // ---------------------------------------------------------------------
  // Character classes
  // ---------------------------------------------------------------------

  /** `\s` in a str pattern: exactly the characters `str.isspace()` accepts. */
  predicate IsSpace(c: char)
  {
    || c == ' '
    || ('\t' <= c <= '\r')
    || ('\U{1C}' <= c <= '\U{1F}')
    || c == '\U{85}' || c == '\U{A0}' || c == '\U{1680}'
    || ('\U{2000}' <= c <= '\U{200A}')
    || c == '\U{2028}' || c == '\U{2029}' || c == '\U{202F}'
    || c == '\U{205F}' || c == '\U{3000}'
  }

  /** The class `[^\s)>\]"\']`: a character that can continue a URL. */
  predicate IsUrlChar(c: char)
  {
    !IsSpace(c) && c != ')' && c != '>' && c != ']' && c != '"' && c != '\''
  }

  /** A pattern character `l` matched under `re.IGNORECASE`: a small ASCII
      letter also matches its capital, and 's' also matches LATIN SMALL
      LETTER LONG S, which case-folds to 's'. Other characters match only
      themselves. */
  predicate FoldMatch(c: char, l: char)
  {
    || c == l
    || ('a' <= l <= 'z' && c as int == l as int - 32)
    || (l == 's' && c == '\U{017F}')
  }

  /** `s` matches the literal `pat` character by character under
      `re.IGNORECASE`. */
  predicate FoldsTo(s: string, pat: string)
  {
    |s| == |pat| && forall k :: 0 <= k < |s| ==> FoldMatch(s[k], pat[k])
  }

  /** `s` is a whole scheme part `https?://`, case-insensitively. */
  predicate SchemeText(s: string)
  {
    FoldsTo(s, "http://") || FoldsTo(s, "https://")
  }

  // ---------------------------------------------------------------------
  // The regular expression, as a reference and as a scanner
  // ---------------------------------------------------------------------

  /** Reference meaning of one `re.findall` match starting at `i` and ending
      at `e`, with a scheme part of length `len`: the scheme, at least one
      URL character, and the greedy `+` stopping only at a delimiter or at
      the end of the text. */
  predicate MatchWith(text: string, i: int, len: int, e: int)
  {
    && 0 <= i && 0 <= len && i + len < e <= |text|
    && SchemeText(text[i..i + len])
    && (forall k :: i + len <= k < e ==> IsUrlChar(text[k]))
    && (e == |text| || !IsUrlChar(text[e]))
  }

  predicate IsMatch(text: string, i: int, e: int)
  {
    MatchWith(text, i, 7, e) || MatchWith(text, i, 8, e)
  }

  /** No match of the pattern starts at `p`. */
  ghost predicate NoMatchAt(text: string, p: int)
  {
    forall e :: !IsMatch(text, p, e)
  }

  /** Length of the scheme part at `i`, or 0 when there is none. The `s?`
      is tried first; when it is taken the other branch cannot match, since
      it would need ':' where an 's' stands. */
  function SchemeLength(text: string, i: nat): (n: nat)
    ensures n == 0 || n == 7 || n == 8
    ensures n > 0 ==> i + n <= |text| && SchemeText(text[i..i + n])
  {
    if i + 4 <= |text| && FoldMatch(text[i], 'h') && FoldMatch(text[i + 1], 't')
       && FoldMatch(text[i + 2], 't') && FoldMatch(text[i + 3], 'p') then
      if i + 8 <= |text| && FoldMatch(text[i + 4], 's') && text[i + 5..i + 8] == "://" then
        assert FoldsTo(text[i..i + 8], "https://");
        8
      else if i + 7 <= |text| && text[i + 4..i + 7] == "://" then
        assert FoldsTo(text[i..i + 7], "http://");
        7
      else 0
    else 0
  }

  /** End of the greedy run of URL characters that starts at `j`. */
  function RunEnd(text: string, j: nat): (e: nat)
    requires j <= |text|
    ensures j <= e <= |text|
    ensures forall k :: j <= k < e ==> IsUrlChar(text[k])
    ensures e == |text| || !IsUrlChar(text[e])
    decreases |text| - j
  {
    if j < |text| && IsUrlChar(text[j]) then RunEnd(text, j + 1) else j
  }

  lemma RunEndUnique(text: string, j: nat, e: int)
    requires j <= e <= |text|
    requires forall k :: j <= k < e ==> IsUrlChar(text[k])
    requires e == |text| || !IsUrlChar(text[e])
    ensures RunEnd(text, j) == e
  {
  }

  /** The match of the pattern at `i`, as its end index: it is exactly the
      regular expression's match there, in both directions, and `None`
      when no match starts at `i`. */
  function MatchAt(text: string, i: nat): (r: Option<nat>)
    ensures forall e :: r == Some(e) <==> IsMatch(text, i, e)
  {
    var n := SchemeLength(text, i);
    var r := if n > 0 && i + n < |text| && IsUrlChar(text[i + n]) then Some(RunEnd(text, i + n)) else None;
    forall e | IsMatch(text, i, e) ensures r == Some(e) {
      var len := if MatchWith(text, i, 7, e) then 7 else 8;
      assert MatchWith(text, i, len, e);
      var s := text[i..i + len];
      assert FoldMatch(s[0], 'h') && FoldMatch(s[1], 't') && FoldMatch(s[2], 't') && FoldMatch(s[3], 'p');
      if len == 7 {
        assert !FoldsTo(s, "https://");
        assert s[4] == ':' && s[5] == '/' && s[6] == '/';
        assert !FoldMatch(text[i + 4], 's');
        assert text[i + 4..i + 7] == "://";
      } else {
        assert !FoldsTo(s, "http://");
        assert FoldMatch(s[4], 's') && s[5] == ':' && s[6] == '/' && s[7] == '/';
        assert text[i + 5..i + 8] == "://";
      }
      assert n == len;
      RunEndUnique(text, i + len, e);
    }
    r
  }

  // ---------------------------------------------------------------------
  // findall: left-to-right, non-overlapping
  // ---------------------------------------------------------------------

  datatype Span = Span(start: nat, end: nat)

  predicate Covered(spans: seq<Span>, p: int)
  {
    exists k :: 0 <= k < |spans| && spans[k].start <= p < spans[k].end
  }

  /** The spans `re.findall` reports when it resumes scanning at `i`: each
      is a match of the pattern, they come in order without overlapping,
      and no match starts at a position outside all of them. */
  function ScanFrom(text: string, i: nat): (spans: seq<Span>)
    requires i <= |text|
    ensures ScanInvariant(text, i, spans)
    decreases |text| - i
  {
    if i == |text| then []
    else
      match MatchAt(text, i)
      case Some(e) =>
        var rest := ScanFrom(text, e);
        ScanMatched(text, i, e, rest);
        [Span(i, e)] + rest
      case None =>
        ScanFrom(text, i + 1)
  }

  /** What `re.findall` promises about the spans it reports when scanning
      from `i`: each is a match of the pattern, they come in order without
      overlapping, and no match starts at a position outside all of them. */
  ghost predicate ScanInvariant(text: string, i: nat, spans: seq<Span>)
  {
    && (forall k :: 0 <= k < |spans| ==>
          i <= spans[k].start && IsMatch(text, spans[k].start, spans[k].end))
    && (forall k :: 0 < k < |spans| ==> spans[k - 1].end <= spans[k].start)
    && (forall p :: i <= p < |text| && !Covered(spans, p) ==> NoMatchAt(text, p))
  }

  /** A match at `i` ending at `e`, followed by a correct scan from `e`, is a
      correct scan from `i`. */
  lemma ScanMatched(text: string, i: nat, e: nat, rest: seq<Span>)
    requires IsMatch(text, i, e)
    requires e <= |text| && ScanInvariant(text, e, rest)
    ensures ScanInvariant(text, i, [Span(i, e)] + rest)
  {
    var spans := [Span(i, e)] + rest;
    forall p | i <= p < |text|
      ensures Covered(spans, p) || NoMatchAt(text, p)
    {
      if p < e {
        assert spans[0].start <= p < spans[0].end;
      } else if Covered(rest, p) {
        var k :| 0 <= k < |rest| && rest[k].start <= p < rest[k].end;
        assert spans[k + 1] == rest[k];
      }
    }
    forall k | 0 < k < |spans|
      ensures spans[k - 1].end <= spans[k].start
    {
      if k > 1 {
        assert spans[k - 1] == rest[k - 2] && spans[k] == rest[k - 1];
      }
    }
  }

  /** `extract_urls(text)`: the texts of the spans `re.findall` reports,
      so matches of the pattern, left to right and without overlap, with
      no match starting outside them. Each starts with a scheme part, has
      at least one character after it, and contains no whitespace, ')',
      '>', ']', '"' or '\''. */
  function ExtractUrls(text: string): (urls: seq<string>)
    ensures exists spans: seq<Span> ::
              && ScanInvariant(text, 0, spans) && |spans| == |urls|
              && forall k :: 0 <= k < |urls| ==> urls[k] == text[spans[k].start..spans[k].end]
    ensures forall k :: 0 <= k < |urls| ==> UrlShaped(urls[k])
    ensures forall k, j :: 0 <= k < |urls| && 0 <= j < |urls[k]| ==> IsUrlChar(urls[k][j])
  {
    var spans := ScanFrom(text, 0);
    var urls := seq(|spans|, k requires 0 <= k < |spans| => text[spans[k].start..spans[k].end]);
    forall k | 0 <= k < |urls|
      ensures UrlShaped(urls[k]) && forall j :: 0 <= j < |urls[k]| ==> IsUrlChar(urls[k][j])
    {
      MatchShape(text, spans[k]);
    }
    urls
  }

  /** The text of a match of the pattern is URL-shaped and made of URL
      characters only. */
  lemma MatchShape(text: string, sp: Span)
    requires IsMatch(text, sp.start, sp.end)
    ensures var u := text[sp.start..sp.end];
            && UrlShaped(u)
            && forall j :: 0 <= j < |u| ==> IsUrlChar(u[j])
  {
    var u := text[sp.start..sp.end];
    var len := if MatchWith(text, sp.start, 7, sp.end) then 7 else 8;
    assert u[..len] == text[sp.start..sp.start + len];
    forall j | 0 <= j < len ensures IsUrlChar(u[j]) {
      assert FoldMatch(u[j], if len == 7 then "http://"[j] else "https://"[j]);
    }
  }

  /** A scheme part followed by at least one more character. */
  predicate UrlShaped(u: string)
  {
    (|u| > 7 && SchemeText(u[..7])) || (|u| > 8 && SchemeText(u[..8]))
  }

  /** The URLs are the texts of the scanned spans, in order. */
  lemma ExtractUrlsAreSpans(text: string)
    ensures var spans := ScanFrom(text, 0);
            var urls := ExtractUrls(text);
            && |urls| == |spans|
            && (forall k :: 0 <= k < |urls| ==> urls[k] == text[spans[k].start..spans[k].end])
  {
  }

  /** The scan moves past positions where no match starts. */
  lemma {:induction false} ScanSkip(text: string, i: nat, j: nat)
    requires i <= j <= |text|
    requires forall p :: i <= p < j ==> MatchAt(text, p) == None
    ensures ScanFrom(text, i) == ScanFrom(text, j)
    decreases j - i
  {
    if i < j {
      ScanSkip(text, i + 1, j);
    }
  }

  /** A match can start only at an 'h' or an 'H': none starts inside a
      stretch of the text free of both. */
  lemma NoSchemeNoMatch(text: string, i: nat, mid: string)
    requires i + |mid| <= |text| && text[i..i + |mid|] == mid
    requires 'h' !in mid && 'H' !in mid
    ensures forall p :: i <= p < i + |mid| ==> MatchAt(text, p) == None
  {
    forall p | i <= p < i + |mid| ensures MatchAt(text, p) == None {
      assert text[p] == mid[p - i];
    }
  }

  // ---------------------------------------------------------------------
  // url_features
  // ---------------------------------------------------------------------

  /** What `tldextract.extract(url)` returns. */
  datatype Parts = Parts(subdomain: string, domain: string, suffix: string)

  /** `f"{ext.domain}.{ext.suffix}" if ext.suffix else ext.domain`. */
  function RegisteredDomain(p: Parts): string
  {
    if p.suffix != "" then p.domain + "." + p.suffix else p.domain
  }

  const Shorteners: set<string> :=
    {"bit.ly", "goo.gl", "t.co", "tinyurl.com", "ow.ly", "is.gd", "buff.ly"}

  const PathTokens: seq<string> := ["login", "verify", "update", "secure", "confirm"]

  datatype Features = Features(
    hasIp: bool,
    manySubs: bool,
    atSymbol: bool,
    suspiciousPath: bool,
    shortener: bool,
    domain: string)

  predicate IsDigit(c: char)
  {
    '0' <= c <= '9'
  }

  /** Length of the run of digits that starts at `p`. */
  function DigitRun(s: string, p: nat): (n: nat)
    ensures p + n <= |s| || n == 0
    ensures forall j :: p <= j < p + n ==> IsDigit(s[j])
    ensures p + n >= |s| || !IsDigit(s[p + n])
    decreases |s| - p
  {
    if p < |s| && IsDigit(s[p]) then 1 + DigitRun(s, p + 1) else 0
  }

  /** Scanner for `(\d{1,3}\.){groups}\d{1,3}` as a prefix match at `p`.
      `\d{1,3}\.` can only succeed on the whole digit run, since a digit
      never matches the dot; the final `\d{1,3}` needs one digit. */
  function DottedFrom(s: string, p: nat, groups: nat): bool
    decreases groups
  {
    var n := DigitRun(s, p);
    if groups == 0 then n >= 1
    else 1 <= n <= 3 && p + n < |s| && s[p + n] == '.' && DottedFrom(s, p + n + 1, groups - 1)
  }

  /** One `\d{1,3}\.` of exactly `n` digits at `p`. */
  predicate GroupAt(s: string, p: int, n: int)
  {
    && 0 <= p && 1 <= n <= 3 && p + n < |s|
    && (forall j :: p <= j < p + n ==> IsDigit(s[j]))
    && s[p + n] == '.'
  }

  /** Reference meaning of `(\d{1,3}\.){groups}\d{1,3}` matching a prefix of
      `s[p..]`, with the regex engine free to choose each group's width. */
  ghost predicate DottedSpec(s: string, p: nat, groups: nat)
    decreases groups
  {
    if groups == 0 then p < |s| && IsDigit(s[p])
    else exists n :: GroupAt(s, p, n) && DottedSpec(s, p + n + 1, groups - 1)
  }

  lemma {:induction false} DottedFromIffSpec(s: string, p: nat, groups: nat)
    ensures DottedFrom(s, p, groups) <==> DottedSpec(s, p, groups)
    decreases groups
  {
    var n := DigitRun(s, p);
    if groups > 0 {
      if DottedFrom(s, p, groups) {
        DottedFromIffSpec(s, p + n + 1, groups - 1);
        assert GroupAt(s, p, n);
      }
      if DottedSpec(s, p, groups) {
        var m :| GroupAt(s, p, m) && DottedSpec(s, p + m + 1, groups - 1);
        assert !IsDigit(s[p + m]);
        assert n == m;
        DottedFromIffSpec(s, p + m + 1, groups - 1);
      }
    }
  }

  /** `re.match(r'https?://(\d{1,3}\.){3}\d{1,3}', url)`: case-sensitive,
      and a prefix match only. */
  function HasIp(url: string): (b: bool)
    ensures b <==> IpPrefixSpec(url)
  {
    DottedFromIffSpec(url, 7, 3);
    DottedFromIffSpec(url, 8, 3);
    assert IsPrefix("https://", url) ==> url[4] == 's';
    if IsPrefix("https://", url) then DottedFrom(url, 8, 3)
    else IsPrefix("http://", url) && DottedFrom(url, 7, 3)
  }

  ghost predicate IpPrefixSpec(url: string)
  {
    || (IsPrefix("http://", url) && DottedSpec(url, 7, 3))
    || (IsPrefix("https://", url) && DottedSpec(url, 8, 3))
  }

  /** `len(sub.split(".")) >= 3 if sub else False`. */
  function ManySubdomains(sub: string): (b: bool)
    ensures b <==> Count(sub, '.') >= 2
  {
    if sub != "" then |Split(sub, '.')| >= 3 else false
  }

  /** `any(x in s for x in tokens)`. */
  function AnyContained(s: string, tokens: seq<string>): (b: bool)
    ensures b <==> exists t :: t in tokens && Contains(s, t)
  {
    if tokens == [] then false
    else if Contains(s, tokens[0]) then
      assert tokens[0] in tokens;
      true
    else
      var b := AnyContained(s, tokens[1..]);
      assert forall t :: t in tokens ==> t == tokens[0] || t in tokens[1..];
      assert forall t :: t in tokens[1..] ==> t in tokens;
      b
  }

  /** `url_features(url)`, with `tld` standing for `tldextract.extract`. */
  function UrlFeatures(tld: string -> Parts, url: string): (f: Features)
    ensures f.hasIp <==> IpPrefixSpec(url)
    ensures f.manySubs <==> Count(tld(url).subdomain, '.') >= 2
    ensures f.atSymbol <==> Count(url, '@') > 0
    ensures f.suspiciousPath <==> exists t :: t in PathTokens && Contains(Lower(url), t)
    ensures f.shortener <==> f.domain in Shorteners
    ensures f.domain == RegisteredDomain(tld(url))
  {
    CountPositive(url, '@');
    var ext := tld(url);
    var domain := RegisteredDomain(ext);
    Features(
      hasIp := HasIp(url),
      manySubs := ManySubdomains(ext.subdomain),
      atSymbol := '@' in url,
      suspiciousPath := AnyContained(Lower(url), PathTokens),
      shortener := domain in Shorteners,
      domain := domain)
  }

  /** Number of flags `url_features` raised. */
  function FlagCount(f: Features): nat
  {
    (if f.hasIp then 1 else 0) + (if f.manySubs then 1 else 0) + (if f.atSymbol then 1 else 0)
    + (if f.suspiciousPath then 1 else 0) + (if f.shortener then 1 else 0)
  }
}
