/** The per-feature helpers of `app.py`: character counts, the alphanumeric
    ratio, the keyword filter, the scheme normalisation, the port rule and the
    subdomain label count. Every function here is total over strings.

    `urllib.parse.urlparse` is foreign code: the model receives its result as a
    `ParsedUrl` record (or the exception it raised) through a function-typed
    parameter `urlparse`.
 */
module UrlFeatures {
  import opened Wrappers
  import opened Text

  /** The characters counted by `count_special_char` (app.py line 13). */
  const SPECIAL_CHARS: string := "!@#$%^&*()_+-="

  /** The suspicious keywords looked for by `is_filter` (app.py line 14). */
  const FILTER_WORDS: seq<string> :=
    ["login", "secure", "update", "account", "bank", "confirm", "signin",
     "submit", "webscr", "ebayisapi", "cmd"]

  /** The scheme separator whose absence triggers normalisation. */
  const SCHEME_SEP: string := "://"

  /** The prefix added to a URL without a scheme separator. */
  const DEFAULT_PREFIX: string := "http://"

  predicate IsSpecial(c: char) {
    c in SPECIAL_CHARS
  }

  predicate IsDot(c: char) {
    c == '.'
  }

  predicate IsSlash(c: char) {
    c == '/'
  }

  // ---------------------------------------------------------------------------
  // Character counts
  // ---------------------------------------------------------------------------

  /** `count_special_char`: characters of the URL drawn from `SPECIAL_CHARS`. */
  function CountSpecialChar(url: string): (r: nat)
    ensures r <= |url|
  {
    CountIf(url, IsSpecial)
  }

  /** `count_url_dots`: Python's `url.count('.')`. */
  function CountUrlDots(url: string): (r: nat)
    ensures r <= |url|
  {
    CountIf(url, IsDot)
  }

  /** `count_file_path`: Python's `url.count('/')`, which counts every slash,
      the two of the scheme separator included. */
  function CountFilePath(url: string): (r: nat)
    ensures r <= |url|
  {
    CountIf(url, IsSlash)
  }

  /** The three character counts are additive over concatenation. */
  lemma CharCountsAdditive(a: string, b: string)
    ensures CountSpecialChar(a + b) == CountSpecialChar(a) + CountSpecialChar(b)
    ensures CountUrlDots(a + b) == CountUrlDots(a) + CountUrlDots(b)
    ensures CountFilePath(a + b) == CountFilePath(a) + CountFilePath(b)
  {
    CountIfAppend(a, b, IsSpecial);
    CountIfAppend(a, b, IsDot);
    CountIfAppend(a, b, IsSlash);
  }

  /** Each count equals the multiplicity of the counted characters in the
      URL's multiset of characters, so it ignores their positions. */
  lemma CharCountsAreMultiplicities(url: string)
    ensures CountUrlDots(url) == multiset(url)['.']
    ensures CountFilePath(url) == multiset(url)['/']
    ensures CountSpecialChar(url) == Occurrences(multiset(url), SPECIAL_CHARS)
  {
    CountIfMultiset(url, IsDot, ".");
    CountIfMultiset(url, IsSlash, "/");
    assert NoDup(SPECIAL_CHARS);
    CountIfMultiset(url, IsSpecial, SPECIAL_CHARS);
  }

  /** `count_file_path` counts the two slashes of the scheme separator on top
      of those before and after it, so `"http://a/b/c"` gives 4. */
  lemma FilePathCountsSchemeSlashes(scheme: string, rest: string)
    ensures CountFilePath(scheme + SCHEME_SEP + rest) == CountFilePath(scheme) + 2 + CountFilePath(rest)
  {
    CountIfAppend(scheme, SCHEME_SEP, IsSlash);
    CountIfAppend(scheme + SCHEME_SEP, rest, IsSlash);
    CountIfMultiset(SCHEME_SEP, IsSlash, "/");
  }

  // ---------------------------------------------------------------------------
  // Alphanumeric ratio
  // ---------------------------------------------------------------------------

  /** `ratio_alpha_numeric`: the share of alphanumeric characters, 0 for the
      empty URL (no division happens then). */
  function RatioAlphaNumeric(url: string): (r: real)
    ensures 0.0 <= r <= 1.0
    ensures |url| == 0 ==> r == 0.0
  {
    if |url| > 0 then (CountIf(url, IsAlnum) as real) / (|url| as real) else 0.0
  }

  /** The ratio is exactly 1 when the URL is non-empty and entirely
      alphanumeric, and only then. */
  lemma RatioOneIffAllAlnum(url: string)
    ensures RatioAlphaNumeric(url) == 1.0 <==> |url| > 0 && forall i :: 0 <= i < |url| ==> IsAlnum(url[i])
  {
    CountIfAll(url, IsAlnum);
    if |url| > 0 {
      var k := CountIf(url, IsAlnum) as real;
      var n := |url| as real;
      assert k / n == 1.0 <==> k == n;
    }
  }

  // ---------------------------------------------------------------------------
  // Keyword filter
  // ---------------------------------------------------------------------------

  /** Python's `any(word in hay for word in words)`. */
  function AnyOccurs(words: seq<string>, hay: string): (r: bool)
    ensures r <==> exists k :: 0 <= k < |words| && Occurs(words[k], hay)
  {
    if |words| == 0 then false
    else Occurs(words[0], hay) || AnyOccurs(words[1..], hay)
  }

  /** `is_filter`: 1 when a keyword occurs in the lower-cased URL, else 0. */
  function IsFilter(url: string): (r: nat)
    ensures r <= 1
    ensures r == 1 <==> exists k :: 0 <= k < |FILTER_WORDS| && Occurs(FILTER_WORDS[k], Lower(url))
  {
    if AnyOccurs(FILTER_WORDS, Lower(url)) then 1 else 0
  }

  /** The empty URL holds no keyword. */
  lemma EmptyUrlNotFiltered()
    ensures IsFilter("") == 0
  {
    forall k | 0 <= k < |FILTER_WORDS| ensures !Occurs(FILTER_WORDS[k], Lower("")) {
      assert |FILTER_WORDS[k]| > 0;
    }
  }

  /** Two URLs that differ only in the case of their letters are filtered alike. */
  lemma IsFilterIgnoresCase(a: string, b: string)
    requires |a| == |b|
    requires forall i :: 0 <= i < |a| ==> LowerChar(a[i]) == LowerChar(b[i])
    ensures IsFilter(a) == IsFilter(b)
  {
    assert Lower(a) == Lower(b);
  }

  /** Lower-casing the URL first does not change the filter. */
  lemma IsFilterOfLower(url: string)
    ensures IsFilter(Lower(url)) == IsFilter(url)
  {
    LowerIdempotent(url);
  }

  /** Once a URL is flagged, any text written before or after it stays flagged. */
  lemma IsFilterMonotone(pre: string, url: string, post: string)
    requires IsFilter(url) == 1
    ensures IsFilter(pre + url + post) == 1
  {
    var k :| 0 <= k < |FILTER_WORDS| && Occurs(FILTER_WORDS[k], Lower(url));
    LowerAppend(pre, url);
    LowerAppend(pre + url, post);
    OccursInContext(FILTER_WORDS[k], Lower(pre), Lower(url), Lower(post));
  }

  // ---------------------------------------------------------------------------
  // Scheme normalisation
  // ---------------------------------------------------------------------------

  /** The `"://"` normalisation applied before URL parsing (app.py lines 20-21
      and 62): a URL without the separator gets `"http://"` in front. The
      result always holds the separator and ends with the original URL. */
  function Normalize(url: string): (r: string)
    ensures Occurs(SCHEME_SEP, r)
    ensures |r| == |url| || |r| == |url| + |DEFAULT_PREFIX|
    ensures r[|r| - |url|..] == url
  {
    if Occurs(SCHEME_SEP, url) then url
    else
      var r := DEFAULT_PREFIX + url;
      assert r[4..7] == SCHEME_SEP;
      assert OccursAt(SCHEME_SEP, r, 4);
      OccursIff(SCHEME_SEP, r);
      r
  }

  /** A URL that already holds the separator is left as it is. */
  lemma NormalizeKeepsSchemed(url: string)
    requires Occurs(SCHEME_SEP, url)
    ensures Normalize(url) == url
  {
  }

  /** A URL without the separator gets exactly `"http://"` in front. */
  lemma NormalizePrefixes(url: string)
    requires !Occurs(SCHEME_SEP, url)
    ensures Normalize(url) == DEFAULT_PREFIX + url
    ensures |Normalize(url)| == |url| + 7
  {
  }

  /** Normalising twice is normalising once. */
  lemma NormalizeIdempotent(url: string)
    ensures Normalize(Normalize(url)) == Normalize(url)
  {
  }

  // ---------------------------------------------------------------------------
  // Port and query (over the URL parser's result)
  // ---------------------------------------------------------------------------

  /** A port number as `urllib.parse` returns it: reading `.port` raises for
      anything outside 0..65535. */
  type PortNumber = x: int | 0 <= x <= 65535

  /** What reading `.port` of a parse result gives: no port, a number, or an
      exception (a non-numeric or out-of-range port). */
  datatype PortField = NoPort | Port(number: PortNumber) | BadPort

  /** The parts of `urllib.parse.urlparse`'s result the extractor reads. */
  datatype ParsedUrl = ParsedUrl(scheme: string, port: PortField, query: string)

  /** The port rule of `num_port_cal` on a parse result: a truthy explicit port
      wins; otherwise 443 for the `https` scheme and 80 for every other scheme.
      An explicit port 0 is falsy in Python and so counts as absent. */
  function ResolvePort(p: ParsedUrl): (r: Result<int>)
    ensures r.Raised? <==> p.port.BadPort?
    ensures r.Raised? ==> r.error == PortRejected
    ensures p.port.Port? && p.port.number != 0 ==> r == Ok(p.port.number)
    ensures p.port == NoPort || p.port == Port(0) ==>
              (r == Ok(443) <==> p.scheme == "https") && (r == Ok(80) <==> p.scheme != "https")
    ensures r.Ok? ==> 1 <= r.value <= 65535
  {
    match p.port
    case BadPort => Raised(PortRejected)
    case Port(n) =>
      if n != 0 then Ok(n)
      else if p.scheme == "https" then Ok(443) else Ok(80)
    case NoPort =>
      if p.scheme == "https" then Ok(443) else Ok(80)
  }

  /** `num_port_cal`: parse the normalised URL, then apply the port rule. It
      raises exactly when the parser raises or reading the port raises. */
  function NumPortCal(url: string, urlparse: string -> Result<ParsedUrl>): (r: Result<int>)
    ensures r.Raised? <==> urlparse(Normalize(url)).Raised? || urlparse(Normalize(url)).value.port.BadPort?
    ensures r.Ok? ==> 1 <= r.value <= 65535
    ensures r.Ok? ==> ResolvePort(urlparse(Normalize(url)).value) == r
  {
    var p :- urlparse(Normalize(url));
    ResolvePort(p)
  }

  /** The `len_query` feature: the length of the query of the normalised URL.
      Only the parser itself can make it raise. */
  function LenQuery(url: string, urlparse: string -> Result<ParsedUrl>): (r: Result<nat>)
    ensures r.Raised? <==> urlparse(Normalize(url)).Raised?
    ensures r.Ok? ==> r.value == |urlparse(Normalize(url)).value.query|
  {
    var p :- urlparse(Normalize(url));
    Ok(|p.query|)
  }

  /** Whenever the port is read successfully, the query is too: both parse the
      same normalised string. */
  lemma PortImpliesQuery(url: string, urlparse: string -> Result<ParsedUrl>)
    ensures NumPortCal(url, urlparse).Ok? ==> LenQuery(url, urlparse).Ok?
  {
  }

  // ---------------------------------------------------------------------------
  // Subdomain labels
  // ---------------------------------------------------------------------------

  /** Python's `s.split('.')`: the dot-free pieces between dots, always at
      least one. */
  function Labels(s: string): (r: seq<string>)
    ensures |r| == CountUrlDots(s) + 1
    ensures forall k :: 0 <= k < |r| ==> CountUrlDots(r[k]) == 0
  {
    if |s| == 0 then [""]
    else
      var rest := Labels(s[1..]);
      if s[0] == '.' then [""] + rest
      else [[s[0]] + rest[0]] + rest[1..]
  }

  /** Python's `'.'.join(labels)`. */
  function JoinLabels(labels: seq<string>): string
    requires |labels| >= 1
  {
    if |labels| == 1 then labels[0] else labels[0] + "." + JoinLabels(labels[1..])
  }

  /** Splitting at dots and joining with dots gives the string back. */
  lemma {:induction false} LabelsRoundTrip(s: string)
    ensures JoinLabels(Labels(s)) == s
  {
    if |s| > 0 {
      var rest := Labels(s[1..]);
      LabelsRoundTrip(s[1..]);
      if s[0] == '.' {
        assert Labels(s)[1..] == rest;
        assert s == "" + "." + s[1..];
      } else if |rest| == 1 {
        assert Labels(s) == [[s[0]] + rest[0]];
        assert s == [s[0]] + s[1..];
      } else {
        assert Labels(s)[1..] == rest[1..];
        assert JoinLabels(rest) == rest[0] + "." + JoinLabels(rest[1..]);
        assert s == [s[0]] + s[1..];
      }
    }
  }

  /** The `count_sub_domain` feature (app.py line 63): the number of dots
      plus one for a non-empty subdomain, 0 for an empty one. */
  function CountSubDomain(subdomain: string): (r: nat)
    ensures r == 0 <==> |subdomain| == 0
    ensures |subdomain| > 0 ==> r == |Labels(subdomain)| && r >= 1
  {
    if |subdomain| > 0 then CountUrlDots(subdomain) + 1 else 0
  }
}
