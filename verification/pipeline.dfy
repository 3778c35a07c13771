/** `feature_from_url` and the verdict of the request handler (app.py lines
    52-70 and 113-124).

    The foreign calls are parameters:
    - `extract`: `tldextract.extract(url, include_psl_private_domains=True)`,
      applied to the raw URL;
    - `urlparse`: `urllib.parse.urlparse`, applied to the normalised URL;
    - `log2`: `math.log2`;
    - `predict`: the classifier's label for one 14-entry row, or
      `Raised(PredictFailed)` when the classifier raises.
    Each may raise; the handler turns any exception into "no verdict".
 */
module Pipeline {
  import opened Wrappers
  import opened Text
  import opened UrlFeatures
  import opened Entropy

  /** The parts of `tldextract`'s result the extractor reads. */
  datatype Extraction = Extraction(subdomain: string, domain: string, suffix: string, isPrivate: bool)

  /** The feature dictionary built by `feature_from_url`, one field per key. */
  datatype Features = Features(
    lenUrl: nat,
    lenSubDomain: nat,
    lenRootDomain: nat,
    lenSuffix: nat,
    isPrivate: nat,
    countSpecialChar: nat,
    numPort: int,
    lenQuery: nat,
    countSubDomain: nat,
    isFilter: nat,
    ratioAlphaNumeric: real,
    countUrlDots: nat,
    valueEntropyUrl: real,
    countFilePath: nat)

  /** The dictionary's keys in insertion order; the classifier is positional,
      so this order is the whole contract with the trained model. */
  const FEATURE_NAMES: seq<string> :=
    ["len_url", "len_sub_domain", "len_root_domain", "len_suffix", "is_private",
     "count_special_char", "num_port", "len_query", "count_sub_domain", "is_filter",
     "ratio_alpha_numeric", "count_url_dots", "value_entropy_url", "count_file_path"]

  /** Keyed access `features[name]`, `None` for a key that is not present. */
  function Field(f: Features, name: string): Option<real> {
    if name == "len_url" then Some(f.lenUrl as real)
    else if name == "len_sub_domain" then Some(f.lenSubDomain as real)
    else if name == "len_root_domain" then Some(f.lenRootDomain as real)
    else if name == "len_suffix" then Some(f.lenSuffix as real)
    else if name == "is_private" then Some(f.isPrivate as real)
    else if name == "count_special_char" then Some(f.countSpecialChar as real)
    else if name == "num_port" then Some(f.numPort as real)
    else if name == "len_query" then Some(f.lenQuery as real)
    else if name == "count_sub_domain" then Some(f.countSubDomain as real)
    else if name == "is_filter" then Some(f.isFilter as real)
    else if name == "ratio_alpha_numeric" then Some(f.ratioAlphaNumeric)
    else if name == "count_url_dots" then Some(f.countUrlDots as real)
    else if name == "value_entropy_url" then Some(f.valueEntropyUrl)
    else if name == "count_file_path" then Some(f.countFilePath as real)
    else None
  }

  /** `list(features.values())`: the row handed to the classifier. Its i-th
      entry is the value stored under the i-th key. */
  function Values(f: Features): (v: seq<real>)
    ensures |v| == |FEATURE_NAMES| == 14
    ensures forall i :: 0 <= i < |v| ==> Field(f, FEATURE_NAMES[i]) == Some(v[i])
  {
    [f.lenUrl as real, f.lenSubDomain as real, f.lenRootDomain as real,
     f.lenSuffix as real, f.isPrivate as real, f.countSpecialChar as real,
     f.numPort as real, f.lenQuery as real, f.countSubDomain as real,
     f.isFilter as real, f.ratioAlphaNumeric, f.countUrlDots as real,
     f.valueEntropyUrl, f.countFilePath as real]
  }

  /** The value domains every feature vector respects for its URL. */
  predicate WellFormed(f: Features, url: string) {
    && f.lenUrl == |url|
    && f.isPrivate <= 1
    && f.countSpecialChar <= |url|
    && 1 <= f.numPort <= 65535
    && (f.countSubDomain == 0 <==> f.lenSubDomain == 0)
    && f.isFilter <= 1
    && 0.0 <= f.ratioAlphaNumeric <= 1.0
    && f.countUrlDots <= |url|
    && f.countFilePath <= |url|
    && (|url| == 0 ==> f.ratioAlphaNumeric == 0.0 && f.valueEntropyUrl == 0.0)
  }

  /** `feature_from_url`: the suffix extractor runs on the raw URL, the URL
      parser on the normalised one, every character feature on the raw URL.
      It raises exactly when the extractor, the parser or the port read
      raises, and otherwise yields a well-formed vector whose domain fields
      are the extractor's label lengths. */
  function FeatureFromUrl(
    url: string,
    extract: string -> Result<Extraction>,
    urlparse: string -> Result<ParsedUrl>,
    log2: real -> real
  ): (r: Result<Features>)
    ensures r.Raised? <==>
              || extract(url).Raised?
              || urlparse(Normalize(url)).Raised?
              || urlparse(Normalize(url)).value.port.BadPort?
    ensures extract(url).Raised? ==> r == Raised(extract(url).error)
    ensures r.Ok? ==> WellFormed(r.value, url)
    ensures r.Ok? ==>
              var e := extract(url).value;
              && r.value.lenSubDomain == |e.subdomain|
              && r.value.lenRootDomain == |e.domain|
              && r.value.lenSuffix == |e.suffix|
              && (r.value.isPrivate == 1 <==> e.isPrivate)
    ensures r.Ok? ==> r.value.lenQuery == |urlparse(Normalize(url)).value.query|
    ensures r.Ok? ==> r.value.valueEntropyUrl == EntropyOf(url, log2)
    ensures r.Ok? ==>
              && r.value.numPort == NumPortCal(url, urlparse).value
              && r.value.countSpecialChar == CountSpecialChar(url)
              && r.value.countSubDomain == CountSubDomain(extract(url).value.subdomain)
              && r.value.isFilter == IsFilter(url)
              && r.value.ratioAlphaNumeric == RatioAlphaNumeric(url)
              && r.value.countUrlDots == CountUrlDots(url)
              && r.value.countFilePath == CountFilePath(url)
  {
    var ext :- extract(url);
    var port :- NumPortCal(url, urlparse);
    // Once the port was read, the same parse cannot fail for the query.
    match LenQuery(url, urlparse)
    case Raised(e) => Raised(e)
    case Ok(query) => Ok(Features(
      lenUrl := |url|,
      lenSubDomain := |ext.subdomain|,
      lenRootDomain := |ext.domain|,
      lenSuffix := |ext.suffix|,
      isPrivate := if ext.isPrivate then 1 else 0,
      countSpecialChar := CountSpecialChar(url),
      numPort := port,
      lenQuery := query,
      countSubDomain := CountSubDomain(ext.subdomain),
      isFilter := IsFilter(url),
      ratioAlphaNumeric := RatioAlphaNumeric(url),
      countUrlDots := CountUrlDots(url),
      valueEntropyUrl := EntropyOf(url, log2),
      countFilePath := CountFilePath(url)))
  }

  /** The empty URL is not an error: when the collaborators return, it gets a
      vector with length, counts, ratio and entropy all 0. */
  lemma EmptyUrlHasFeatures(
    url: string,
    extract: string -> Result<Extraction>,
    urlparse: string -> Result<ParsedUrl>,
    log2: real -> real)
    requires url == ""
    requires extract(url).Ok?
    requires urlparse(DEFAULT_PREFIX).Ok? && !urlparse(DEFAULT_PREFIX).value.port.BadPort?
    ensures FeatureFromUrl(url, extract, urlparse, log2).Ok?
    ensures var f := FeatureFromUrl(url, extract, urlparse, log2).value;
            && f.lenUrl == 0 && f.countSpecialChar == 0 && f.isFilter == 0
            && f.ratioAlphaNumeric == 0.0 && f.countUrlDots == 0
            && f.valueEntropyUrl == 0.0 && f.countFilePath == 0
  {
    NormalizePrefixes(url);
    assert DEFAULT_PREFIX + url == DEFAULT_PREFIX;
    EmptyEntropy(log2);
    EmptyUrlNotFiltered();
  }

  /** The raw-string features ignore the order of the URL's characters: two
      rearrangements of one URL agree on length, special characters, dots,
      slashes and entropy. */
  lemma CharacterFeaturesIgnoreOrder(a: string, b: string, log2: real -> real)
    requires multiset(a) == multiset(b)
    ensures |a| == |b|
    ensures CountSpecialChar(a) == CountSpecialChar(b)
    ensures CountUrlDots(a) == CountUrlDots(b)
    ensures CountFilePath(a) == CountFilePath(b)
    ensures EntropyOf(a, log2) == EntropyOf(b, log2)
  {
    assert |a| == |multiset(a)| == |multiset(b)| == |b|;
    CharCountsAreMultiplicities(a);
    CharCountsAreMultiplicities(b);
    EntropyPermutationInvariant(a, b, log2);
  }

  /** Two rearrangements of one URL that both get a vector agree on every
      feature read from the raw characters alone: length, special characters,
      dots, slashes, entropy and the alphanumeric ratio. */
  lemma FeatureVectorIgnoresOrder(
    a: string,
    b: string,
    extract: string -> Result<Extraction>,
    urlparse: string -> Result<ParsedUrl>,
    log2: real -> real)
    requires multiset(a) == multiset(b)
    ensures var ra := FeatureFromUrl(a, extract, urlparse, log2);
            var rb := FeatureFromUrl(b, extract, urlparse, log2);
            ra.Ok? && rb.Ok? ==>
            var fa := ra.value;
            var fb := rb.value;
            && fa.lenUrl == fb.lenUrl
            && fa.countSpecialChar == fb.countSpecialChar
            && fa.countUrlDots == fb.countUrlDots
            && fa.countFilePath == fb.countFilePath
            && fa.valueEntropyUrl == fb.valueEntropyUrl
            && fa.ratioAlphaNumeric == fb.ratioAlphaNumeric
  {
    CharacterFeaturesIgnoreOrder(a, b, log2);
    CountIfPermutation(a, b, IsAlnum);
  }

  // ---------------------------------------------------------------------------
  // Verdict
  // ---------------------------------------------------------------------------

  /** What the page shows: a malicious or benign verdict, or nothing (`None`
      in `app.py`) when no verdict was computed. */
  datatype Verdict = Malicious | Benign | NoVerdict

  /** The `try` block of the request handler: build the features, hand their
      values in key order to the classifier, read the label as a boolean. Any
      exception along the way gives no verdict. */
  function Classify(
    url: string,
    extract: string -> Result<Extraction>,
    urlparse: string -> Result<ParsedUrl>,
    log2: real -> real,
    predict: seq<real> -> Result<int>
  ): (v: Verdict)
    ensures var f := FeatureFromUrl(url, extract, urlparse, log2);
            v == NoVerdict <==> f.Raised? || predict(Values(f.value)).Raised?
    ensures var f := FeatureFromUrl(url, extract, urlparse, log2);
            v == Malicious <==> f.Ok? && predict(Values(f.value)).Ok? && predict(Values(f.value)).value != 0
    ensures var f := FeatureFromUrl(url, extract, urlparse, log2);
            v == Benign <==> f.Ok? && predict(Values(f.value)) == Ok(0)
  {
    match FeatureFromUrl(url, extract, urlparse, log2)
    case Raised(_) => NoVerdict
    case Ok(features) =>
      match predict(Values(features))
      case Raised(_) => NoVerdict
      case Ok(pred) => if pred != 0 then Malicious else Benign
  }

  /** The classifier only ever sees a 14-entry row that starts with the URL's
      length and is well-formed for the URL. */
  lemma ClassifierInput(
    url: string,
    extract: string -> Result<Extraction>,
    urlparse: string -> Result<ParsedUrl>,
    log2: real -> real)
    requires FeatureFromUrl(url, extract, urlparse, log2).Ok?
    ensures var f := FeatureFromUrl(url, extract, urlparse, log2).value;
            && |Values(f)| == 14
            && Values(f)[0] == |url| as real
            && Values(f)[4] in {0.0, 1.0}
            && Values(f)[9] in {0.0, 1.0}
            && 0.0 <= Values(f)[10] <= 1.0
  {
    var f := FeatureFromUrl(url, extract, urlparse, log2).value;
    assert Field(f, FEATURE_NAMES[0]) == Some(Values(f)[0]);
  }

  /** The request handler's result: nothing for a GET; for a POST, the verdict
      on the form's `url` field, which defaults to the empty string. */
  function Index(
    isPost: bool,
    formUrl: Option<string>,
    extract: string -> Result<Extraction>,
    urlparse: string -> Result<ParsedUrl>,
    log2: real -> real,
    predict: seq<real> -> Result<int>
  ): (v: Verdict)
    ensures !isPost ==> v == NoVerdict
    ensures isPost && formUrl.None? ==> v == Classify("", extract, urlparse, log2, predict)
    ensures isPost && formUrl.Some? ==> v == Classify(formUrl.value, extract, urlparse, log2, predict)
  {
    if isPost then Classify(formUrl.GetOr(""), extract, urlparse, log2, predict) else NoVerdict
  }
}
