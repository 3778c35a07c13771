# URL feature extractor — Dafny model

This project models the feature pipeline of a small malicious-URL classifier
(`app.py`). A raw URL string becomes an ordered vector of 14 numbers
(`len_url` … `count_file_path`). That vector goes to a pre-trained binary
classifier, and the request handler reports "malicious", "benign" or no verdict.

Modules, one per component:

- `Wrappers` (`wrappers.dfy`): `Option`, and a `Result` that stands in for
  Python exceptions and records which collaborator raised.
- `Text` (`text.dfy`): the string primitives behind the features.
  - counting the characters that satisfy a predicate;
  - ASCII lower-casing;
  - substring search (`needle in hay`), proved equal to "sits at some index".
- `UrlFeatures` (`url_features.dfy`): the per-feature helpers of `app.py`.
  - `count_special_char`, `count_url_dots` and `count_file_path`;
  - `ratio_alpha_numeric` and `is_filter`;
  - the `"://"` normalisation and the port rule of `num_port_cal`;
  - the query length and the subdomain label count.
- `Entropy` (`entropy.dfy`): `value_entropy_url`.
  - `Counter(url)` is a table of (character, count) entries in first-appearance order;
  - the probability list follows from the table, and the entropy is
    `-sum(p * log2(p))` in exact reals, with `log2` a parameter.
- `Pipeline` (`pipeline.dfy`): the request path.
  - `feature_from_url` assembles the 14 features;
  - `list(features.values())` gives the vector;
  - the handler's `try`/`except` maps the outcome to a three-state `Verdict`.

The foreign calls are function-typed parameters, so every property holds
whatever they return, except where a lemma states a hypothesis about them:
- `extract` stands for `tldextract.extract(url, include_psl_private_domains=True)`.
  It returns `Extraction(subdomain, domain, suffix, isPrivate)` or raises.
- `urlparse` stands for `urllib.parse.urlparse`. It returns
  `ParsedUrl(scheme, port, query)` or raises. The port field is one of
  `NoPort`, `Port(n)` with `0 <= n <= 65535`, or `BadPort`. `BadPort` covers a
  port whose `.port` read raises; reading `.query` on such a URL still works.
- `log2` stands for `math.log2`.
- `predict` stands for `model.predict(X)[0]` on a single row. It returns an
  integer label, or `Raised(PredictFailed)` when the classifier raises.

Behaviour of `app.py` that the contracts pin down:

- `count_file_path` counts every `/`, the two of `"://"` included, so
  `"http://a/b/c"` gives 4 (`FilePathCountsSchemeSlashes`).
- The empty URL is not an error. `Counter("")` is empty, nothing is divided,
  the entropy is `-sum([])`, which is 0, and `ratio_alpha_numeric("")` is 0
  (`EmptyUrlHasFeatures`).
- Any exception in the handler's `try` block gives no verdict: the extractor,
  the parser, the port read and the classifier are all caught by one
  `except Exception` (`Classify`).
- An explicit port 0 is falsy in Python, so it is treated as absent. Every
  scheme other than `https` falls back to 80.

## Model

| member | source | states |
|---|---|---|
| Text.IsAlnum | app.py:36 | `c.isalnum()` read as ASCII letters and digits: every letter of either case and every digit is alphanumeric; the special characters, `.`, `/` and `:` are not, and neither is any character outside ASCII |
| Text.CountIfPermutation | app.py:36 | the alphanumeric count (like any character count) depends only on the multiset of characters, not on their order |
| Text.LowerChar | app.py:50 | one character of `url.lower()`, ASCII only: an ASCII upper-case letter becomes the lower-case letter at the same position in the alphabet, every other character, non-ASCII letters included, is kept, and being alphanumeric does not change |
| Text.Lower | app.py:50 | `url.lower()` keeps the length and lower-cases each character in place (ASCII) |
| Text.OccursIff | app.py:50 | the left-to-right scan behind `word in s` succeeds exactly when `word` sits at some index of `s` |
| UrlFeatures.CountSpecialChar | app.py:16-17 | the number of characters from `!@#$%^&*()_+-=` lies between 0 and `len(url)` |
| UrlFeatures.CountUrlDots | app.py:39-40 | the dot count lies between 0 and `len(url)` |
| UrlFeatures.CountFilePath | app.py:46-47 | the slash count lies between 0 and `len(url)` |
| UrlFeatures.CharCountsAdditive | app.py:39-47 | the special-character, dot and slash counts of `a + b` are the sums of those of `a` and `b` |
| UrlFeatures.CharCountsAreMultiplicities | app.py:13-17 | the dot and slash counts equal the multiplicity of `.` and `/`; the special count equals the summed multiplicities of the 14 special characters |
| UrlFeatures.FilePathCountsSchemeSlashes | app.py:46-47 | the `/` count includes the two slashes of `"://"`, so `"http://a/b/c"` gives 4 |
| UrlFeatures.RatioAlphaNumeric | app.py:35-37 | the ratio lies in [0, 1] and is exactly 0 for the empty URL |
| UrlFeatures.RatioOneIffAllAlnum | app.py:35-37 | the ratio is 1 if and only if the URL is non-empty and every character is alphanumeric |
| UrlFeatures.AnyOccurs | app.py:50 | `any(word in s for word in words)` holds exactly when some listed word occurs in `s` |
| UrlFeatures.IsFilter | app.py:49-50 | `is_filter` is 0 or 1, and is 1 exactly when one of the 11 keywords occurs in the lower-cased URL |
| UrlFeatures.EmptyUrlNotFiltered | app.py:49-50 | the empty URL holds no keyword |
| UrlFeatures.IsFilterIgnoresCase | app.py:49-50 | two URLs equal up to letter case get the same `is_filter` |
| UrlFeatures.IsFilterOfLower | app.py:49-50 | lower-casing the URL beforehand does not change `is_filter` |
| UrlFeatures.IsFilterMonotone | app.py:49-50 | a flagged URL stays flagged when any text is prepended or appended |
| UrlFeatures.Normalize | app.py:20-21 | the normalised URL always holds `"://"`, ends with the original URL, and is either the original length or 7 longer |
| UrlFeatures.NormalizeKeepsSchemed | app.py:20-21 | a URL that already holds `"://"` is unchanged |
| UrlFeatures.NormalizePrefixes | app.py:20-21 | a URL without `"://"` gets exactly `"http://"` (7 characters) in front |
| UrlFeatures.NormalizeIdempotent | app.py:62 | normalising twice equals normalising once |
| UrlFeatures.ResolvePort | app.py:23-25 | a truthy explicit port is returned; with no port or port 0 the result is 443 if and only if the scheme is `https` and 80 otherwise; a bad port raises; every result lies in 1..65535 |
| UrlFeatures.NumPortCal | app.py:19-25 | the parser sees the normalised URL; the call raises exactly when parsing or the port read raises; otherwise the result is the port rule's result, in 1..65535 |
| UrlFeatures.LenQuery | app.py:62 | the query length of the normalised URL; it raises exactly when the parser raises |
| UrlFeatures.PortImpliesQuery | app.py:22 | once the port was read, the query of the same parse is read too |
| UrlFeatures.Labels | app.py:63 | a reference definition of Python's `str.split('.')`, which app.py does not call; it gives `count_sub_domain` a "number of labels" that does not depend on the dot count. It yields one more label than there are dots, and no label holds a dot |
| UrlFeatures.LabelsRoundTrip | app.py:63 | joining the labels with `.` gives the subdomain back |
| UrlFeatures.CountSubDomain | app.py:63 | `count_sub_domain` is 0 exactly when the subdomain is empty; otherwise it is the number of `.`-separated labels, at least 1 |
| Entropy.Bump | app.py:43 | one `Counter` step keeps the existing entries in place and appends `(c, 1)` for a new character |
| Entropy.BumpCounts | app.py:43 | a `Counter` step adds one to the count of `c` only, and one to the total |
| Entropy.BumpShape | app.py:43 | a `Counter` step adds `c` to the keys and keeps keys distinct and counts positive |
| Entropy.Tally | app.py:43 | `Counter(url)` has one entry per distinct character, holding its number of occurrences; the counts are positive and sum to `len(url)` |
| Entropy.TallyDependsOnMultiset | app.py:43 | two URLs with the same characters give tables that are permutations of each other |
| Entropy.RepeatedCharTally | app.py:43 | a URL of one repeated character gives a single entry holding the full length |
| Entropy.ProbsOfTotal | app.py:43 | dividing positive counts by their total gives values in (0, 1] that sum to 1 |
| Entropy.Probabilities | app.py:43 | the `prob` list has one value per distinct character, in `Counter` order, and each value is that character's count divided by `len(url)`; the values lie in (0, 1]; it sums to 1 for a non-empty URL and is empty for the empty URL |
| Entropy.EmptyEntropy | app.py:43-44 | the empty URL has an empty `prob` list and entropy 0, with no division |
| Entropy.EntropyOf | app.py:42-44 | `value_entropy_url` is `-sum(p * log2(p))` over `Probabilities(url)`, in exact reals with `log2` a parameter; it is 0 for the empty URL whatever `log2` is, and at least 0 whenever `log2` is non-positive on (0, 1] |
| Entropy.EntropyOfRepeatedChar | app.py:42-44 | a URL of one repeated character has entropy 0, given `log2(1) = 0` |
| Entropy.SumOfPermutation | app.py:44 | in exact arithmetic a sum does not depend on the order of its terms |
| Entropy.EntropyPermutationInvariant | app.py:42-44 | two URLs that are rearrangements of each other (for example "abc" and "cab") have the same entropy |
| Pipeline.Values | app.py:119 | the classifier row has exactly 14 entries, and its i-th entry is the value stored under the i-th key of the feature dictionary |
| Pipeline.FeatureFromUrl | app.py:52-70 | extraction raises exactly when the suffix extractor, the parser or the port read raises. Otherwise every field holds its feature function's result: the domain fields are the extractor's label lengths, `is_private` is 1 exactly for a private suffix, `num_port` is `num_port_cal(url)`, `len_query` is the parsed query's length, `count_sub_domain` is computed from the extracted subdomain, and the character features and the entropy are computed from the raw URL; the vector stays in its value domains |
| Pipeline.EmptyUrlHasFeatures | app.py:52-70 | provided `extract("")` returns and `urlparse("http://")` returns with a readable port, the empty URL yields a vector, not an error, with length, counts, keyword flag, ratio and entropy all 0 |
| Pipeline.CharacterFeaturesIgnoreOrder | app.py:55-68 | rearranging a URL's characters leaves its length, special, dot and slash counts and entropy unchanged |
| Pipeline.FeatureVectorIgnoresOrder | app.py:52-70 | two rearrangements of one URL that both get a vector agree on `len_url`, `count_special_char`, `count_url_dots`, `count_file_path`, `value_entropy_url` and `ratio_alpha_numeric` |
| Pipeline.Classify | app.py:117-123 | the verdict is absent exactly when extraction or prediction raised; otherwise it is malicious for a non-zero label and benign for 0 |
| Pipeline.ClassifierInput | app.py:118-120 | the classifier only receives a 14-entry row that starts with `len(url)`, with `is_private` and `is_filter` in {0, 1} and the ratio in [0, 1] |
| Pipeline.Index | app.py:113-124 | a GET gives no verdict; a POST classifies the form's `url` field, and a missing field counts as the empty string |

## Left out

- Flask routing, the HTML template and `app.run` (app.py:9, 72-111, 124-127) are presentation and process plumbing. Of the handler, only the request-method check and the form default are modelled.
- `joblib.load` and `model.predict` are an opaque trained classifier. It is the parameter `predict`, from a row of 14 reals to a label or an exception.
- The public-suffix matching inside `tldextract` is external code with data that is not shown. Its result is an input record.
- The internals of `urllib.parse.urlparse` are foreign code. Its result, or the exception it raises, is an input record, and so is the `ValueError` raised when `.port` is read.
- Entropy.EntropyOf: computed in exact real arithmetic with `log2` as a parameter. Floating-point rounding is not modelled, and neither is Python's first-appearance summation order. Permutation invariance is therefore proved for exact sums only. With floats it can differ in the last bits.
- UrlFeatures.RatioAlphaNumeric: the quotient is exact, while app.py:37 computes a correctly rounded float64. The bounds in [0, 1], and `RatioOneIffAllAlnum` for `len(url) < 2^54`, still hold of the float value.
- `is_ip` (app.py:27-33) is never called by `feature_from_url`. It depends on the parser's `hostname` and a bare `except`.
- Text.Lower, Text.LowerChar and Text.IsAlnum: ASCII only. Python's `str.lower` and `str.isalnum` are Unicode-aware, for example for accented letters or digits in other scripts. This can change a feature: a non-ASCII letter whose lower-case form is ASCII, such as the Kelvin sign U+212A (lower-cased to `k`), makes `is_filter("ban\u212A")` 1 in app.py:50, while the model gives 0.
- Python strings count code points, and a Dafny `char` is a Unicode scalar value. Lone surrogates, which Python strings can hold, are not modelled.
- The conversion of the feature row to a `float64` NumPy array is modelled as exact reals. Every integer feature fits well within 2^53, so it converts exactly.
