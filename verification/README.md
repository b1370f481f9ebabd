# Phishing e-mail detector: rule engine and fusion step

This project models the decision core of a small phishing e-mail detector
written in Python:

- **Rule engine.** `check_rules(subject, body, from_addr)` is defined in
  `detector/rules.py`. A second copy in `project/detector/rules.py` differs
  only in its keyword set. The engine lower-cases `subject + " " + body` and
  then adds reasons in three stages:
  1. one reason per suspicious keyword found in the text;
  2. for each URL the regular expression `https?://[^\s)>\]"\']+` finds,
     one reason per feature flag raised by `url_features`: raw IP address,
     many subdomains, `@`, suspicious path token, known shortener;
  3. one reason when links are present but the sender's domain (`from_addr`
     after its last `@`) does not occur in the text.

  The message is flagged when at least one reason was produced.
- **Fusion step.** `detect_email` (`detector/engine.py`) appends a probability
  reason when the classifier's probability is positive. It reports phishing
  when the rules fired, or when the probability reaches a threshold. The
  threshold is 0.5, lowered to 0.25 when the rules fired.
- **Classifier.** `predict_ml` (`detector/ml.py`) is a stub that always
  returns `(False, 0.0)`.

Modules:

| file | module | models |
|---|---|---|
| `strings.dfy` | `Strings` | `str.lower()`, the substring test `x in s`, and `str.split` with one separator character |
| `urls.dfy` | `Urls` | `extract_urls` as a `re.findall` scanner proved against a reference reading of the pattern, and `url_features` |
| `rules.dfy` | `Rules` | the `Reason` values and their messages, the three stages, `check_rules` for both keyword sets |
| `engine.dfy` | `Engine` | the fusion step, `detect_email`, and the classifier stub |
| `example.dfy` | `Example` | the message from the demo entry point `project/main.py`, run through `detect_email` with the 87-word copy and through `check_rules` of the ten-word copy |

Three behaviours of the source follow from the proofs:

- **The lowered threshold never matters.** The verdict is
  `rule_flag or prob >= threshold`. The threshold is only lowered when
  `rule_flag` is already true, so the verdict is always
  `rule_flag or prob >= 0.5` (`Engine.LoweredThresholdIsDead`).
- **The stub classifier changes nothing.** With the shipped stub, the
  detector's verdict and reasons are exactly those of the rules
  (`Engine.StubReducesToRules`).
- **A sender domain with a capital letter always mismatches.** The domain is
  searched for in the lower-cased text without being lower-cased itself.
  So a sender domain with an ASCII capital produces the mismatch reason for
  every message that has a link (`Rules.CapitalInSenderMismatches`).

The keyword loop iterates over a Python `set`, whose order depends on
string hashing, so the order of the keyword reasons is not fixed. The order
is therefore a parameter, required to enumerate the set exactly once, and
every property is proved for all such orders.

## Model

| member | source | states |
|---|---|---|
| Strings.Lower | detector/rules.py:75 | the lower-cased text contains no ASCII capital and is never shorter than the input |
| Strings.LowerAppend | detector/rules.py:75 | lower-casing `subject + " " + body` is lower-casing each part and concatenating |
| Strings.LowerIdempotent | detector/rules.py:57 | `url.lower()` on a URL already lower-cased changes nothing: lowering twice is lowering once |
| Strings.LowerFixed | detector/rules.py:75 | ASCII text without capitals is its own lower-case form |
| Strings.Contains | detector/rules.py:80 | `word in text` holds exactly when the word sits at some position of the text, so always for the empty word |
| Strings.ContainsWithin | detector/rules.py:80 | an occurrence inside a known stretch of the text is an occurrence in the text |
| Strings.MissingCharNotContained | detector/rules.py:99 | a pattern holding a character the text lacks is not contained in it |
| Strings.Split | detector/rules.py:99 | `s.split(sep)` has one piece more than `sep` occurs, and no piece holds `sep` |
| Strings.JoinSplit | detector/rules.py:99 | joining the pieces of `s.split(sep)` with `sep` gives back `s` |
| Strings.LastPiece | detector/rules.py:99 | `s.split("@")[-1]` is the `@`-free suffix after the last `@`, or all of `s` when there is no `@` |
| Urls.SchemeLength | detector/rules.py:47 | the scheme part at a position is 0, 7 or 8 characters, and positive only where `http://` or `https://` stands, ignoring case |
| Urls.RunEnd | detector/rules.py:47 | the greedy `[^\s)>\]"\']+` run stops at the first delimiter or at the end of the text |
| Urls.MatchAt | detector/rules.py:47 | the scanner's match at a position ends at `e` exactly when the pattern matches from that position to `e`, and there is none when the pattern does not match there |
| Urls.ScanFrom | detector/rules.py:47 | `re.findall`'s spans are matches, in order, without overlap, and no match starts outside all of them |
| Urls.ExtractUrls | detector/rules.py:45-47 | the URLs are the texts of spans that are matches of the pattern, left to right and without overlap, with no match starting outside them; every URL starts with a scheme part, has at least one more character, and holds no whitespace, `)`, `>`, `]` or quote |
| Urls.MatchShape | detector/rules.py:47 | the text of a match is URL-shaped and made of URL characters only |
| Urls.ScanSkip | detector/rules.py:47 | `re.findall` moves past positions where no match starts |
| Urls.NoSchemeNoMatch | detector/rules.py:47 | no match starts inside a stretch of text without an `h` or `H` |
| Urls.DottedFromIffSpec | detector/rules.py:54 | the deterministic scan of `(\d{1,3}\.){3}\d{1,3}` agrees with the backtracking reading of the pattern, in both directions |
| Urls.HasIp | detector/rules.py:54 | `has_ip` holds exactly when the URL begins, case-sensitively, with `http://` or `https://` followed by a dotted quad of one-to-three-digit groups |
| Urls.ManySubdomains | detector/rules.py:55 | `many_subs` holds exactly when the subdomain has at least two dots |
| Urls.AnyContained | detector/rules.py:57 | `any(x in s for x in tokens)` holds exactly when some token is contained in `s` |
| Urls.UrlFeatures | detector/rules.py:50-67 | what each field of `url_features` means: IP prefix, two or more subdomain dots, an `@`, a path token in the lower-cased URL, domain in the shortener set, and the registered domain |
| Rules.ScanText | detector/rules.py:75 | the scanned text is the lower-cased subject, a space and the lower-cased body, and holds no ASCII capital |
| Rules.WordMessageInjective | detector/rules.py:81 | distinct keywords give distinct keyword messages |
| Rules.EnumerationDistinct | detector/rules.py:79 | an enumeration of the keyword set visits each keyword exactly once and nothing else |
| Rules.KeywordReasons | detector/rules.py:79-81 | the keyword loop adds only keyword reasons, each for a listed word found in the text |
| Rules.KeywordReasonsOnce | detector/rules.py:79-81 | over an order without repeats, each word found has exactly one reason and every other word none |
| Rules.KeywordReasonsCount | detector/rules.py:79-81 | there are as many keyword reasons as listed words found |
| Rules.KeywordStage | detector/rules.py:79-81 | for any enumeration of the keyword set, the keyword reasons are one per keyword of the set found in the text |
| Rules.UrlReasons | detector/rules.py:87-96 | the checks on one URL add as many reasons as flags raised |
| Rules.UrlReasonsFlags | detector/rules.py:87-96 | each check adds its reason exactly when its flag is raised |
| Rules.UrlReasonsOrdered | detector/rules.py:87-96 | one URL's reasons all name it and come in the order raw IP, subdomains, `@`, path, shortener |
| Rules.LinkReasons | detector/rules.py:85-96 | the URL loop adds one reason per flag raised, summed over the URLs |
| Rules.LinkReasonsKinds | detector/rules.py:85-96 | the URL loop adds only per-URL reasons, each naming one of the extracted URLs |
| Rules.LinkReasonsMember | detector/rules.py:85-96 | a per-URL reason is produced exactly when its URL was extracted and the checks on that URL produce it |
| Rules.LinkReasonsOne | detector/rules.py:85-96 | the loop over a single URL gives that URL's reasons |
| Rules.LinkReasonsAppend | detector/rules.py:85-86 | URLs are handled in extraction order: the reasons for a split list are the reasons for each part, concatenated |
| Rules.LinkReasonsAt | detector/rules.py:85-96 | the reasons for the URL at position `k` form one block right after those for the earlier URLs |
| Rules.SenderDomain | detector/rules.py:99 | `from_addr.split("@")[-1]` has no `@`, ends `from_addr` right after its last `@`, and is all of `from_addr` when it has no `@` |
| Rules.Mismatch | detector/rules.py:99 | the mismatch check fires exactly when there is a link and the sender's domain sits at no position of the text |
| Rules.AssembleStages | detector/rules.py:76-100 | keyword reasons first, then the URL reasons, then the mismatch reason |
| Rules.AssembleAfterKeywords | detector/rules.py:83-100 | after the keyword reasons come only the URL reasons and the mismatch reason |
| Rules.AssembleEndsWith | detector/rules.py:83-100 | the list ends with the URL reasons followed by the mismatch reason |
| Rules.AssembleLastThree | detector/rules.py:83-100 | with two URL reasons and a mismatch, the list ends with exactly those three reasons |
| Rules.AssembleWords | detector/rules.py:79-81 | every listed keyword found has exactly one reason, and no other word has any |
| Rules.AssembleWordFound | detector/rules.py:79-81 | a listed keyword found in the text has its reason |
| Rules.AssembleAllFound | detector/rules.py:79-81 | every listed and found word of a list has its reason |
| Rules.AssembleCount | detector/rules.py:76-100 | one reason per keyword found, per flag raised on each URL, and one for a mismatch |
| Rules.AssembleMismatch | detector/rules.py:99-100 | the mismatch reason is present exactly when the mismatch check fires, and then it is last |
| Rules.AssembleLinks | detector/rules.py:85-96 | a per-URL reason is in the list exactly when the URL loop produced it |
| Rules.AssembleLinkFlags | detector/rules.py:85-96 | each URL check reports on a URL exactly when the URL is in the list and its flag is raised |
| Rules.CheckRules | detector/rules.py:70-102 | the rule flag is true exactly when at least one reason was produced |
| Rules.CheckRulesStages | detector/rules.py:70-102 | keyword reasons come first, then the URL reasons, then the mismatch reason |
| Rules.CheckRulesWords | detector/rules.py:75-81 | every keyword of the set found in the lower-cased subject and body is reported once, and no other word is reported |
| Rules.CheckRulesCount | detector/rules.py:76-100 | one reason per keyword found, per flag raised on each URL, and one for a mismatch |
| Rules.CheckRulesMismatch | detector/rules.py:99-100 | the mismatch reason appears exactly when links are present and the sender's domain is absent from the text, and it is then the last reason |
| Rules.CapitalInSenderMismatches | detector/rules.py:75-100 | a sender domain with an ASCII capital is never found in the lower-cased text, so every message with a link gets the mismatch reason |
| Rules.CheckRulesLinkFlags | detector/rules.py:84-96 | each URL check reports on a URL exactly when that URL was extracted and its flag is raised |
| Rules.ProjectCheckRules | project/detector/rules.py:40-72 | the `project/` copy reports exactly the words of its ten-word set found in the text, and flags exactly when a reason was produced |
| Rules.CopiesAgreeOnLinks | project/detector/rules.py:53-70 | after the keyword reasons, the two copies produce the same reasons |
| Engine.Threshold | detector/engine.py:20-22 | the threshold is 0.25 when the rules fired and 0.5 otherwise: below 0.5 exactly when the rules fired |
| Engine.Fuse | detector/engine.py:9-24 | the rule reasons come first and unchanged, followed by a probability reason only for a positive probability; the verdict is the rule flag or a probability of at least 0.5 |
| Engine.RulesForcePositive | detector/engine.py:24 | when the rules fired, the verdict is positive whatever the probability |
| Engine.LoweredThresholdIsDead | detector/engine.py:20-24 | the lowered threshold gives the same verdict as 0.5 for every flag and probability |
| Engine.PredictMlStub | detector/ml.py:73-79 | the shipped classifier reports "not phishing" with probability 0 |
| Engine.DetectEmail | detector/engine.py:5-25 | `detect_email` keeps the rule reasons as a prefix, and reports phishing exactly when a rule reason exists or the probability reaches 0.5 |
| Engine.StubReducesToRules | detector/engine.py:13-24 | with the shipped stub, the verdict is the rule flag and the reasons are the rule reasons |
| Engine.MlFlagIgnored | detector/engine.py:13 | two classifiers with the same probability give the same result, whatever flags they return |
| Example.ExampleScanText | detector/rules.py:75 | the demo message lower-cases to "urgent: verify your account now click this link http://bit.ly/fake-login to reset your password." |
| Example.ExampleUrls | detector/rules.py:84 | exactly one URL, the whole link, is extracted from the demo text |
| Example.ExampleFeatures | detector/rules.py:50-67 | the link has a suspicious path and a shortener domain `bit.ly`, and no other flag |
| Example.ExampleLinkReasons | detector/rules.py:85-96 | the URL stage gives the path reason and then the shortener reason |
| Example.ExampleSenderDomain | detector/rules.py:99 | the demo sender's domain is `bank-secure.com` |
| Example.ExampleMismatch | detector/rules.py:99 | the sender's domain is absent from the demo text and a link is present, so the mismatch check fires |
| Example.ExampleRuleTail | detector/rules.py:83-100 | under either keyword set, the demo's rule reasons end with the path, shortener and mismatch reasons |
| Example.ExampleWords | detector/rules.py:79-81 | with the 87-word set, the demo raises keyword reasons for urgent, verify, account, now, reset, password and login |
| Example.WorkedExample | project/main.py:5-9 | the demo message, through `detect_email` with the 87-word copy and the stub classifier, is reported as phishing with all of the above reasons |
| Example.ProjectExampleWords | project/detector/rules.py:45-51 | with the ten-word set, the demo raises keyword reasons for urgent, verify, account, password, reset and click, and none for now or login |
| Example.ProjectWorkedExample | project/detector/rules.py:40-72 | `check_rules` of the ten-word copy flags the demo message, with those six keyword reasons and the path, shortener and mismatch reasons last |

## Left out

- `tldextract.extract` is a parameter `tld`. The public-suffix list it consults is not modelled. The worked example assumes it splits `http://bit.ly/fake-login` into the empty subdomain, `bit` and `ly`.
- Strings.Lower: lower-cases ASCII capitals, KELVIN SIGN and LATIN CAPITAL LETTER I WITH DOT ABOVE. Other non-ASCII capitals are left as they are, whereas Python lower-cases them too.
- Urls.HasIp: `\d` is taken as the ASCII digits. Python's `\d` on `str` also matches other Unicode decimal digits.
- Urls.ExtractUrls: under `re.IGNORECASE`, the only non-ASCII equivalence modelled is LATIN SMALL LETTER LONG S matching `s`. No other character case-folds to a letter of `http`, `https` or `://`.
- Python's set iteration order is not modelled. It is a parameter, and every result holds for every enumeration of the set.
- The `:.2f` formatting of the probability reason is a parameter `fmt` of `Reason.Message`. Floating point is modelled as exact reals, so a NaN probability is not modelled.
- The trained classifier is left out: loading the joblib files, the TF-IDF vectoriser, and `PHISH_THRESHOLD` in `detector/ml.py`. `DetectEmail` takes any classifier, and `predict_ml` is the shipped stub.
- `project/detector/engine.py`, which `project/main.py` imports, is not part of this model. The demo message is run through `detect_email` of `detector/engine.py` with the 87-word copy, and through `check_rules` of the ten-word copy on its own.
- Training scripts, dataset loading, the command-line front ends and printing are left out. They are input/output around the core.
- Python strings may hold lone surrogate code points. Here strings are sequences of Unicode scalar values.
