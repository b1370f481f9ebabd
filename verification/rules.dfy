/** The heuristic rule engine, `check_rules(subject, body, from_addr)`.
    The repository holds two copies of it that differ only in the keyword
    set, so the keyword set is a parameter and both sets are constants here.
    Python iterates a `set` in an order that depends on string hashing; that
    order is a parameter too, an enumeration of the set without repeats. */
module Rules {
  import opened Strings
  import opened Urls

  /** The keyword set of the main copy, 87 words and phrases. */
  const SuspiciousWords: set<string> := {
    "action required", "immediately", "now", "urgent", "warning", "emergency",
    "last chance", "suspended", "locked", "terminated", "problem", "issue", "frozen",
    "breach", "compromised", "failed", "overdue", "penalty", "violation", "account",
    "login", "password", "verify", "confirm", "update", "reset", "security",
    "credentials", "profile", "access", "authentication", "invoice", "payment",
    "bill", "transfer", "refund", "deposit", "wire", "credit", "debit", "gift card",
    "prize", "winnings", "bonus", "reward", "free", "offer", "coupon", "exclusive",
    "claim", "winner", "lottery", "social security", "ssn", "confidential", "sensitive",
    "private", "personal information", "date of birth", "address", "username",
    "pin", "passcode", "secret question", "job", "employment", "interview", "application",
    "dear customer", "dear user", "dear valued member", "sir/madam", "kindly do the needful",
    "important notification", "click here", "click on the link", "system", "server",
    "database", "maintenance", "notification", "alert", "support", "technical",
    "message", "document", "file"
  }

  /** The keyword set of the copy under `project/`, ten words. */
  const ProjectSuspiciousWords: set<string> := {
    "urgent", "verify", "account", "password", "reset",
    "confirm", "click", "limited", "invoice", "bank"
  }

  /** One entry of the `reasons` list. The strings the source builds are
      given by `Message`. */
  datatype Reason =
    | WordFound(word: string)
    | RawIpUrl(url: string)
    | ManySubsUrl(url: string)
    | AtSymbolUrl(url: string)
    | SuspiciousPathUrl(url: string)
    | ShortenerUrl(domain: string, url: string)
    | SenderMismatch
    | MlProbability(prob: real)
  {
    /** Position of a per-URL reason in the fixed order of the URL stage;
        5 for every other reason. */
    function Rank(): nat
    {
      match this
      case RawIpUrl(_) => 0
      case ManySubsUrl(_) => 1
      case AtSymbolUrl(_) => 2
      case SuspiciousPathUrl(_) => 3
      case ShortenerUrl(_, _) => 4
      case _ => 5
    }

    predicate IsLinkReason()
    {
      Rank() < 5
    }

    /** The reason as the source spells it. `fmt` stands for the `:.2f`
        formatting of a probability. */
    function Message(fmt: real -> string): string
    {
      match this
      case WordFound(w) => WordPrefix + w + "'"
      case RawIpUrl(u) => "URL uses raw IP: " + u
      case ManySubsUrl(u) => "URL has many subdomains: " + u
      case AtSymbolUrl(u) => "URL contains @ symbol: " + u
      case SuspiciousPathUrl(u) => "Suspicious path in URL: " + u
      case ShortenerUrl(d, u) => "URL uses shortener (" + d + "): " + u
      case SenderMismatch => "Sender domain not mentioned in body but links present"
      case MlProbability(p) => "ML probability (phishing): " + fmt(p)
    }
  }

  const WordPrefix: string := "Suspicious word found: '"

  /** Distinct keywords give distinct keyword messages, so "one reason per
      keyword" holds of the strings as well as of the `Reason` values. */
  lemma WordMessageInjective(a: string, b: string, fmt: real -> string)
    requires WordFound(a).Message(fmt) == WordFound(b).Message(fmt)
    ensures a == b
  {
    var m := WordFound(a).Message(fmt);
    assert m[|WordPrefix|..|m| - 1] == a;
    assert WordFound(b).Message(fmt)[|WordPrefix|..|m| - 1] == b;
  }

  /** `order` lists every element of `words` exactly once. */
  predicate IsEnumeration(order: seq<string>, words: set<string>)
  {
    multiset(order) == multiset(words)
  }

  /** An enumeration has no repeats and holds exactly the set's elements. */
  lemma EnumerationDistinct(order: seq<string>, words: set<string>)
    requires IsEnumeration(order, words)
    ensures Distinct(order)
    ensures forall w :: w in order <==> w in words
  {
    assert forall w :: w in order <==> w in multiset(order);
    forall i, j | 0 <= i < j < |order| ensures order[i] != order[j] {
      var x := order[i];
      var front, back := order[..j], order[j..];
      assert order == front + back;
      assert x in front;
      assert multiset(order)[x] == multiset(front)[x] + multiset(back)[x];
      assert multiset(words)[x] <= 1;
      assert x !in multiset(back);
      assert order[j] == back[0];
    }
  }

  /** `f"{subject} {body}".lower()`, the text every check scans. */
  function ScanText(subject: string, body: string): (t: string)
    ensures t == Lower(subject) + " " + Lower(body)
    ensures forall k :: 0 <= k < |t| ==> !IsAsciiUpper(t[k])
  {
    LowerJoined(subject, body);
    Lower(subject + " " + body)
  }

  lemma LowerJoined(subject: string, body: string)
    ensures Lower(subject + " " + body) == Lower(subject) + " " + Lower(body)
  {
    LowerAppend(subject + " ", body);
    LowerAppend(subject, " ");
    assert Lower(" ") == LowerChar(' ') + Lower([]);
  }

  /** The keywords of `words` that occur in `text`. */
  function Matched(words: set<string>, text: string): set<string>
  {
    set w | w in words && Contains(text, w)
  }

  // ---------------------------------------------------------------------
  // Stage 1: keywords
  // ---------------------------------------------------------------------

  /** The keyword loop, visiting the words in `order`: only keyword
      reasons, each for a listed word found in the text. */
  function KeywordReasons(order: seq<string>, text: string): (r: seq<Reason>)
    ensures forall k :: 0 <= k < |r| ==>
              r[k].WordFound? && r[k].word in order && Contains(text, r[k].word)
  {
    if order == [] then []
    else
      var rest := KeywordReasons(order[1..], text);
      assert forall w :: w in order[1..] ==> w in order;
      if Contains(text, order[0]) then [WordFound(order[0])] + rest else rest
  }

  predicate Distinct(order: seq<string>)
  {
    forall i, j :: 0 <= i < j < |order| ==> order[i] != order[j]
  }

  lemma DistinctTail(order: seq<string>)
    requires |order| > 0 && Distinct(order)
    ensures Distinct(order[1..]) && order[0] !in order[1..]
  {
    var tail := order[1..];
    forall i, j | 0 <= i < j < |tail| ensures tail[i] != tail[j] {
      assert tail[i] == order[i + 1] && tail[j] == order[j + 1];
    }
    forall k | 0 <= k < |tail| ensures tail[k] != order[0] {
      assert tail[k] == order[k + 1];
    }
  }

  /** Over an enumeration without repeats, each keyword found yields exactly
      one reason and an absent one none. */
  lemma {:induction false} KeywordReasonsOnce(order: seq<string>, text: string, w: string)
    requires Distinct(order)
    ensures multiset(KeywordReasons(order, text))[WordFound(w)]
            == if w in order && Contains(text, w) then 1 else 0
  {
    if order != [] {
      DistinctTail(order);
      KeywordReasonsOnce(order[1..], text, w);
      assert w in order <==> w == order[0] || w in order[1..];
    }
  }

  /** The listed words that occur in `text`. */
  function FoundIn(order: seq<string>, text: string): set<string>
  {
    set w | w in order && Contains(text, w)
  }

  /** Over an enumeration without repeats, there are as many keyword
      reasons as keywords found. */
  lemma {:induction false} KeywordReasonsCount(order: seq<string>, text: string)
    requires Distinct(order)
    ensures |KeywordReasons(order, text)| == |FoundIn(order, text)|
  {
    if order != [] {
      var h, tail := order[0], order[1..];
      DistinctTail(order);
      KeywordReasonsCount(tail, text);
      var found, foundTail := FoundIn(order, text), FoundIn(tail, text);
      assert forall w :: w in order <==> w == h || w in tail by {
        assert order == [h] + tail;
      }
      if Contains(text, h) {
        assert found == foundTail + {h} by {
          forall w ensures w in found <==> w in foundTail + {h} { }
        }
        assert h !in foundTail;
        assert |KeywordReasons(order, text)| == 1 + |KeywordReasons(tail, text)|;
      } else {
        assert found == foundTail by {
          forall w ensures w in found <==> w in foundTail { }
        }
        assert KeywordReasons(order, text) == KeywordReasons(tail, text);
      }
    }
  }

  /** For an enumeration of `words`, the keyword reasons are exactly one per
      keyword of `words` found in the text. */
  lemma KeywordStage(words: set<string>, order: seq<string>, text: string)
    requires IsEnumeration(order, words)
    ensures forall w :: multiset(KeywordReasons(order, text))[WordFound(w)]
                        == if w in Matched(words, text) then 1 else 0
    ensures |KeywordReasons(order, text)| == |Matched(words, text)|
  {
    EnumerationDistinct(order, words);
    KeywordReasonsCount(order, text);
    forall w ensures multiset(KeywordReasons(order, text))[WordFound(w)]
                     == if w in Matched(words, text) then 1 else 0 {
      KeywordReasonsOnce(order, text, w);
    }
    assert FoundIn(order, text) == Matched(words, text) by {
      forall w ensures w in order && Contains(text, w) <==> w in Matched(words, text) { }
    }
  }

  // ---------------------------------------------------------------------
  // Stage 2: per-URL findings
  // ---------------------------------------------------------------------

  predicate AscendingRanks(r: seq<Reason>)
  {
    forall a, b :: 0 <= a < b < |r| ==> r[a].Rank() < r[b].Rank()
  }

  /** A block of per-URL reasons, all naming `url`, in ascending rank, every
      rank above `above`. */
  predicate LinkBlock(r: seq<Reason>, url: string, above: int)
  {
    && AscendingRanks(r)
    && forall k :: 0 <= k < |r| ==> above < r[k].Rank() < 5 && r[k].url == url
  }

  /** `LinkBlock` read one reason at a time from the front. */
  predicate InRankOrder(r: seq<Reason>, url: string, above: int)
  {
    r == [] || (r[0].IsLinkReason() && r[0].url == url && above < r[0].Rank()
                && InRankOrder(r[1..], url, r[0].Rank()))
  }

  lemma {:induction false} InRankOrderMeans(r: seq<Reason>, url: string, above: int)
    requires InRankOrder(r, url, above)
    ensures LinkBlock(r, url, above)
  {
    if r != [] {
      InRankOrderMeans(r[1..], url, r[0].Rank());
      forall a, b | 0 <= a < b < |r| ensures r[a].Rank() < r[b].Rank() {
        assert r[b] == r[1..][b - 1];
        if a > 0 {
          assert r[a] == r[1..][a - 1];
        }
      }
      forall k | 0 <= k < |r| ensures above < r[k].Rank() < 5 && r[k].url == url {
        if k > 0 {
          assert r[k] == r[1..][k - 1];
        }
      }
    }
  }

  /** `if fired: reasons.append(x)`, read from the end of the URL stage:
      `x` goes in front of what the later checks add. */
  function When(fired: bool, x: Reason, rest: seq<Reason>): seq<Reason>
  {
    if fired then [x] + rest else rest
  }

  lemma WhenMember(fired: bool, x: Reason, rest: seq<Reason>)
    ensures forall y :: y in When(fired, x, rest) <==> (fired && y == x) || y in rest
  {
  }

  lemma WhenInRankOrder(fired: bool, x: Reason, rest: seq<Reason>, url: string, above: int)
    requires x.IsLinkReason() && x.url == url && above < x.Rank()
    requires InRankOrder(rest, url, x.Rank())
    ensures InRankOrder(When(fired, x, rest), url, above)
  {
    if fired {
      assert ([x] + rest)[1..] == rest;
    }
  }

  /** The five checks on one URL, in the order the source makes them. */
  function UrlReasons(url: string, f: Features): (r: seq<Reason>)
    ensures |r| == FlagCount(f)
  {
    When(f.hasIp, RawIpUrl(url),
    When(f.manySubs, ManySubsUrl(url),
    When(f.atSymbol, AtSymbolUrl(url),
    When(f.suspiciousPath, SuspiciousPathUrl(url),
    When(f.shortener, ShortenerUrl(f.domain, url), [])))))
  }

  /** Each check adds its reason exactly when its flag is raised. */
  lemma UrlReasonsFlags(url: string, f: Features)
    ensures var r := UrlReasons(url, f);
            && (RawIpUrl(url) in r <==> f.hasIp)
            && (ManySubsUrl(url) in r <==> f.manySubs)
            && (AtSymbolUrl(url) in r <==> f.atSymbol)
            && (SuspiciousPathUrl(url) in r <==> f.suspiciousPath)
            && (ShortenerUrl(f.domain, url) in r <==> f.shortener)
  {
    var e4 := When(f.shortener, ShortenerUrl(f.domain, url), []);
    var e3 := When(f.suspiciousPath, SuspiciousPathUrl(url), e4);
    var e2 := When(f.atSymbol, AtSymbolUrl(url), e3);
    var e1 := When(f.manySubs, ManySubsUrl(url), e2);
    WhenMember(f.shortener, ShortenerUrl(f.domain, url), []);
    WhenMember(f.suspiciousPath, SuspiciousPathUrl(url), e4);
    WhenMember(f.atSymbol, AtSymbolUrl(url), e3);
    WhenMember(f.manySubs, ManySubsUrl(url), e2);
    WhenMember(f.hasIp, RawIpUrl(url), e1);
  }

  /** The reasons for one URL all name it and come in the fixed order raw
      IP, many subdomains, '@', suspicious path, shortener. */
  lemma UrlReasonsOrdered(url: string, f: Features)
    ensures LinkBlock(UrlReasons(url, f), url, -1)
  {
    var e4 := When(f.shortener, ShortenerUrl(f.domain, url), []);
    var e3 := When(f.suspiciousPath, SuspiciousPathUrl(url), e4);
    var e2 := When(f.atSymbol, AtSymbolUrl(url), e3);
    var e1 := When(f.manySubs, ManySubsUrl(url), e2);
    WhenInRankOrder(f.shortener, ShortenerUrl(f.domain, url), [], url, 3);
    WhenInRankOrder(f.suspiciousPath, SuspiciousPathUrl(url), e4, url, 2);
    WhenInRankOrder(f.atSymbol, AtSymbolUrl(url), e3, url, 1);
    WhenInRankOrder(f.manySubs, ManySubsUrl(url), e2, url, 0);
    WhenInRankOrder(f.hasIp, RawIpUrl(url), e1, url, -1);
    InRankOrderMeans(UrlReasons(url, f), url, -1);
  }

  /** Total number of flags raised over a list of URLs. */
  function FlagTotal(features: string -> Features, urls: seq<string>): nat
  {
    if urls == [] then 0 else FlagCount(features(urls[0])) + FlagTotal(features, urls[1..])
  }

  /** The URL loop: the reasons for each URL in extraction order, as many as
      flags raised. It is stated for any per-URL feature function;
      `check_rules` uses `url_features`. */
  function LinkReasons(features: string -> Features, urls: seq<string>): (r: seq<Reason>)
    ensures |r| == FlagTotal(features, urls)
  {
    if urls == [] then []
    else UrlReasons(urls[0], features(urls[0])) + LinkReasons(features, urls[1..])
  }

  /** The URL loop adds only per-URL reasons, each naming one of the URLs. */
  lemma {:induction false} LinkReasonsKinds(features: string -> Features, urls: seq<string>)
    ensures forall x :: x in LinkReasons(features, urls) ==> x.IsLinkReason() && x.url in urls
  {
    if urls != [] {
      var u := urls[0];
      var mine := UrlReasons(u, features(u));
      var rest := LinkReasons(features, urls[1..]);
      UrlReasonsOrdered(u, features(u));
      LinkReasonsKinds(features, urls[1..]);
      forall x | x in LinkReasons(features, urls) ensures x.IsLinkReason() && x.url in urls {
        if x in mine {
          var k :| 0 <= k < |mine| && mine[k] == x;
        } else {
          assert x in rest;
          assert x.url in urls[1..];
        }
      }
    }
  }

  /** A per-URL reason is in the URL loop's output exactly when its URL is
      one of the URLs and the checks on that URL produce it. */
  lemma {:induction false} LinkReasonsMember(features: string -> Features, urls: seq<string>, x: Reason)
    requires x.IsLinkReason()
    ensures x in LinkReasons(features, urls)
            <==> x.url in urls && x in UrlReasons(x.url, features(x.url))
  {
    if urls != [] {
      var u := urls[0];
      var mine := UrlReasons(u, features(u));
      LinkReasonsMember(features, urls[1..], x);
      assert x in LinkReasons(features, urls) <==> x in mine || x in LinkReasons(features, urls[1..]);
      assert x.url in urls <==> x.url == u || x.url in urls[1..];
      if x in mine {
        UrlReasonsOrdered(u, features(u));
        var k :| 0 <= k < |mine| && mine[k] == x;
        assert x.url == u;
      }
    }
  }

  /** The URL loop over a single URL gives that URL's reasons. */
  lemma LinkReasonsOne(features: string -> Features, u: string)
    ensures LinkReasons(features, [u]) == UrlReasons(u, features(u))
  {
    assert [u][1..] == [];
  }

  /** URLs are handled in extraction order: the reasons for a list of URLs
      are the reasons for a first part followed by those for the rest. */
  lemma {:induction false} LinkReasonsAppend(features: string -> Features, a: seq<string>, b: seq<string>)
    ensures LinkReasons(features, a + b) == LinkReasons(features, a) + LinkReasons(features, b)
  {
    if a != [] {
      assert (a + b)[1..] == a[1..] + b;
      LinkReasonsAppend(features, a[1..], b);
    } else {
      assert a + b == b;
    }
  }

  /** The reasons for the URL at position `k` sit, as one block, after the
      reasons for all earlier URLs. */
  lemma LinkReasonsAt(features: string -> Features, urls: seq<string>, k: nat)
    requires k < |urls|
    ensures var r := LinkReasons(features, urls);
            var before := |LinkReasons(features, urls[..k])|;
            var mine := UrlReasons(urls[k], features(urls[k]));
            before + |mine| <= |r| && r[before..before + |mine|] == mine
  {
    var rest := urls[k..];
    var pre := LinkReasons(features, urls[..k]);
    var mine := UrlReasons(urls[k], features(urls[k]));
    var later := LinkReasons(features, rest[1..]);
    assert urls == urls[..k] + rest;
    LinkReasonsAppend(features, urls[..k], rest);
    assert rest[0] == urls[k];
    assert LinkReasons(features, rest) == mine + later;
    BlockInMiddle(pre, mine, later);
  }

  /** A block placed between two others is found at its offset. */
  lemma BlockInMiddle(pre: seq<Reason>, mid: seq<Reason>, post: seq<Reason>)
    ensures (pre + (mid + post))[|pre|..|pre| + |mid|] == mid
  {
    var r := pre + (mid + post);
    forall t | 0 <= t < |mid| ensures r[|pre|..|pre| + |mid|][t] == mid[t] {
      assert r[|pre| + t] == (mid + post)[t];
    }
  }

  // ---------------------------------------------------------------------
  // Stage 3: sender / link mismatch
  // ---------------------------------------------------------------------

  /** `from_addr.split("@")[-1]`. */
  function SenderDomain(fromAddr: string): (d: string)
    ensures '@' !in d
    ensures |d| <= |fromAddr| && fromAddr[|fromAddr| - |d|..] == d
    ensures |d| < |fromAddr| ==> fromAddr[|fromAddr| - |d| - 1] == '@'
    ensures '@' !in fromAddr ==> d == fromAddr
  {
    LastPiece(fromAddr, '@')
  }

  /** The mismatch check fires when links are present and the sender's
      domain does not occur in the scanned text. */
  function Mismatch(text: string, urls: seq<string>, fromAddr: string): (b: bool)
    ensures b <==> |urls| > 0 && forall i :: !OccursAt(text, SenderDomain(fromAddr), i)
  {
    !Contains(text, SenderDomain(fromAddr)) && |urls| > 0
  }

  function MismatchReasons(text: string, urls: seq<string>, fromAddr: string): seq<Reason>
  {
    if Mismatch(text, urls, fromAddr) then [SenderMismatch] else []
  }

  // ---------------------------------------------------------------------
  // check_rules
  // ---------------------------------------------------------------------

  datatype RuleVerdict = RuleVerdict(flag: bool, reasons: seq<Reason>)

  /** `url_features` with `tld` standing for `tldextract.extract`. */
  function FeaturesWith(tld: string -> Parts): string -> Features
  {
    u => UrlFeatures(tld, u)
  }

  /** The three stages run on a lower-cased text and the URLs cut from it:
      the keyword reasons, then the URL reasons, then the mismatch reason. */
  function Assemble(order: seq<string>, features: string -> Features, text: string,
                    urls: seq<string>, fromAddr: string): seq<Reason>
  {
    KeywordReasons(order, text) + LinkReasons(features, urls) + MismatchReasons(text, urls, fromAddr)
  }

  /** The keyword reasons, one per keyword found, then the URL reasons,
      then the mismatch reason. */
  lemma AssembleStages(words: set<string>, order: seq<string>, features: string -> Features,
                       text: string, urls: seq<string>, fromAddr: string)
    requires IsEnumeration(order, words)
    ensures var r := Assemble(order, features, text, urls, fromAddr);
            var n := |Matched(words, text)|;
            var m := FlagTotal(features, urls);
            && n + m <= |r|
            && (forall k :: 0 <= k < n ==> r[k].WordFound?)
            && r[n..n + m] == LinkReasons(features, urls)
            && r[n + m..] == MismatchReasons(text, urls, fromAddr)
  {
    KeywordStage(words, order, text);
  }

  /** After the keyword reasons come the URL reasons and the mismatch
      reason, nothing else. */
  lemma AssembleAfterKeywords(words: set<string>, order: seq<string>, features: string -> Features,
                              text: string, urls: seq<string>, fromAddr: string)
    requires IsEnumeration(order, words)
    ensures var r := Assemble(order, features, text, urls, fromAddr);
            var n := |Matched(words, text)|;
            n <= |r| && r[n..] == LinkReasons(features, urls) + MismatchReasons(text, urls, fromAddr)
  {
    KeywordStage(words, order, text);
    var keywords := KeywordReasons(order, text);
    var rest := LinkReasons(features, urls) + MismatchReasons(text, urls, fromAddr);
    assert Assemble(order, features, text, urls, fromAddr) == keywords + rest;
  }

  /** The list ends with the URL reasons followed by the mismatch reason. */
  lemma AssembleEndsWith(order: seq<string>, features: string -> Features,
                         text: string, urls: seq<string>, fromAddr: string)
    ensures var r := Assemble(order, features, text, urls, fromAddr);
            var t := LinkReasons(features, urls) + MismatchReasons(text, urls, fromAddr);
            |t| <= |r| && r[|r| - |t|..] == t
  {
    var k := KeywordReasons(order, text);
    var t := LinkReasons(features, urls) + MismatchReasons(text, urls, fromAddr);
    assert Assemble(order, features, text, urls, fromAddr) == k + t;
  }

  /** With two link reasons and a mismatch, the assembled list ends with
      exactly those three reasons. */
  lemma AssembleLastThree(order: seq<string>, features: string -> Features,
                          text: string, urls: seq<string>, fromAddr: string, a: Reason, b: Reason)
    requires LinkReasons(features, urls) == [a, b]
    requires Mismatch(text, urls, fromAddr)
    ensures var r := Assemble(order, features, text, urls, fromAddr);
            && 3 <= |r| && r[|r| - 3] == a && r[|r| - 2] == b && r[|r| - 1] == SenderMismatch
  {
    AssembleEndsWith(order, features, text, urls, fromAddr);
  }

  /** Each listed keyword found in the text has exactly one reason; no
      other word has any. */
  lemma AssembleWords(words: set<string>, order: seq<string>, features: string -> Features,
                      text: string, urls: seq<string>, fromAddr: string)
    requires IsEnumeration(order, words)
    ensures var r := Assemble(order, features, text, urls, fromAddr);
            forall w :: multiset(r)[WordFound(w)] == if w in words && Contains(text, w) then 1 else 0
  {
    var keywords := KeywordReasons(order, text);
    var links := LinkReasons(features, urls);
    var tail := MismatchReasons(text, urls, fromAddr);
    KeywordStage(words, order, text);
    assert multiset(keywords + links + tail) == multiset(keywords) + multiset(links) + multiset(tail);
    LinkReasonsKinds(features, urls);
    assert forall w :: WordFound(w) !in links;
    assert forall w :: WordFound(w) !in tail;
  }

  /** One reason per keyword found, per flag raised, and one for a
      mismatch. */
  lemma AssembleCount(words: set<string>, order: seq<string>, features: string -> Features,
                      text: string, urls: seq<string>, fromAddr: string)
    requires IsEnumeration(order, words)
    ensures |Assemble(order, features, text, urls, fromAddr)|
            == |Matched(words, text)| + FlagTotal(features, urls)
               + (if Mismatch(text, urls, fromAddr) then 1 else 0)
  {
    KeywordStage(words, order, text);
  }

  /** The mismatch reason is present exactly when the mismatch check fires,
      and then it is last. */
  lemma AssembleMismatch(order: seq<string>, features: string -> Features,
                         text: string, urls: seq<string>, fromAddr: string)
    ensures var r := Assemble(order, features, text, urls, fromAddr);
            && (SenderMismatch in r <==> Mismatch(text, urls, fromAddr))
            && (SenderMismatch in r ==> r[|r| - 1] == SenderMismatch)
  {
    var keywords := KeywordReasons(order, text);
    var links := LinkReasons(features, urls);
    assert SenderMismatch !in keywords;
    LinkReasonsKinds(features, urls);
    assert SenderMismatch !in links;
  }

  /** A per-URL reason is in the list exactly when the URL loop produced it. */
  lemma AssembleLinks(order: seq<string>, features: string -> Features,
                      text: string, urls: seq<string>, fromAddr: string, x: Reason)
    requires x.IsLinkReason()
    ensures x in Assemble(order, features, text, urls, fromAddr)
            <==> x.url in urls && x in UrlReasons(x.url, features(x.url))
  {
    LinkReasonsMember(features, urls, x);
    assert x !in KeywordReasons(order, text);
    assert x !in MismatchReasons(text, urls, fromAddr);
  }

  /** `check_rules` for keyword set `words`, visited in `order`, with `tld`
      for `tldextract.extract`: flagged when any reason was found. */
  function CheckRules(words: set<string>, order: seq<string>, tld: string -> Parts,
                      subject: string, body: string, fromAddr: string): (v: RuleVerdict)
    requires IsEnumeration(order, words)
    ensures v.flag <==> |v.reasons| > 0
  {
    var text := ScanText(subject, body);
    var reasons := Assemble(order, FeaturesWith(tld), text, ExtractUrls(text), fromAddr);
    RuleVerdict(|reasons| > 0, reasons)
  }

  /** `check_rules` is the three stages run on its scanned text and the
      URLs cut from it. */
  lemma CheckRulesAssemble(words: set<string>, order: seq<string>, tld: string -> Parts,
                           subject: string, body: string, fromAddr: string,
                           text: string, urls: seq<string>)
    requires IsEnumeration(order, words)
    requires text == ScanText(subject, body) && urls == ExtractUrls(text)
    ensures CheckRules(words, order, tld, subject, body, fromAddr).reasons
            == Assemble(order, FeaturesWith(tld), text, urls, fromAddr)
  {
  }

  /** The three stages in the order the source runs them: keyword reasons,
      then the URL reasons, then the mismatch reason. */
  lemma CheckRulesStages(words: set<string>, order: seq<string>, tld: string -> Parts,
                         subject: string, body: string, fromAddr: string)
    requires IsEnumeration(order, words)
    ensures var text := ScanText(subject, body);
            var urls := ExtractUrls(text);
            var v := CheckRules(words, order, tld, subject, body, fromAddr);
            var n := |Matched(words, text)|;
            var m := FlagTotal(FeaturesWith(tld), urls);
            && n + m <= |v.reasons|
            && (forall k :: 0 <= k < n ==> v.reasons[k].WordFound?)
            && v.reasons[n..n + m] == LinkReasons(FeaturesWith(tld), urls)
            && v.reasons[n + m..] == MismatchReasons(text, urls, fromAddr)
  {
    var text := ScanText(subject, body);
    AssembleStages(words, order, FeaturesWith(tld), text, ExtractUrls(text), fromAddr);
  }

  /** A listed word found in the text has its keyword reason in the list. */
  lemma AssembleWordFound(words: set<string>, order: seq<string>, features: string -> Features,
                          text: string, urls: seq<string>, fromAddr: string, w: string)
    requires IsEnumeration(order, words)
    requires w in words && Contains(text, w)
    ensures WordFound(w) in Assemble(order, features, text, urls, fromAddr)
  {
    AssembleWords(words, order, features, text, urls, fromAddr);
    var r := Assemble(order, features, text, urls, fromAddr);
    assert multiset(r)[WordFound(w)] == 1;
  }

  /** Every word of `ws` is a listed word found in `text`. */
  predicate AllListedIn(ws: seq<string>, words: set<string>, text: string)
  {
    forall k :: 0 <= k < |ws| ==> ws[k] in words && Contains(text, ws[k])
  }

  /** Every word of `ws` has its keyword reason in `r`. */
  predicate AllFound(r: seq<Reason>, ws: seq<string>)
  {
    forall k :: 0 <= k < |ws| ==> WordFound(ws[k]) in r
  }

  /** Every word of `ws` that is listed and found has its reason. */
  lemma AssembleAllFound(words: set<string>, order: seq<string>, features: string -> Features,
                         text: string, urls: seq<string>, fromAddr: string, ws: seq<string>)
    requires IsEnumeration(order, words)
    requires AllListedIn(ws, words, text)
    ensures AllFound(Assemble(order, features, text, urls, fromAddr), ws)
  {
    forall k | 0 <= k < |ws|
      ensures WordFound(ws[k]) in Assemble(order, features, text, urls, fromAddr)
    {
      AssembleWordFound(words, order, features, text, urls, fromAddr, ws[k]);
    }
  }

  /** Every keyword of the set found in the lower-cased subject and body is
      reported once, and no other word is reported. */
  lemma CheckRulesWords(words: set<string>, order: seq<string>, tld: string -> Parts,
                        subject: string, body: string, fromAddr: string)
    requires IsEnumeration(order, words)
    ensures var v := CheckRules(words, order, tld, subject, body, fromAddr);
            forall w :: multiset(v.reasons)[WordFound(w)]
                        == if w in words && Contains(ScanText(subject, body), w) then 1 else 0
  {
    var text := ScanText(subject, body);
    AssembleWords(words, order, FeaturesWith(tld), text, ExtractUrls(text), fromAddr);
  }

  /** One reason per keyword found, per flag raised on each URL, and one
      more for a mismatch. */
  lemma CheckRulesCount(words: set<string>, order: seq<string>, tld: string -> Parts,
                        subject: string, body: string, fromAddr: string)
    requires IsEnumeration(order, words)
    ensures var text := ScanText(subject, body);
            var urls := ExtractUrls(text);
            |CheckRules(words, order, tld, subject, body, fromAddr).reasons|
            == |Matched(words, text)| + FlagTotal(FeaturesWith(tld), urls)
               + (if Mismatch(text, urls, fromAddr) then 1 else 0)
  {
    var text := ScanText(subject, body);
    AssembleCount(words, order, FeaturesWith(tld), text, ExtractUrls(text), fromAddr);
  }

  /** The mismatch reason is given exactly when links are present and the
      sender's domain is absent from the text, and it is always the last
      reason. */
  lemma CheckRulesMismatch(words: set<string>, order: seq<string>, tld: string -> Parts,
                           subject: string, body: string, fromAddr: string)
    requires IsEnumeration(order, words)
    ensures var text := ScanText(subject, body);
            var v := CheckRules(words, order, tld, subject, body, fromAddr);
            && (SenderMismatch in v.reasons <==> Mismatch(text, ExtractUrls(text), fromAddr))
            && (SenderMismatch in v.reasons ==> v.reasons[|v.reasons| - 1] == SenderMismatch)
  {
    var text := ScanText(subject, body);
    AssembleMismatch(order, FeaturesWith(tld), text, ExtractUrls(text), fromAddr);
  }

  /** The sender's domain is searched for in the lower-cased text without
      being lower-cased itself, so a domain holding an ASCII capital is
      never found: every message with a link gets the mismatch reason,
      whatever the text says. */
  lemma CapitalInSenderMismatches(words: set<string>, order: seq<string>, tld: string -> Parts,
                                  subject: string, body: string, fromAddr: string, k: nat)
    requires IsEnumeration(order, words)
    requires k < |SenderDomain(fromAddr)| && IsAsciiUpper(SenderDomain(fromAddr)[k])
    requires |ExtractUrls(ScanText(subject, body))| > 0
    ensures SenderMismatch in CheckRules(words, order, tld, subject, body, fromAddr).reasons
  {
    var text := ScanText(subject, body);
    var domain := SenderDomain(fromAddr);
    assert domain[k] !in text;
    MissingCharNotContained(text, domain, domain[k]);
    CheckRulesMismatch(words, order, tld, subject, body, fromAddr);
  }

  /** Each URL check adds its reason exactly when the URL is in the list and
      the check's flag is raised for it. */
  lemma AssembleLinkFlags(order: seq<string>, features: string -> Features,
                          text: string, urls: seq<string>, fromAddr: string, u: string)
    ensures var r := Assemble(order, features, text, urls, fromAddr);
            var f := features(u);
            && (RawIpUrl(u) in r <==> u in urls && f.hasIp)
            && (ManySubsUrl(u) in r <==> u in urls && f.manySubs)
            && (AtSymbolUrl(u) in r <==> u in urls && f.atSymbol)
            && (SuspiciousPathUrl(u) in r <==> u in urls && f.suspiciousPath)
            && (ShortenerUrl(f.domain, u) in r <==> u in urls && f.shortener)
  {
    var f := features(u);
    UrlReasonsFlags(u, f);
    AssembleLinks(order, features, text, urls, fromAddr, RawIpUrl(u));
    AssembleLinks(order, features, text, urls, fromAddr, ManySubsUrl(u));
    AssembleLinks(order, features, text, urls, fromAddr, AtSymbolUrl(u));
    AssembleLinks(order, features, text, urls, fromAddr, SuspiciousPathUrl(u));
    AssembleLinks(order, features, text, urls, fromAddr, ShortenerUrl(f.domain, u));
  }

  /** Each URL check reports on a URL exactly when that URL was extracted
      from the text and the check's flag is raised for it. */
  lemma CheckRulesLinkFlags(words: set<string>, order: seq<string>, tld: string -> Parts,
                            subject: string, body: string, fromAddr: string, u: string)
    requires IsEnumeration(order, words)
    ensures var v := CheckRules(words, order, tld, subject, body, fromAddr);
            var urls := ExtractUrls(ScanText(subject, body));
            var f := UrlFeatures(tld, u);
            && (RawIpUrl(u) in v.reasons <==> u in urls && f.hasIp)
            && (ManySubsUrl(u) in v.reasons <==> u in urls && f.manySubs)
            && (AtSymbolUrl(u) in v.reasons <==> u in urls && f.atSymbol)
            && (SuspiciousPathUrl(u) in v.reasons <==> u in urls && f.suspiciousPath)
            && (ShortenerUrl(f.domain, u) in v.reasons <==> u in urls && f.shortener)
  {
    var text := ScanText(subject, body);
    AssembleLinkFlags(order, FeaturesWith(tld), text, ExtractUrls(text), fromAddr, u);
  }

  /** `check_rules` of the copy under `project/`: its keyword reasons are
      exactly the words of its ten-word set found in the text, one each. */
  function ProjectCheckRules(order: seq<string>, tld: string -> Parts,
                             subject: string, body: string, fromAddr: string): (v: RuleVerdict)
    requires IsEnumeration(order, ProjectSuspiciousWords)
    ensures v.flag <==> |v.reasons| > 0
    ensures forall w :: WordFound(w) in v.reasons
                        <==> w in ProjectSuspiciousWords && Contains(ScanText(subject, body), w)
  {
    var v := CheckRules(ProjectSuspiciousWords, order, tld, subject, body, fromAddr);
    CheckRulesWords(ProjectSuspiciousWords, order, tld, subject, body, fromAddr);
    v
  }

  /** The two copies share their URL and mismatch logic: whatever the
      keyword sets, after the keyword reasons the two reason lists are the
      same. */
  lemma CopiesAgreeOnLinks(words1: set<string>, order1: seq<string>,
                           words2: set<string>, order2: seq<string>, tld: string -> Parts,
                           subject: string, body: string, fromAddr: string)
    requires IsEnumeration(order1, words1) && IsEnumeration(order2, words2)
    ensures var text := ScanText(subject, body);
            var v1 := CheckRules(words1, order1, tld, subject, body, fromAddr);
            var v2 := CheckRules(words2, order2, tld, subject, body, fromAddr);
            var n1 := |Matched(words1, text)|;
            var n2 := |Matched(words2, text)|;
            && n1 <= |v1.reasons| && n2 <= |v2.reasons|
            && v1.reasons[n1..] == v2.reasons[n2..]
  {
    var text := ScanText(subject, body);
    var urls := ExtractUrls(text);
    AssembleAfterKeywords(words1, order1, FeaturesWith(tld), text, urls, fromAddr);
    AssembleAfterKeywords(words2, order2, FeaturesWith(tld), text, urls, fromAddr);
  }
}
