/** The message of the repository's demo entry point (`project/main.py`),
    worked through the model step by step: the lower-cased text, the one
    URL found in it, that URL's features, the sender's domain, and the
    resulting verdict and reasons. The message is run through both copies
    of the rule engine: `detect_email` with the 87-word copy and the stub
    classifier, and `check_rules` of the ten-word copy under `project/`,
    which is the one `project/main.py` imports. */
module Example {
  import opened Strings
  import opened Urls
  import opened Rules
  import opened Engine

  const Subject: string := "Urgent: Verify your account now"
  const Body: string := "Click this link http://bit.ly/fake-login to reset your password."
  const Sender: string := "support@bank-secure.com"

  /** The one link of the body. */
  const Link: string := "http://bit.ly/fake-login"

  /** The lower-cased `subject + " " + body` the rules scan. */
  const Scanned: string := Lead + Mid + Link + Trail

  // -------------------------------------------------------------------
  // Proof scaffolding. The literals above are cut into pieces at the
  // points where the proofs need them: the only 'h' outside the link
  // opens `Mid`, and the capitals of the message each start a piece.
  // -------------------------------------------------------------------

  const Lead: string := "u" + "rgent: " + "v" + "erify your account now" + " " + "c" + "lick t"
  const Mid: string := "his link "
  const Trail: string := " to reset your password."

  lemma PieceLengths()
    ensures |Lead| == 39 && |Mid| == 9 && |Link| == 24 && |Trail| == 24 && |Scanned| == 96
  {
  }

  lemma LeadSlice()
    ensures Scanned[0..39] == Lead
  {
    PieceLengths();
  }

  lemma MidSlice()
    ensures Scanned[40..48] == Mid[1..]
  {
    PieceLengths();
  }

  lemma LinkSlice()
    ensures Scanned[48..72] == Link
  {
    PieceLengths();
  }

  lemma TrailSlice()
    ensures Scanned[72..96] == Trail
  {
    PieceLengths();
  }

  lemma SubjectPieces()
    ensures Subject == "U" + "rgent: " + "V" + "erify your account now"
  {
  }

  lemma BodyPieces()
    ensures Body == "C" + "lick t" + Mid + Link + Trail
  {
    BodyLead(); BodyClick(); BodyLink(); BodyTrail(); ClickPieces();
    var lead := Body[..40];
    assert lead == lead[..16] + lead[16..];
    assert Body == lead + Body[40..];
  }

  lemma BodyLead()
    ensures |Body| >= 40 && Body[..40] == "Click this link http://bit.ly/fake-login"
  {
  }

  lemma BodyClick()
    ensures |Body| >= 40 && Body[..40][..16] == "Click this link "
  {
    BodyLead();
  }

  lemma BodyLink()
    ensures |Body| >= 40 && Body[..40][16..] == Link
  {
    BodyLead();
  }

  lemma BodyTrail()
    ensures |Body| >= 40 && Body[40..] == Trail
  {
  }

  lemma ClickPieces()
    ensures "Click this link " == "C" + "lick t" + Mid
  {
  }

  // The regular expression matches exactly the link, starting at index 48.

  lemma NoMatchAtSpace()
    ensures MatchAt(Scanned, 39) == None
  {
    PieceLengths();
    assert Scanned[40] == 'i';
  }

  lemma LinkChars()
    ensures Link[0] == 'h' && Link[1] == 't' && Link[2] == 't' && Link[3] == 'p'
    ensures Link[4] == ':' && Link[5] == '/' && Link[6] == '/'
  {
  }

  lemma LinkScheme()
    ensures SchemeLength(Scanned, 48) == 7
  {
    PieceLengths(); LinkSlice(); LinkChars();
    forall k | 0 <= k < 8 ensures Scanned[48 + k] == Link[k] {
      assert Scanned[48 + k] == Scanned[48..72][k];
    }
    assert Scanned[52..55] == "://" by {
      assert Scanned[52] == ':' && Scanned[53] == '/' && Scanned[54] == '/';
    }
  }

  lemma LinkTailChars()
    ensures forall k :: 7 <= k < 24 ==> 'a' <= Link[k] <= 'z' || Link[k] == '.' || Link[k] == '/' || Link[k] == '-'
  {
  }

  lemma LinkRunChars()
    ensures forall k :: 55 <= k < 72 ==> IsUrlChar(Scanned[k])
  {
    PieceLengths(); LinkSlice(); LinkTailChars();
    forall k | 55 <= k < 72 ensures IsUrlChar(Scanned[k]) {
      assert Scanned[k] == Scanned[48..72][k - 48];
    }
  }

  lemma RunStopsAtSpace()
    ensures !IsUrlChar(Scanned[72])
  {
    PieceLengths(); TrailSlice();
    assert Scanned[72] == Trail[0];
  }

  lemma LinkMatch()
    ensures MatchAt(Scanned, 48) == Some(72)
  {
    PieceLengths(); LinkScheme(); LinkRunChars(); RunStopsAtSpace();
    RunEndUnique(Scanned, 55, 72);
  }

  // No other position can start a match: no 'h' or 'H' outside the link.

  lemma NoHLead()
    ensures 'h' !in Lead && 'H' !in Lead
  {
  }

  lemma NoHMid()
    ensures 'h' !in Mid[1..] && 'H' !in Mid[1..]
  {
    assert Mid[1..] == "is link ";
  }

  lemma NoHTrail()
    ensures 'h' !in Trail && 'H' !in Trail
  {
  }

  lemma ScanLead()
    ensures ScanFrom(Scanned, 0) == ScanFrom(Scanned, 39)
  {
    PieceLengths(); LeadSlice(); NoHLead();
    NoSchemeNoMatch(Scanned, 0, Lead);
    ScanSkip(Scanned, 0, 39);
  }

  lemma ScanSpace()
    ensures ScanFrom(Scanned, 39) == ScanFrom(Scanned, 40)
  {
    PieceLengths(); NoMatchAtSpace();
  }

  lemma ScanMid()
    ensures ScanFrom(Scanned, 40) == ScanFrom(Scanned, 48)
  {
    PieceLengths(); MidSlice(); NoHMid();
    NoSchemeNoMatch(Scanned, 40, Mid[1..]);
    ScanSkip(Scanned, 40, 48);
  }

  lemma ScanLink()
    ensures ScanFrom(Scanned, 48) == [Span(48, 72)] + ScanFrom(Scanned, 72)
  {
    PieceLengths(); LinkMatch();
  }

  lemma ScanTrail()
    ensures ScanFrom(Scanned, 72) == []
  {
    PieceLengths(); TrailSlice(); NoHTrail();
    NoSchemeNoMatch(Scanned, 72, Trail);
    ScanSkip(Scanned, 72, 96);
  }

  lemma ScanScanned()
    ensures ScanFrom(Scanned, 0) == [Span(48, 72)]
  {
    ScanLead(); ScanSpace(); ScanMid(); ScanLink(); ScanTrail();
  }

  /** The one link in the scanned text is found, whole. */
  lemma ExampleUrls()
    ensures ExtractUrls(Scanned) == [Link]
  {
    ScanScanned();
    ExtractUrlsAreSpans(Scanned);
    LinkSlice();
  }

  // Lower-casing the subject and the body piece by piece.

  lemma LinkLower()
    ensures Lower(Link) == Link
  {
    LinkLiteralLower();
  }

  lemma LinkLiteralLower()
    ensures Lower("http://bit.ly/fake-login") == "http://bit.ly/fake-login"
  {
    LowerFixed("http://bit.ly/fake-login");
  }

  lemma TrailLower()
    ensures Lower(Trail) == Trail
  {
    TrailLiteralLower();
  }

  lemma TrailLiteralLower()
    ensures Lower(" to reset your password.") == " to reset your password."
  {
    LowerFixed(" to reset your password.");
  }

  lemma MidLower()
    ensures Lower(Mid) == Mid
  {
    MidLiteralLower();
  }

  lemma MidLiteralLower()
    ensures Lower("his link ") == "his link "
  {
    LowerFixed("his link ");
  }

  lemma LowerPieces()
    ensures Lower("rgent: ") == "rgent: "
    ensures Lower("lick t") == "lick t"
    ensures Lower("erify your account now") == "erify your account now"
  {
    RgentLower(); LickLower(); ErifyLower();
  }

  lemma RgentLower()
    ensures Lower("rgent: ") == "rgent: "
  {
    LowerFixed("rgent: ");
  }

  lemma LickLower()
    ensures Lower("lick t") == "lick t"
  {
    LowerFixed("lick t");
  }

  lemma ErifyLower()
    ensures Lower("erify your account now") == "erify your account now"
  {
    LowerFixed("erify your account now");
  }

  lemma CapitalsLower()
    ensures Lower("U") == "u" && Lower("V") == "v" && Lower("C") == "c" && Lower(" ") == " "
  {
  }

  lemma LowerSubject()
    ensures Lower(Subject) == "u" + "rgent: " + "v" + "erify your account now"
  {
    SubjectPieces(); LowerPieces(); CapitalsLower();
    LowerAppend("U" + "rgent: " + "V", "erify your account now");
    LowerAppend("U" + "rgent: ", "V");
    LowerAppend("U", "rgent: ");
  }

  lemma LowerBody()
    ensures Lower(Body) == "c" + "lick t" + Mid + Link + Trail
  {
    BodyPieces(); LowerPieces(); CapitalsLower(); MidLower(); LinkLower(); TrailLower();
    LowerAppend("C" + "lick t" + Mid + Link, Trail);
    LowerAppend("C" + "lick t" + Mid, Link);
    LowerAppend("C" + "lick t", Mid);
    LowerAppend("C", "lick t");
  }

  lemma Regroup(p: string, q: string, r: string, m: string, l: string, t: string)
    ensures p + (q + r + m + l + t) == p + q + r + m + l + t
  {
  }

  /** The rules scan exactly the lower-cased subject, a space and the body. */
  lemma ExampleScanText()
    ensures ScanText(Subject, Body) == Scanned
  {
    LowerSubject(); LowerBody();
    Regroup(Lower(Subject) + " ", "c", "lick t", Mid, Link, Trail);
  }

  /** What `url_features` finds in the link, given the split `tldextract`
      makes of it: a suspicious path and a shortener, nothing else. */
  lemma ExampleFeatures(tld: string -> Parts)
    requires tld(Link) == Parts("", "bit", "ly")
    ensures UrlFeatures(tld, Link) == Features(false, false, false, true, true, "bit.ly")
  {
    FeatureNoIp(tld); FeatureNoSubs(tld); FeatureNoAt(tld);
    FeaturePath(tld); FeatureDomain(tld); FeatureShortener(tld);
  }

  // The six fields of the link's features, one at a time.

  lemma FeatureNoIp(tld: string -> Parts)
    requires tld(Link) == Parts("", "bit", "ly")
    ensures !UrlFeatures(tld, Link).hasIp
  {
    LinkNoIp();
  }

  lemma FeatureNoSubs(tld: string -> Parts)
    requires tld(Link) == Parts("", "bit", "ly")
    ensures !UrlFeatures(tld, Link).manySubs
  {
    assert !ManySubdomains("");
  }

  lemma FeatureNoAt(tld: string -> Parts)
    requires tld(Link) == Parts("", "bit", "ly")
    ensures !UrlFeatures(tld, Link).atSymbol
  {
    LinkNoAt();
  }

  lemma FeaturePath(tld: string -> Parts)
    requires tld(Link) == Parts("", "bit", "ly")
    ensures UrlFeatures(tld, Link).suspiciousPath
  {
    LinkLogin();
    assert PathTokens[0] == "login";
  }

  lemma FeatureDomain(tld: string -> Parts)
    requires tld(Link) == Parts("", "bit", "ly")
    ensures UrlFeatures(tld, Link).domain == "bit.ly"
  {
    BitLy();
  }

  lemma FeatureShortener(tld: string -> Parts)
    requires tld(Link) == Parts("", "bit", "ly")
    ensures UrlFeatures(tld, Link).shortener
  {
    FeatureDomain(tld);
    assert "bit.ly" in Shorteners;
  }

  lemma BitLy()
    ensures RegisteredDomain(Parts("", "bit", "ly")) == "bit.ly"
  {
    assert "bit" + "." + "ly" == "bit.ly";
  }

  // Facts about the link literal itself.

  lemma LinkNoIp()
    ensures !HasIp(Link)
  {
    LinkChars();
    assert !IsPrefix("https://", Link) by { assert Link[4] != 's'; }
    assert DigitRun(Link, 7) == 0 by { assert Link[7] == 'b'; }
  }

  lemma LinkNoAt()
    ensures '@' !in Link
  {
  }

  lemma LinkLogin()
    ensures Contains(Lower(Link), "login")
  {
    LinkLower();
    LinkLoginAt();
    ContainsAt(Link, "login", 19);
  }

  lemma LinkLoginAt()
    ensures OccursAt(Link, "login", 19)
  {
  }

  /** The URL stage gives the path reason and then the shortener reason. */
  lemma ExampleLinkReasons(tld: string -> Parts)
    requires tld(Link) == Parts("", "bit", "ly")
    ensures LinkReasons(FeaturesWith(tld), [Link]) == [SuspiciousPathUrl(Link), ShortenerUrl("bit.ly", Link)]
  {
    LinkFeaturesWith(tld);
    LinkReasonsOne(FeaturesWith(tld), Link);
    LinkUrlReasons();
  }

  lemma LinkFeaturesWith(tld: string -> Parts)
    requires tld(Link) == Parts("", "bit", "ly")
    ensures FeaturesWith(tld)(Link) == Features(false, false, false, true, true, "bit.ly")
  {
    ExampleFeatures(tld);
  }

  lemma LinkUrlReasons()
    ensures UrlReasons(Link, Features(false, false, false, true, true, "bit.ly"))
            == [SuspiciousPathUrl(Link), ShortenerUrl("bit.ly", Link)]
  {
  }

  /** `from_addr.split("@")[-1]` of the demo sender. */
  lemma ExampleSenderDomain()
    ensures SenderDomain(Sender) == "bank-secure.com"
  {
    SenderChars();
  }

  lemma SenderChars()
    ensures |Sender| == 23 && Sender[7] == '@' && '@' !in Sender[8..] && Sender[8..] == "bank-secure.com"
  {
  }

  /** The sender's domain has an 'm', the scanned text has none: the
      domain is absent and the mismatch check fires. */
  lemma ExampleMismatch()
    ensures Mismatch(Scanned, [Link], Sender)
  {
    ExampleSenderDomain();
    NoLetterM();
    MissingCharNotContained(Scanned, "bank-secure.com", 'm');
  }

  lemma NoLetterM()
    ensures 'm' !in Scanned && 'm' in "bank-secure.com"
  {
  }

  /** `r` ends with the three reasons `a`, `b`, `c`, in that order. */
  predicate EndsWith3(r: seq<Reason>, a: Reason, b: Reason, c: Reason)
  {
    3 <= |r| && r[|r| - 3] == a && r[|r| - 2] == b && r[|r| - 1] == c
  }

  // The last three rule reasons.

  lemma AssembleTailFrom(order: seq<string>, tld: string -> Parts)
    requires LinkReasons(FeaturesWith(tld), [Link]) == [SuspiciousPathUrl(Link), ShortenerUrl("bit.ly", Link)]
    requires Mismatch(Scanned, [Link], Sender)
    ensures EndsWith3(Assemble(order, FeaturesWith(tld), Scanned, [Link], Sender),
                      SuspiciousPathUrl(Link), ShortenerUrl("bit.ly", Link), SenderMismatch)
  {
    AssembleLastThree(order, FeaturesWith(tld), Scanned, [Link], Sender,
                      SuspiciousPathUrl(Link), ShortenerUrl("bit.ly", Link));
  }

  lemma ExampleAssembleTail(order: seq<string>, tld: string -> Parts)
    requires tld(Link) == Parts("", "bit", "ly")
    ensures EndsWith3(Assemble(order, FeaturesWith(tld), Scanned, [Link], Sender),
                      SuspiciousPathUrl(Link), ShortenerUrl("bit.ly", Link), SenderMismatch)
  {
    ExampleLinkReasons(tld);
    ExampleMismatch();
    AssembleTailFrom(order, tld);
  }

  /** Under either keyword set, the rule reasons for the demo message end
      with the two link reasons and the mismatch reason. */
  lemma ExampleRuleTail(words: set<string>, order: seq<string>, tld: string -> Parts)
    requires IsEnumeration(order, words)
    requires tld(Link) == Parts("", "bit", "ly")
    ensures EndsWith3(CheckRules(words, order, tld, Subject, Body, Sender).reasons,
                      SuspiciousPathUrl(Link), ShortenerUrl("bit.ly", Link), SenderMismatch)
  {
    ExampleChecks(words, order, tld);
    ExampleAssembleTail(order, tld);
  }

  lemma ExampleChecks(words: set<string>, order: seq<string>, tld: string -> Parts)
    requires IsEnumeration(order, words)
    ensures CheckRules(words, order, tld, Subject, Body, Sender).reasons
            == Assemble(order, FeaturesWith(tld), Scanned, [Link], Sender)
  {
    ExampleScanText();
    ExampleUrls();
    CheckRulesAssemble(words, order, tld, Subject, Body, Sender, Scanned, [Link]);
  }

  // Where the keywords occur in the scanned text.

  lemma WordPieces()
    ensures Scanned[0..8] == "u" + "rgent: "
    ensures Scanned[8..31] == "v" + "erify your account now"
    ensures Scanned[32..39] == "c" + "lick t"
  {
    PieceLengths(); LeadSlice();
  }

  lemma LeadWordsAt()
    ensures OccursAt("u" + "rgent: ", "urgent", 0)
    ensures OccursAt("v" + "erify your account now", "verify", 0)
    ensures OccursAt("v" + "erify your account now", "account", 12)
    ensures OccursAt("v" + "erify your account now", "now", 20)
    ensures OccursAt("c" + "lick t", "click", 0)
  {
  }

  lemma TailWordsAt()
    ensures OccursAt(Trail, "reset", 4) && OccursAt(Trail, "password", 15) && OccursAt(Link, "login", 19)
  {
  }

  lemma ScannedLeadWords()
    ensures Contains(Scanned, "urgent") && Contains(Scanned, "verify")
    ensures Contains(Scanned, "account") && Contains(Scanned, "now")
    ensures Contains(Scanned, "click")
  {
    PieceLengths(); WordPieces(); LeadWordsAt();
    ContainsWithin(Scanned, 0, "u" + "rgent: ", "urgent", 0);
    ContainsWithin(Scanned, 8, "v" + "erify your account now", "verify", 0);
    ContainsWithin(Scanned, 8, "v" + "erify your account now", "account", 12);
    ContainsWithin(Scanned, 8, "v" + "erify your account now", "now", 20);
    ContainsWithin(Scanned, 32, "c" + "lick t", "click", 0);
  }

  lemma ScannedTailWords()
    ensures Contains(Scanned, "reset") && Contains(Scanned, "password") && Contains(Scanned, "login")
  {
    PieceLengths(); LinkSlice(); TrailSlice(); TailWordsAt();
    ContainsWithin(Scanned, 72, Trail, "reset", 4);
    ContainsWithin(Scanned, 72, Trail, "password", 15);
    ContainsWithin(Scanned, 48, Link, "login", 19);
  }

  // -------------------------------------------------------------------
  // The 87-word copy, through `detect_email`
  // -------------------------------------------------------------------

  /** Words of the 87-word set that the demo message contains. */
  const DemoWords: seq<string> := ["urgent", "verify", "account", "now", "reset", "password", "login"]

  lemma LeadWordsListed()
    ensures "urgent" in SuspiciousWords && "verify" in SuspiciousWords
    ensures "account" in SuspiciousWords && "now" in SuspiciousWords
  {
    UrgentListed(); VerifyListed(); AccountListed(); NowListed();
  }

  lemma UrgentListed()
    ensures "urgent" in SuspiciousWords
  {
  }

  lemma VerifyListed()
    ensures "verify" in SuspiciousWords
  {
  }

  lemma AccountListed()
    ensures "account" in SuspiciousWords
  {
  }

  lemma NowListed()
    ensures "now" in SuspiciousWords
  {
  }

  lemma TailWordsListed()
    ensures "reset" in SuspiciousWords && "password" in SuspiciousWords && "login" in SuspiciousWords
  {
  }

  lemma DemoWordsListed()
    ensures AllListedIn(DemoWords, SuspiciousWords, Scanned)
  {
    LeadWordsListed(); TailWordsListed(); ScannedLeadWords(); ScannedTailWords();
    forall k | 0 <= k < |DemoWords|
      ensures DemoWords[k] in SuspiciousWords && Contains(Scanned, DemoWords[k])
    {
      var w := DemoWords[k];
      assert w == "urgent" || w == "verify" || w == "account" || w == "now"
          || w == "reset" || w == "password" || w == "login";
    }
  }

  /** The demo message raises a keyword reason for each of the seven words
      of the 87-word set it contains. */
  lemma ExampleWords(order: seq<string>, tld: string -> Parts)
    requires IsEnumeration(order, SuspiciousWords)
    ensures AllFound(CheckRules(SuspiciousWords, order, tld, Subject, Body, Sender).reasons, DemoWords)
  {
    ExampleChecks(SuspiciousWords, order, tld);
    DemoWordsListed();
    AssembleAllFound(SuspiciousWords, order, FeaturesWith(tld), Scanned, [Link], Sender, DemoWords);
  }

  /** The whole detector on the demo message, with the 87-word copy and the
      shipped classifier stub: phishing, with a keyword reason for each of
      the seven words, and the rule reasons ending in the path, shortener
      and mismatch reasons. */
  lemma WorkedExample(order: seq<string>, tld: string -> Parts)
    requires IsEnumeration(order, SuspiciousWords)
    requires tld(Link) == Parts("", "bit", "ly")
    ensures var d := DetectEmail(order, tld, PredictMlStub, Subject, Body, Sender);
            && d.verdict
            && AllFound(d.reasons, DemoWords)
            && EndsWith3(d.reasons, SuspiciousPathUrl(Link), ShortenerUrl("bit.ly", Link), SenderMismatch)
  {
    ExampleWords(order, tld);
    ExampleRuleTail(SuspiciousWords, order, tld);
    StubReducesToRules(order, tld, Subject, Body, Sender);
  }

  // -------------------------------------------------------------------
  // The ten-word copy under `project/`
  // -------------------------------------------------------------------

  /** Words of the ten-word set that the demo message contains. */
  const ProjectDemoWords: seq<string> := ["urgent", "verify", "account", "password", "reset", "click"]

  lemma ProjectWordsListed()
    ensures "urgent" in ProjectSuspiciousWords && "verify" in ProjectSuspiciousWords
    ensures "account" in ProjectSuspiciousWords && "password" in ProjectSuspiciousWords
    ensures "reset" in ProjectSuspiciousWords && "click" in ProjectSuspiciousWords
    ensures "now" !in ProjectSuspiciousWords && "login" !in ProjectSuspiciousWords
  {
  }

  lemma ProjectDemoWordsListed()
    ensures AllListedIn(ProjectDemoWords, ProjectSuspiciousWords, Scanned)
  {
    ProjectWordsListed(); ScannedLeadWords(); ScannedTailWords();
    forall k | 0 <= k < |ProjectDemoWords|
      ensures ProjectDemoWords[k] in ProjectSuspiciousWords && Contains(Scanned, ProjectDemoWords[k])
    {
      var w := ProjectDemoWords[k];
      assert w == "urgent" || w == "verify" || w == "account"
          || w == "password" || w == "reset" || w == "click";
    }
  }

  /** The ten-word copy raises a keyword reason for each of the six words of
      its set the message contains, and none for "now" or "login", which
      only the 87-word set lists. */
  lemma ProjectExampleWords(order: seq<string>, tld: string -> Parts)
    requires IsEnumeration(order, ProjectSuspiciousWords)
    ensures var v := ProjectCheckRules(order, tld, Subject, Body, Sender);
            && AllFound(v.reasons, ProjectDemoWords)
            && WordFound("now") !in v.reasons && WordFound("login") !in v.reasons
  {
    var v := ProjectCheckRules(order, tld, Subject, Body, Sender);
    ProjectFoundWords(order, tld);
    ProjectWordsAbsent(v.reasons);
  }

  lemma ProjectFoundWords(order: seq<string>, tld: string -> Parts)
    requires IsEnumeration(order, ProjectSuspiciousWords)
    ensures AllFound(ProjectCheckRules(order, tld, Subject, Body, Sender).reasons, ProjectDemoWords)
  {
    ExampleChecks(ProjectSuspiciousWords, order, tld);
    ProjectDemoWordsListed();
    AssembleAllFound(ProjectSuspiciousWords, order, FeaturesWith(tld), Scanned, [Link], Sender, ProjectDemoWords);
  }

  lemma ProjectWordsAbsent(r: seq<Reason>)
    requires forall w :: WordFound(w) in r <==> w in ProjectSuspiciousWords && Contains(ScanText(Subject, Body), w)
    ensures WordFound("now") !in r && WordFound("login") !in r
  {
    ProjectWordsListed();
  }

  /** `check_rules` of the ten-word copy on the demo message: flagged, with
      a keyword reason for each of its six words found, and the reasons
      ending in the path, shortener and mismatch reasons. */
  lemma ProjectWorkedExample(order: seq<string>, tld: string -> Parts)
    requires IsEnumeration(order, ProjectSuspiciousWords)
    requires tld(Link) == Parts("", "bit", "ly")
    ensures var v := ProjectCheckRules(order, tld, Subject, Body, Sender);
            && v.flag
            && AllFound(v.reasons, ProjectDemoWords)
            && WordFound("now") !in v.reasons && WordFound("login") !in v.reasons
            && EndsWith3(v.reasons, SuspiciousPathUrl(Link), ShortenerUrl("bit.ly", Link), SenderMismatch)
  {
    ProjectExampleWords(order, tld);
    ExampleRuleTail(ProjectSuspiciousWords, order, tld);
  }
}
