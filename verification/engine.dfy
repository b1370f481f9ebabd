/** `detect_email`: the rule verdict fused with a machine-learning
    probability. The classifier is a parameter; the one the repository
    ships is the constant stub `PredictMlStub`. */
module Engine {
  import opened Urls
  import opened Rules

  /** What `detect_email` returns: the verdict and the reasons behind it. */
  datatype Detection = Detection(verdict: bool, reasons: seq<Reason>)

  /** The probability threshold used when the rules did not fire. */
  const BaseThreshold: real := 0.5

  /** The threshold used once the rules fired. */
  const LoweredThreshold: real := 0.25

  /** The fusion threshold: lowered once the heuristics already fired, the
      conservative one otherwise. */
  function Threshold(ruleFlag: bool): (t: real)
    ensures 0.0 < t <= BaseThreshold
    ensures t < BaseThreshold <==> ruleFlag
    ensures ruleFlag ==> t == LoweredThreshold
  {
    if ruleFlag then LoweredThreshold else BaseThreshold
  }

  /** The reason appended for a positive probability, and nothing for a
      probability of zero or less. */
  function MlReasons(prob: real): seq<Reason>
  {
    if prob > 0.0 then [MlProbability(prob)] else []
  }

  /** The fusion step of `detect_email`. The rule reasons come first and
      unchanged, then at most one probability reason; the verdict is the
      rule flag or a probability of at least one half, so the lowered
      threshold never decides anything. */
  function Fuse(rule: RuleVerdict, prob: real): (d: Detection)
    ensures |d.reasons| == |rule.reasons| + (if prob > 0.0 then 1 else 0)
    ensures d.reasons[..|rule.reasons|] == rule.reasons
    ensures prob > 0.0 ==> d.reasons[|d.reasons| - 1] == MlProbability(prob)
    ensures prob <= 0.0 ==> d.reasons == rule.reasons
    ensures d.verdict <==> rule.flag || prob >= BaseThreshold
  {
    Detection(rule.flag || prob >= Threshold(rule.flag), rule.reasons + MlReasons(prob))
  }

  /** When the rules fired, the verdict is positive whatever the
      probability. */
  lemma RulesForcePositive(rule: RuleVerdict, prob: real)
    requires rule.flag
    ensures Fuse(rule, prob).verdict
  {
  }

  /** The lowered threshold would matter only for a probability between a
      quarter and a half, and for such a probability the rule flag alone
      already decides: the two thresholds give the same verdict everywhere. */
  lemma LoweredThresholdIsDead(ruleFlag: bool, prob: real)
    ensures (ruleFlag || prob >= Threshold(ruleFlag)) == (ruleFlag || prob >= BaseThreshold)
  {
    if ruleFlag {
      assert Threshold(ruleFlag) == LoweredThreshold;
    } else {
      assert Threshold(ruleFlag) == BaseThreshold;
    }
  }

  /** The classifier the repository ships: never phishing, probability
      zero. */
  function PredictMlStub(subject: string, body: string): (r: (bool, real))
    ensures !r.0 && r.1 == 0.0
  {
    (false, 0.0)
  }

  /** `detect_email` with the full keyword set, visited in `order`, with
      `tld` for `tldextract.extract` and `ml` for `predict_ml`. Only the
      classifier's probability is used; its own flag is ignored. */
  function DetectEmail(order: seq<string>, tld: string -> Parts,
                       ml: (string, string) -> (bool, real),
                       subject: string, body: string, fromAddr: string): (d: Detection)
    requires IsEnumeration(order, SuspiciousWords)
    ensures var rule := CheckRules(SuspiciousWords, order, tld, subject, body, fromAddr);
            && |rule.reasons| <= |d.reasons|
            && d.reasons[..|rule.reasons|] == rule.reasons
            && (d.verdict <==> |rule.reasons| > 0 || ml(subject, body).1 >= BaseThreshold)
  {
    var rule := CheckRules(SuspiciousWords, order, tld, subject, body, fromAddr);
    Fuse(rule, ml(subject, body).1)
  }

  /** With the shipped stub the detector is the rule engine: the verdict is
      the rule flag and the reasons are the rule reasons exactly. */
  lemma StubReducesToRules(order: seq<string>, tld: string -> Parts,
                           subject: string, body: string, fromAddr: string)
    requires IsEnumeration(order, SuspiciousWords)
    ensures var rule := CheckRules(SuspiciousWords, order, tld, subject, body, fromAddr);
            var d := DetectEmail(order, tld, PredictMlStub, subject, body, fromAddr);
            d.verdict == rule.flag && d.reasons == rule.reasons
  {
    var rule := CheckRules(SuspiciousWords, order, tld, subject, body, fromAddr);
    assert PredictMlStub(subject, body).1 == 0.0;
    assert Fuse(rule, 0.0).reasons == rule.reasons;
  }

  /** Two classifiers that agree on the probability give the same result,
      whatever flags they return. */
  lemma MlFlagIgnored(order: seq<string>, tld: string -> Parts,
                      ml1: (string, string) -> (bool, real), ml2: (string, string) -> (bool, real),
                      subject: string, body: string, fromAddr: string)
    requires IsEnumeration(order, SuspiciousWords)
    requires ml1(subject, body).1 == ml2(subject, body).1
    ensures DetectEmail(order, tld, ml1, subject, body, fromAddr)
            == DetectEmail(order, tld, ml2, subject, body, fromAddr)
  {
  }
}
