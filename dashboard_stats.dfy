/**
 * `generate_statistics` of the classification dashboard: how many classified emails fall in
 * each of the three categories, what share of the whole each is, and how many business
 * leads were classified with high confidence.
 */
module DashboardStats {
  const BusinessLead := "business_lead"
  const InformationRequest := "information_request"
  const Other := "other"

  /** A business lead counts as high-confidence above this score. */
  const HighConfidence: real := 0.8

  /** One classified email as loaded by the dashboard: its category and model confidence. */
  datatype Classified = Classified(category: string, confidence: real)

  datatype Statistics = Statistics(
    total: nat,
    businessLeads: nat,
    informationRequests: nat,
    other: nat,
    businessLeadsPct: real,
    informationRequestsPct: real,
    otherPct: real,
    highConfidenceLeads: nat)

  /** The categories of the emails, in order. */
  function Categories(emails: seq<Classified>): (cs: seq<string>)
    ensures |cs| == |emails|
    ensures forall i :: 0 <= i < |emails| ==> cs[i] == emails[i].category
  {
    seq(|emails|, i requires 0 <= i < |emails| => emails[i].category)
  }

  /** The number of emails whose category is exactly `c`. */
  function CountCategory(emails: seq<Classified>, c: string): (n: nat)
    ensures n <= |emails|
    ensures n == 0 <==> forall i :: 0 <= i < |emails| ==> emails[i].category != c
    ensures n == |emails| <==> forall i :: 0 <= i < |emails| ==> emails[i].category == c
  {
    if |emails| == 0 then 0
    else
      var rest := CountCategory(emails[1..], c);
      assert forall i :: 1 <= i < |emails| ==> emails[i] == emails[1..][i - 1];
      (if emails[0].category == c then 1 else 0) + rest
  }

  /** The number of business leads whose confidence is strictly above the threshold. */
  function CountHighConfidence(emails: seq<Classified>): (n: nat)
    ensures n <= CountCategory(emails, BusinessLead)
    ensures n == 0 <==> forall i :: 0 <= i < |emails| ==>
      !(emails[i].category == BusinessLead && emails[i].confidence > HighConfidence)
  {
    if |emails| == 0 then 0
    else
      var rest := CountHighConfidence(emails[1..]);
      assert forall i :: 1 <= i < |emails| ==> emails[i] == emails[1..][i - 1];
      (if emails[0].category == BusinessLead && emails[0].confidence > HighConfidence then 1 else 0) + rest
  }

  /** `p` percent of `total` is `count`. */
  predicate IsShare(p: real, count: nat, total: nat) {
    p * total as real == count as real * 100.0
  }

  /** `(count / total) * 100`, before rounding. */
  function Percent(count: nat, total: nat): (p: real)
    requires 0 < total
    ensures IsShare(p, count, total)
    ensures count <= total ==> 0.0 <= p <= 100.0
  {
    (count as real / total as real) * 100.0
  }

  /**
   * The dashboard's statistics: all zero without emails; otherwise the total, the three
   * category counts (which together never exceed the total), each count's share of the
   * total as a percentage, and the high-confidence business leads (never more than the
   * business leads).
   */
  function GenerateStatistics(emails: seq<Classified>): (r: Statistics)
    ensures |emails| == 0 ==> r == Statistics(0, 0, 0, 0, 0.0, 0.0, 0.0, 0)
    ensures r.total == |emails|
    ensures r.businessLeads + r.informationRequests + r.other <= r.total
    ensures r.highConfidenceLeads <= r.businessLeads
    ensures 0.0 <= r.businessLeadsPct <= 100.0 && 0.0 <= r.informationRequestsPct <= 100.0
    ensures 0.0 <= r.otherPct <= 100.0
  {
    var total := |emails|;
    if total == 0 then Statistics(0, 0, 0, 0, 0.0, 0.0, 0.0, 0)
    else
      var b := CountCategory(emails, BusinessLead);
      var i := CountCategory(emails, InformationRequest);
      var o := CountCategory(emails, Other);
      ThreeCounts(emails);
      var pb, pi, po := Percent(b, total), Percent(i, total), Percent(o, total);
      Statistics(total, b, i, o, pb, pi, po, CountHighConfidence(emails))
  }

  /** With emails, each percentage is its count's share of the total, times 100. */
  lemma StatisticsPercentages(emails: seq<Classified>)
    requires |emails| > 0
    ensures var r := GenerateStatistics(emails);
      IsShare(r.businessLeadsPct, r.businessLeads, r.total) &&
      IsShare(r.informationRequestsPct, r.informationRequests, r.total) &&
      IsShare(r.otherPct, r.other, r.total)
  {
    var r := GenerateStatistics(emails);
    assert r.businessLeadsPct == Percent(r.businessLeads, r.total);
    assert r.informationRequestsPct == Percent(r.informationRequests, r.total);
    assert r.otherPct == Percent(r.other, r.total);
  }

  /** The three categories are told apart. */
  predicate IsKnown(c: string) {
    c == BusinessLead || c == InformationRequest || c == Other
  }

  /**
   * The three counts together never exceed the number of emails, and reach it exactly
   * when every email has one of the three categories.
   */
  lemma {:induction false} ThreeCounts(emails: seq<Classified>)
    ensures var n := CountCategory(emails, BusinessLead) + CountCategory(emails, InformationRequest)
                   + CountCategory(emails, Other);
      n <= |emails| &&
      (n == |emails| <==> forall i :: 0 <= i < |emails| ==> IsKnown(emails[i].category))
  {
    if |emails| > 0 {
      ThreeCounts(emails[1..]);
      assert forall i :: 1 <= i < |emails| ==> emails[i] == emails[1..][i - 1];
      if forall i :: 0 <= i < |emails| ==> IsKnown(emails[i].category) {
        assert forall i :: 0 <= i < |emails[1..]| ==> IsKnown(emails[1..][i].category) by {
          forall i | 0 <= i < |emails[1..]| ensures IsKnown(emails[1..][i].category) {
            assert emails[1..][i] == emails[i + 1];
          }
        }
      }
    }
  }

  /** A category's count is the multiplicity of that category among the emails' categories. */
  lemma {:induction false} CountIsMultiplicity(emails: seq<Classified>, c: string)
    ensures CountCategory(emails, c) == multiset(Categories(emails))[c]
  {
    if |emails| > 0 {
      CountIsMultiplicity(emails[1..], c);
      assert Categories(emails) == [emails[0].category] + Categories(emails[1..]);
    }
  }

  /** The statistics' counts are the multiplicities of the three categories. */
  lemma StatisticsCounts(emails: seq<Classified>)
    ensures var r := GenerateStatistics(emails); var m := multiset(Categories(emails));
      r.businessLeads == m[BusinessLead] && r.informationRequests == m[InformationRequest] &&
      r.other == m[Other]
  {
    CountIsMultiplicity(emails, BusinessLead);
    CountIsMultiplicity(emails, InformationRequest);
    CountIsMultiplicity(emails, Other);
  }

  /** Every email is counted once exactly when each has one of the three categories. */
  lemma StatisticsPartition(emails: seq<Classified>)
    ensures var r := GenerateStatistics(emails);
      r.businessLeads + r.informationRequests + r.other == r.total <==>
      forall i :: 0 <= i < |emails| ==> IsKnown(emails[i].category)
  {
    ThreeCounts(emails);
  }
}
