/**
 * The campaign copy generator: a three-tier choice of tone keyed on the
 * urgency score, followed by string templating of a headline, a body and an
 * ask. The cluster id is accepted and ignored.
 */
module Content {

  datatype Tier = Urgent | Update | Baseline

  datatype CampaignCopy = CampaignCopy(headline: string, body: string, ask: string)

  /** Above this score the copy is urgent ... */
  const UrgentAbove: real := 0.7
  /** ... and above this one it is an update; otherwise it is the baseline appeal. */
  const UpdateAbove: real := 0.4

  /** The tier for an urgency score, with strict comparisons at both thresholds. */
  function SelectTier(urgency: real): (t: Tier)
    ensures t == Urgent <==> urgency > 0.7
    ensures t == Update <==> 0.4 < urgency <= 0.7
    ensures t == Baseline <==> urgency <= 0.4
  {
    if urgency > UrgentAbove then Urgent
    else if urgency > UpdateAbove then Update
    else Baseline
  }

  /** How urgent a tier is: Baseline < Update < Urgent. */
  function Rank(t: Tier): nat {
    match t
    case Baseline => 0
    case Update => 1
    case Urgent => 2
  }

  /** Raising the urgency never moves the copy to a less urgent tier. */
  lemma TierMonotone(lower: real, higher: real)
    requires lower <= higher
    ensures Rank(SelectTier(lower)) <= Rank(SelectTier(higher))
  {
  }

  function Tone(t: Tier): string {
    match t
    case Urgent => "URGENT ACTION REQUIRED"
    case Update => "Update on Crisis"
    case Baseline => "Support Our Mission"
  }

  /** The body templates, each split around the crisis name. */
  function BodyBefore(t: Tier): string {
    match t
    case Urgent => "The situation with "
    case Update => "We are monitoring "
    case Baseline => "As we look at the impact of "
  }

  function BodyAfter(t: Tier): string {
    match t
    case Urgent => " is critical. Data indicates you are one of our most reliable supporters. We need you now."
    case Update => " closely. Your support has always been vital. Can you help today?"
    case Baseline => ", we are reminded of the power of community. Join us."
  }

  // ---------------------------------------------------------------------
  // Decimal rendering of the ask amount (Python str of an int)
  // ---------------------------------------------------------------------

  predicate IsDigit(c: char) { '0' <= c <= '9' }

  function DigitChar(d: nat): (c: char)
    requires d < 10
    ensures IsDigit(c)
  {
    ['0', '1', '2', '3', '4', '5', '6', '7', '8', '9'][d]
  }

  function DigitValue(c: char): (d: nat)
    requires IsDigit(c)
    ensures d < 10
  {
    (c as int - '0' as int) as nat
  }

  /** The decimal digits of n, most significant first, without leading zeros. */
  function NatToString(n: nat): (s: string)
    ensures |s| > 0 && forall i :: 0 <= i < |s| ==> IsDigit(s[i])
    ensures |s| > 1 ==> s[0] != '0'
  {
    if n < 10 then [DigitChar(n)]
    else NatToString(n / 10) + [DigitChar(n % 10)]
  }

  /** str(n): an optional minus sign followed by the digits of |n|. */
  function IntToString(n: int): (s: string)
    ensures |s| > 0
    ensures (s[0] == '-') <==> n < 0
    ensures forall i :: 0 < i < |s| ==> IsDigit(s[i])
  {
    if n < 0 then "-" + NatToString(-n) else NatToString(n)
  }

  /** The value of a string of decimal digits. */
  function ParseDigits(s: string): nat
    requires forall i :: 0 <= i < |s| ==> IsDigit(s[i])
  {
    if s == [] then 0
    else 10 * ParseDigits(s[..|s| - 1]) + DigitValue(s[|s| - 1])
  }

  /** Reading the digits back gives the number. */
  lemma {:induction false} ParseNatToString(n: nat)
    ensures ParseDigits(NatToString(n)) == n
  {
    var s := NatToString(n);
    if n >= 10 {
      ParseNatToString(n / 10);
      assert s[..|s| - 1] == NatToString(n / 10);
    }
  }

  /** An optional minus sign followed by decimal digits. */
  predicate IsIntLiteral(s: string) {
    |s| > 0 && (s[0] == '-' || IsDigit(s[0])) && forall i :: 0 < i < |s| ==> IsDigit(s[i])
  }

  /** The value of an integer literal. */
  function ParseInt(s: string): int
    requires IsIntLiteral(s)
  {
    if s[0] == '-' then -(ParseDigits(s[1..]) as int) else ParseDigits(s)
  }

  /** Reading the rendered integer back gives the integer. */
  lemma ParseIntToString(n: int)
    ensures IsIntLiteral(IntToString(n)) && ParseInt(IntToString(n)) == n
  {
    if n < 0 {
      var m: nat := -n;
      var t := NatToString(m);
      assert IntToString(n) == "-" + t;
      ParseNegative(t);
      ParseNatToString(m);
    } else {
      var t := NatToString(n);
      assert IntToString(n) == t;
      ParseNonNegative(t);
      ParseNatToString(n);
    }
  }

  /** Digits without a sign read as their value. */
  lemma ParseNonNegative(t: string)
    requires |t| > 0 && forall i :: 0 <= i < |t| ==> IsDigit(t[i])
    ensures IsIntLiteral(t) && ParseInt(t) == ParseDigits(t)
  {
  }

  /** A minus sign before digits reads as the negated digits. */
  lemma ParseNegative(t: string)
    requires |t| > 0 && forall i :: 0 <= i < |t| ==> IsDigit(t[i])
    ensures IsIntLiteral("-" + t) && ParseInt("-" + t) == -(ParseDigits(t) as int)
  {
    assert ("-" + t)[1..] == t;
  }

  /** Different amounts are rendered differently. */
  lemma IntToStringInjective(a: int, b: int)
    requires IntToString(a) == IntToString(b)
    ensures a == b
  {
    ParseIntToString(a);
    ParseIntToString(b);
  }

  // ---------------------------------------------------------------------
  // The copy
  // ---------------------------------------------------------------------

  ghost predicate OccursAt(s: string, sub: string, k: int) {
    0 <= k && k + |sub| <= |s| && s[k..k + |sub|] == sub
  }

  ghost predicate Contains(s: string, sub: string) {
    exists k :: OccursAt(s, sub, k)
  }

  lemma ContainsMiddle(before: string, sub: string, after: string)
    ensures Contains(before + sub + after, sub)
  {
    assert (before + sub + after)[|before|..|before| + |sub|] == sub;
    assert OccursAt(before + sub + after, sub, |before|);
  }

  /**
   * generate_copy: the tone of the urgency tier in the headline, the tier's
   * body around the crisis name, and the ask for the amount.
   */
  function GenerateCopy(clusterId: int, urgency: real, crisisName: string, askAmount: int): (copy: CampaignCopy)
    ensures copy.headline == Tone(SelectTier(urgency)) + ": Help " + crisisName + " Victims"
    ensures copy.ask == "Please donate $" + IntToString(askAmount) + "."
    ensures Contains(copy.body, crisisName)
  {
    var tier := SelectTier(urgency);
    ContainsMiddle(BodyBefore(tier), crisisName, BodyAfter(tier));
    CampaignCopy(
      Tone(tier) + ": Help " + crisisName + " Victims",
      BodyBefore(tier) + crisisName + BodyAfter(tier),
      "Please donate $" + IntToString(askAmount) + ".")
  }

  /** Scores above 0.7 give the urgent headline and body. */
  lemma UrgentCopy(clusterId: int, urgency: real, crisisName: string, askAmount: int)
    requires urgency > 0.7
    ensures GenerateCopy(clusterId, urgency, crisisName, askAmount).headline
      == "URGENT ACTION REQUIRED: Help " + crisisName + " Victims"
    ensures GenerateCopy(clusterId, urgency, crisisName, askAmount).body
      == "The situation with " + crisisName
         + " is critical. Data indicates you are one of our most reliable supporters. We need you now."
  {
    assert SelectTier(urgency) == Urgent;
  }

  /** Scores in (0.4, 0.7] give the update headline and body; exactly 0.7 is in this tier. */
  lemma UpdateCopy(clusterId: int, urgency: real, crisisName: string, askAmount: int)
    requires 0.4 < urgency <= 0.7
    ensures GenerateCopy(clusterId, urgency, crisisName, askAmount).headline
      == "Update on Crisis: Help " + crisisName + " Victims"
    ensures GenerateCopy(clusterId, urgency, crisisName, askAmount).body
      == "We are monitoring " + crisisName + " closely. Your support has always been vital. Can you help today?"
  {
    assert SelectTier(urgency) == Update;
  }

  /** Scores up to 0.4 give the baseline headline and body; exactly 0.4 is in this tier. */
  lemma BaselineCopy(clusterId: int, urgency: real, crisisName: string, askAmount: int)
    requires urgency <= 0.4
    ensures GenerateCopy(clusterId, urgency, crisisName, askAmount).headline
      == "Support Our Mission: Help " + crisisName + " Victims"
    ensures GenerateCopy(clusterId, urgency, crisisName, askAmount).body
      == "As we look at the impact of " + crisisName + ", we are reminded of the power of community. Join us."
  {
    assert SelectTier(urgency) == Baseline;
  }

  /** The cluster id never influences the copy. */
  lemma ClusterIgnored(c1: int, c2: int, urgency: real, crisisName: string, askAmount: int)
    ensures GenerateCopy(c1, urgency, crisisName, askAmount) == GenerateCopy(c2, urgency, crisisName, askAmount)
  {
  }

  /** The ask names the amount: two different amounts never give the same ask. */
  lemma AskDeterminesAmount(c: int, urgency: real, crisisName: string, a1: int, a2: int)
    requires GenerateCopy(c, urgency, crisisName, a1).ask == GenerateCopy(c, urgency, crisisName, a2).ask
    ensures a1 == a2
  {
    var s1 := GenerateCopy(c, urgency, crisisName, a1).ask;
    var s2 := GenerateCopy(c, urgency, crisisName, a2).ask;
    var p := "Please donate $";
    assert IntToString(a1) == s1[|p|..|s1| - 1];
    assert IntToString(a2) == s2[|p|..|s2| - 1];
    IntToStringInjective(a1, a2);
  }
}
