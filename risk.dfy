/**
 * Risk tiers.  Gender and Race/Ethnicity are rated by their largest
 * category percentage (a large one is a high risk); Age by the width of its
 * range (a narrow one is a high risk).  Every comparison is strict.
 */
module Risk {
  import opened Wrappers
  import opened AgeStats

  datatype Tier = Low | Medium | High

  /** The order of the tiers: Low < Medium < High. */
  function Rank(t: Tier): nat
  {
    match t
    case Low => 0
    case Medium => 1
    case High => 2
  }

  /** Thresholds on the largest percentage, in tenths: High above `high`,
      Medium above `medium`. */
  datatype ShareThresholds = ShareThresholds(high: nat, medium: nat)

  const GenderThresholds := ShareThresholds(750, 600)
  const RaceThresholds := ShareThresholds(700, 500)

  /** Thresholds on the age range, in years: High below `high`, Medium below `medium`. */
  datatype RangeThresholds = RangeThresholds(high: int, medium: int)

  const AgeThresholds := RangeThresholds(20, 40)

  /** The tier of a categorical distribution from its largest rounded
      percentage.  `None` is an empty distribution, whose `Math.max()` is
      -Infinity: it exceeds no threshold and is Low. */
  function ShareTier(maxShare: Option<nat>, th: ShareThresholds): (t: Tier)
    ensures t != Low ==> maxShare.Some?
    ensures th.medium <= th.high ==> (t == Low <==> maxShare.None? || maxShare.value <= th.medium)
  {
    match maxShare
    case None => Low
    case Some(m) => if m > th.high then High else if m > th.medium then Medium else Low
  }

  /** The tier of the Age distribution from its range.  With no parsed age the
      source's range is -Infinity, below every threshold: High. */
  function AgeTier(s: AgeSummary, th: RangeThresholds): (t: Tier)
    ensures t == Medium ==> s.Sample? && th.high <= s.Range() < th.medium
    ensures th.high <= th.medium ==> (t == Low <==> s.Sample? && s.Range() >= th.medium)
  {
    match s
    case NoSample => High
    case Sample(_, _, _, _) => RangeTier(s.Range(), th)
  }

  /** The tier of an age range: High below `high` years, Medium below `medium`. */
  function RangeTier(range: int, th: RangeThresholds): (t: Tier)
    ensures t == Medium <==> th.high <= range < th.medium
    ensures th.high <= th.medium ==> (t == Low <==> range >= th.medium)
  {
    if range < th.high then High else if range < th.medium then Medium else Low
  }

  /** A larger maximum percentage never gives a lower tier. */
  lemma ShareTierMonotone(a: nat, b: nat, th: ShareThresholds)
    requires th.medium <= th.high && a <= b
    ensures Rank(ShareTier(Some(a), th)) <= Rank(ShareTier(Some(b), th))
  {
  }

  /** The Age sense is inverted: a wider range never gives a higher tier. */
  lemma AgeTierAntitone(s: AgeSummary, t: AgeSummary, th: RangeThresholds)
    requires th.high <= th.medium
    requires s.Sample? && t.Sample? && s.Range() <= t.Range()
    ensures Rank(AgeTier(s, th)) >= Rank(AgeTier(t, th))
  {
  }

  /** The boundaries themselves are not exceeded: 75.0% of one gender is
      Medium and 60.0% is Low. */
  lemma GenderBoundaries()
    ensures ShareTier(Some(751), GenderThresholds) == High && ShareTier(Some(750), GenderThresholds) == Medium
    ensures ShareTier(Some(601), GenderThresholds) == Medium && ShareTier(Some(600), GenderThresholds) == Low
  {
  }

  /** 70.0% of one race is Medium and 50.0% is Low. */
  lemma RaceBoundaries()
    ensures ShareTier(Some(701), RaceThresholds) == High && ShareTier(Some(700), RaceThresholds) == Medium
    ensures ShareTier(Some(501), RaceThresholds) == Medium && ShareTier(Some(500), RaceThresholds) == Low
  {
  }

  /** An age range of exactly 20 years is Medium and of exactly 40 years Low. */
  lemma AgeBoundaries()
    ensures RangeTier(19, AgeThresholds) == High && RangeTier(20, AgeThresholds) == Medium
    ensures RangeTier(39, AgeThresholds) == Medium && RangeTier(40, AgeThresholds) == Low
  {
  }

  /** Ages 25, 25, 25, 26 (range 1) are High risk; ages 18 and 75 (range 57) are Low. */
  lemma AgeExamples()
    ensures AgeTier(Summarize([25, 25, 25, 26]), AgeThresholds) == High
    ensures AgeTier(Summarize([18, 75]), AgeThresholds) == Low
  {
    SummaryExamples();
  }
}
