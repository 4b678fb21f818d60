/** The per-block rates of lines 168-192 of the loader. Each block's rates are
    computed over that block's engaged, non-repeat trials; a rate over no
    trials is undefined (numpy's 0/0 NaN). */
module BlockRates {
  import opened Wrappers
  import opened Masks
  import opened SignalDetection
  import opened TrialClassifier

  /** The ten rates the loader appends for one block. */
  datatype BlockMetrics = BlockMetrics(
    catchResponseRate: Option<real>,
    hitRate: Option<real>,
    hitCount: nat,
    falseAlarmRate: Option<real>,
    falseAlarmSameModal: Option<real>,
    falseAlarmOtherModalGo: Option<real>,
    falseAlarmOtherModalNogo: Option<real>,
    dprimeSameModal: Option<real>,
    dprimeOtherModalGo: Option<real>,
    dprimeNonrewardedModal: Option<real>)

  /** Line 179: `(trialBlock == blockInd + 1) & engagedTrials & ~trialRepeat`. */
  function BlockUniverse(trialBlock: seq<int>, engagedTrials: seq<bool>, trialRepeat: seq<bool>, blockInd: nat): (u: seq<bool>)
    requires |engagedTrials| == |trialBlock| && |trialRepeat| == |trialBlock|
    ensures |u| == |trialBlock|
    ensures forall i :: 0 <= i < |u| ==>
      (u[i] <==> trialBlock[i] == blockInd + 1 && engagedTrials[i] && !trialRepeat[i])
  {
    var inBlock := seq(|trialBlock|, i requires 0 <= i < |trialBlock| => trialBlock[i] == blockInd + 1);
    And(And(inBlock, engagedTrials), Not(trialRepeat))
  }

  /** `x[m].sum()`: how many selected trials have `x` set. */
  function SelectCount(x: seq<bool>, m: seq<bool>): (k: nat)
    requires |x| == |m|
    ensures k <= CountTrue(m)
  {
    CountTrue(Compress(x, m))
  }

  /** The nesting of the masks that the classifier guarantees. */
  ghost predicate Nested(c: TrialCategories, nTrials: nat) {
    && WellFormed(c, nTrials)
    && (forall i :: 0 <= i < nTrials && c.hitTrials[i] ==> c.goTrials[i])
    && (forall i :: 0 <= i < nTrials && c.falseAlarmTrials[i] ==> c.nogoTrials[i])
    && (forall i :: 0 <= i < nTrials && c.catchResponseTrials[i] ==> c.catchTrials[i])
  }

  /** Every classification is nested. */
  lemma ClassifyIsNested(trialStim: seq<string>, rewardedStim: seq<string>, autoRewardScheduled: seq<bool>,
                         trialResponse: seq<bool>, blockStimRewarded: seq<string>, distract: bool)
    requires |rewardedStim| == |trialStim| && |autoRewardScheduled| == |trialStim| && |trialResponse| == |trialStim|
    ensures Nested(Classify(trialStim, rewardedStim, autoRewardScheduled, trialResponse, blockStimRewarded, distract), |trialStim|)
  {
  }

  /** The trial counts a block's rates rest on. */
  datatype BlockCounts = BlockCounts(
    catchCount: nat, catchResponseCount: nat,
    goCount: nat, hitCount: nat,
    nogoCount: nat, falseAlarmCount: nat,
    sameModalCount: nat, sameModalFalseAlarms: nat,
    otherModalGoCount: nat, otherModalGoFalseAlarms: nat,
    otherModalNogoCount: nat, otherModalNogoFalseAlarms: nat)

  /** The counts of lines 180-190 over the block's universe `u`. */
  function BlockCountsOf(c: TrialCategories, u: seq<bool>): (k: BlockCounts)
    requires WellFormed(c, |u|)
  {
    var sameModal := And(u, c.sameModalNogoTrials);
    var otherModalGo := And(u, c.otherModalGoTrials);
    var otherModalNogo := And(u, c.otherModalNogoTrials);
    BlockCounts(
      SelectCount(c.catchTrials, u), SelectCount(c.catchResponseTrials, u),
      SelectCount(c.goTrials, u), SelectCount(c.hitTrials, u),
      SelectCount(c.nogoTrials, u), SelectCount(c.falseAlarmTrials, u),
      CountTrue(sameModal), SelectCount(c.falseAlarmTrials, sameModal),
      CountTrue(otherModalGo), SelectCount(c.falseAlarmTrials, otherModalGo),
      CountTrue(otherModalNogo), SelectCount(c.falseAlarmTrials, otherModalNogo))
  }

  /** The rates and d' values of lines 180-192 from a block's counts. */
  function MetricsFromCounts(k: BlockCounts, probit: real -> real): (m: BlockMetrics) {
    var hitRate := Rate(k.hitCount, k.goCount);
    var falseAlarmSameModal := Rate(k.sameModalFalseAlarms, k.sameModalCount);
    var falseAlarmOtherModalGo := Rate(k.otherModalGoFalseAlarms, k.otherModalGoCount);
    var falseAlarmOtherModalNogo := Rate(k.otherModalNogoFalseAlarms, k.otherModalNogoCount);
    BlockMetrics(
      Rate(k.catchResponseCount, k.catchCount),
      hitRate,
      k.hitCount,
      Rate(k.falseAlarmCount, k.nogoCount),
      falseAlarmSameModal,
      falseAlarmOtherModalGo,
      falseAlarmOtherModalNogo,
      CalcDprime(hitRate, falseAlarmSameModal, k.goCount, k.sameModalCount, probit),
      CalcDprime(hitRate, falseAlarmOtherModalGo, k.goCount, k.otherModalGoCount, probit),
      CalcDprime(falseAlarmOtherModalGo, falseAlarmOtherModalNogo, k.otherModalGoCount, k.otherModalNogoCount, probit))
  }

  /** Lines 180-192 for one block, given its universe `u`. */
  function BlockMetricsOf(c: TrialCategories, u: seq<bool>, probit: real -> real): (m: BlockMetrics)
    requires WellFormed(c, |u|)
  {
    MetricsFromCounts(BlockCountsOf(c, u), probit)
  }

  /** Counting a sub-mask over a universe never exceeds counting the mask. */
  lemma SelectCountSubset(x: seq<bool>, y: seq<bool>, u: seq<bool>)
    requires |x| == |u| && |y| == |u|
    requires forall i :: 0 <= i < |u| && x[i] ==> y[i]
    ensures SelectCount(x, u) <= SelectCount(y, u)
  {
    CountCompress(x, u);
    CountCompress(y, u);
    CountTrueSubset(And(x, u), And(y, u));
  }

  /** `x[u].sum()` counts the trials where both `x` and `u` hold. */
  lemma SelectCountIsAndCount(x: seq<bool>, u: seq<bool>)
    requires |x| == |u|
    ensures SelectCount(x, u) == CountTrue(And(x, u))
  {
    CountCompress(x, u);
  }

  /** The hit count is at most the number of go trials in the block's universe,
      and every defined rate is a proportion in [0, 1]. */
  lemma BlockRatesAreProportions(c: TrialCategories, u: seq<bool>, probit: real -> real)
    requires Nested(c, |u|)
    ensures var m := BlockMetricsOf(c, u, probit);
      && m.hitCount <= SelectCount(c.goTrials, u)
      && (m.hitRate.Some? ==> 0.0 <= m.hitRate.value <= 1.0)
      && (m.catchResponseRate.Some? ==> 0.0 <= m.catchResponseRate.value <= 1.0)
      && (m.falseAlarmRate.Some? ==> 0.0 <= m.falseAlarmRate.value <= 1.0)
      && (m.falseAlarmSameModal.Some? ==> 0.0 <= m.falseAlarmSameModal.value <= 1.0)
      && (m.falseAlarmOtherModalGo.Some? ==> 0.0 <= m.falseAlarmOtherModalGo.value <= 1.0)
      && (m.falseAlarmOtherModalNogo.Some? ==> 0.0 <= m.falseAlarmOtherModalNogo.value <= 1.0)
  {
    SelectCountSubset(c.hitTrials, c.goTrials, u);
    SelectCountSubset(c.catchResponseTrials, c.catchTrials, u);
    SelectCountSubset(c.falseAlarmTrials, c.nogoTrials, u);
  }

  /** Each rate is undefined exactly when the block has no trial of its kind,
      and each d' is defined exactly when both of the trial counts it rests on
      are non-zero. */
  lemma BlockRatesDefinedness(c: TrialCategories, u: seq<bool>, probit: real -> real)
    requires Nested(c, |u|)
    ensures var m := BlockMetricsOf(c, u, probit);
      var goCount := CountTrue(And(c.goTrials, u));
      var sameModal := CountTrue(And(u, c.sameModalNogoTrials));
      var otherModalGo := CountTrue(And(u, c.otherModalGoTrials));
      var otherModalNogo := CountTrue(And(u, c.otherModalNogoTrials));
      && (m.hitRate.None? <==> goCount == 0)
      && (m.catchResponseRate.None? <==> CountTrue(And(c.catchTrials, u)) == 0)
      && (m.falseAlarmRate.None? <==> CountTrue(And(c.nogoTrials, u)) == 0)
      && (m.falseAlarmSameModal.None? <==> sameModal == 0)
      && (m.falseAlarmOtherModalGo.None? <==> otherModalGo == 0)
      && (m.falseAlarmOtherModalNogo.None? <==> otherModalNogo == 0)
      && (m.dprimeSameModal.Some? <==> goCount > 0 && sameModal > 0)
      && (m.dprimeOtherModalGo.Some? <==> goCount > 0 && otherModalGo > 0)
      && (m.dprimeNonrewardedModal.Some? <==> otherModalGo > 0 && otherModalNogo > 0)
  {
    var goCount := SelectCount(c.goTrials, u);
    SelectCountIsAndCount(c.goTrials, u);
    SelectCountIsAndCount(c.catchTrials, u);
    SelectCountIsAndCount(c.nogoTrials, u);
    SelectCountSubset(c.hitTrials, c.goTrials, u);
    var sameModal := And(u, c.sameModalNogoTrials);
    var otherModalGo := And(u, c.otherModalGoTrials);
    var otherModalNogo := And(u, c.otherModalNogoTrials);
    DprimeDefinedForCountRates(SelectCount(c.hitTrials, u), goCount,
      SelectCount(c.falseAlarmTrials, sameModal), CountTrue(sameModal), probit);
    DprimeDefinedForCountRates(SelectCount(c.hitTrials, u), goCount,
      SelectCount(c.falseAlarmTrials, otherModalGo), CountTrue(otherModalGo), probit);
    DprimeDefinedForCountRates(SelectCount(c.falseAlarmTrials, otherModalGo), CountTrue(otherModalGo),
      SelectCount(c.falseAlarmTrials, otherModalNogo), CountTrue(otherModalNogo), probit);
  }

  /** When every go trial of the block got a response the hit rate is 1 and the
      hit count is the go count; when no nogo trial did, the false-alarm rate is 0. */
  lemma BlockRateExtremes(c: TrialCategories, u: seq<bool>, probit: real -> real)
    requires Nested(c, |u|)
    ensures var m := BlockMetricsOf(c, u, probit);
      && ((forall i :: 0 <= i < |u| && u[i] && c.goTrials[i] ==> c.hitTrials[i]) && CountTrue(And(c.goTrials, u)) > 0 ==>
            m.hitRate == Some(1.0) && m.hitCount == CountTrue(And(c.goTrials, u)))
      && ((forall i :: 0 <= i < |u| && u[i] ==> !c.falseAlarmTrials[i]) && CountTrue(And(c.nogoTrials, u)) > 0 ==>
            m.falseAlarmRate == Some(0.0))
  {
    AllHitsCount(c, u);
    NoFalseAlarmsCount(c, u);
  }

  lemma AllHitsCount(c: TrialCategories, u: seq<bool>)
    requires Nested(c, |u|)
    ensures var k := BlockCountsOf(c, u);
      (forall i :: 0 <= i < |u| && u[i] && c.goTrials[i] ==> c.hitTrials[i]) ==>
        k.hitCount == k.goCount == CountTrue(And(c.goTrials, u))
  {
    SelectCountIsAndCount(c.goTrials, u);
    SelectCountIsAndCount(c.hitTrials, u);
    if forall i :: 0 <= i < |u| && u[i] && c.goTrials[i] ==> c.hitTrials[i] {
      assert And(c.hitTrials, u) == And(c.goTrials, u);
    }
  }

  lemma NoFalseAlarmsCount(c: TrialCategories, u: seq<bool>)
    requires Nested(c, |u|)
    ensures var k := BlockCountsOf(c, u);
      && k.nogoCount == CountTrue(And(c.nogoTrials, u))
      && ((forall i :: 0 <= i < |u| && u[i] ==> !c.falseAlarmTrials[i]) ==> k.falseAlarmCount == 0)
  {
    SelectCountIsAndCount(c.nogoTrials, u);
    SelectCountIsAndCount(c.falseAlarmTrials, u);
    if forall i :: 0 <= i < |u| && u[i] ==> !c.falseAlarmTrials[i] {
      CountTrueExtremes(And(c.falseAlarmTrials, u));
    }
  }

  /** A block with no catch trials in its universe has an undefined catch response rate. */
  lemma NoCatchTrialsNoCatchRate(c: TrialCategories, u: seq<bool>, probit: real -> real)
    requires WellFormed(c, |u|)
    requires forall i :: 0 <= i < |u| && u[i] ==> !c.catchTrials[i]
    ensures BlockMetricsOf(c, u, probit).catchResponseRate.None?
  {
    SelectCountIsAndCount(c.catchTrials, u);
    CountTrueExtremes(And(c.catchTrials, u));
  }

  /** Where two trial classifications agree on the block's universe, the
      block's metrics agree: trials outside the block, disengaged trials and
      repeats play no part. */
  lemma BlockMetricsLocal(c1: TrialCategories, c2: TrialCategories, u: seq<bool>, probit: real -> real)
    requires WellFormed(c1, |u|) && WellFormed(c2, |u|)
    requires forall i :: 0 <= i < |u| && u[i] ==>
      && c1.catchTrials[i] == c2.catchTrials[i]
      && c1.goTrials[i] == c2.goTrials[i]
      && c1.nogoTrials[i] == c2.nogoTrials[i]
      && c1.sameModalNogoTrials[i] == c2.sameModalNogoTrials[i]
      && c1.otherModalGoTrials[i] == c2.otherModalGoTrials[i]
      && c1.otherModalNogoTrials[i] == c2.otherModalNogoTrials[i]
      && c1.hitTrials[i] == c2.hitTrials[i]
      && c1.falseAlarmTrials[i] == c2.falseAlarmTrials[i]
      && c1.catchResponseTrials[i] == c2.catchResponseTrials[i]
    ensures BlockMetricsOf(c1, u, probit) == BlockMetricsOf(c2, u, probit)
  {
    BlockCountsLocal(c1, c2, u);
  }

  lemma BlockCountsLocal(c1: TrialCategories, c2: TrialCategories, u: seq<bool>)
    requires WellFormed(c1, |u|) && WellFormed(c2, |u|)
    requires forall i :: 0 <= i < |u| && u[i] ==>
      && c1.catchTrials[i] == c2.catchTrials[i]
      && c1.goTrials[i] == c2.goTrials[i]
      && c1.nogoTrials[i] == c2.nogoTrials[i]
      && c1.sameModalNogoTrials[i] == c2.sameModalNogoTrials[i]
      && c1.otherModalGoTrials[i] == c2.otherModalGoTrials[i]
      && c1.otherModalNogoTrials[i] == c2.otherModalNogoTrials[i]
      && c1.hitTrials[i] == c2.hitTrials[i]
      && c1.falseAlarmTrials[i] == c2.falseAlarmTrials[i]
      && c1.catchResponseTrials[i] == c2.catchResponseTrials[i]
    ensures BlockCountsOf(c1, u) == BlockCountsOf(c2, u)
  {
    SelectCountAgree(c1.catchTrials, c2.catchTrials, u);
    SelectCountAgree(c1.goTrials, c2.goTrials, u);
    SelectCountAgree(c1.nogoTrials, c2.nogoTrials, u);
    SelectCountAgree(c1.hitTrials, c2.hitTrials, u);
    SelectCountAgree(c1.falseAlarmTrials, c2.falseAlarmTrials, u);
    SelectCountAgree(c1.catchResponseTrials, c2.catchResponseTrials, u);
    SubUniverseAgree(c1.sameModalNogoTrials, c2.sameModalNogoTrials, c1.falseAlarmTrials, c2.falseAlarmTrials, u);
    SubUniverseAgree(c1.otherModalGoTrials, c2.otherModalGoTrials, c1.falseAlarmTrials, c2.falseAlarmTrials, u);
    SubUniverseAgree(c1.otherModalNogoTrials, c2.otherModalNogoTrials, c1.falseAlarmTrials, c2.falseAlarmTrials, u);
  }

  lemma SubUniverseAgree(m1: seq<bool>, m2: seq<bool>, x1: seq<bool>, x2: seq<bool>, u: seq<bool>)
    requires |m1| == |u| && |m2| == |u| && |x1| == |u| && |x2| == |u|
    requires forall i :: 0 <= i < |u| && u[i] ==> m1[i] == m2[i] && x1[i] == x2[i]
    ensures And(u, m1) == And(u, m2)
    ensures SelectCount(x1, And(u, m1)) == SelectCount(x2, And(u, m2))
  {
    assert And(u, m1) == And(u, m2);
    SelectCountAgree(x1, x2, And(u, m1));
  }

  lemma SelectCountAgree(x: seq<bool>, y: seq<bool>, u: seq<bool>)
    requires |x| == |u| && |y| == |u|
    requires forall i :: 0 <= i < |u| && u[i] ==> x[i] == y[i]
    ensures SelectCount(x, u) == SelectCount(y, u)
  {
    SelectCountIsAndCount(x, u);
    SelectCountIsAndCount(y, u);
    assert And(x, u) == And(y, u);
  }

  /** One entry per element of `blockStimRewarded`, in block order: entry b
      holds the metrics of the trials with `trialBlock == b + 1`. */
  function BlockMetricsList(c: TrialCategories, trialBlock: seq<int>, engagedTrials: seq<bool>, trialRepeat: seq<bool>,
                            nBlocks: nat, probit: real -> real): (l: seq<BlockMetrics>)
    requires |engagedTrials| == |trialBlock| && |trialRepeat| == |trialBlock| && WellFormed(c, |trialBlock|)
    ensures |l| == nBlocks
  {
    seq(nBlocks, b requires 0 <= b < nBlocks =>
      BlockMetricsOf(c, BlockUniverse(trialBlock, engagedTrials, trialRepeat, b), probit))
  }
}
