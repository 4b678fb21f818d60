/** The running totals of `generate_cumulative_volume` and
    `generate_cumulative_reward_count`: a list of cumulative values is consumed
    from the front, one value per rewarded trial, and every trial records the
    value most recently taken (0 before the first reward). */
module Cumulative {
  import opened Wrappers
  import opened Masks
  import opened SessionLoader

  /** The number of rewarded trials up to and including trial j. */
  function RewardsUpTo(rewarded: seq<bool>, j: nat): (k: nat)
    requires j < |rewarded|
    ensures k <= CountTrue(rewarded)
  {
    CountTruePrefixMonotone(rewarded, j + 1, |rewarded|);
    assert rewarded[..|rewarded|] == rewarded;
    CountTrue(rewarded[..j + 1])
  }

  /** The value recorded once k totals have been taken: the k-th, or 0 before any. */
  function TotalAt(totals: seq<real>, k: nat): real
    requires k <= |totals|
  {
    if k == 0 then 0.0 else totals[k - 1]
  }

  /** The per-trial series the loop builds, defined trial by trial. */
  function InterTrialTotals(totals: seq<real>, rewarded: seq<bool>): (r: seq<real>)
    requires CountTrue(rewarded) <= |totals|
    ensures |r| == |rewarded|
  {
    seq(|rewarded|, j requires 0 <= j < |rewarded| => TotalAt(totals, RewardsUpTo(rewarded, j)))
  }

  /** Extending the trials by one extends the series by that trial's value. */
  lemma InterTrialTotalsSnoc(totals: seq<real>, rewarded: seq<bool>, n: nat)
    requires n < |rewarded| && CountTrue(rewarded[..n + 1]) <= |totals|
    ensures CountTrue(rewarded[..n]) <= |totals|
    ensures InterTrialTotals(totals, rewarded[..n + 1])
         == InterTrialTotals(totals, rewarded[..n]) + [TotalAt(totals, CountTrue(rewarded[..n + 1]))]
  {
    CountTrueStep(rewarded, n);
    var p, q := rewarded[..n + 1], rewarded[..n];
    var l, r := InterTrialTotals(totals, p), InterTrialTotals(totals, q);
    forall j | 0 <= j < n ensures l[j] == r[j] {
      assert p[..j + 1] == q[..j + 1];
    }
    assert p[..n + 1] == p;
  }

  /** Lines 464-467 (and 489-492): pops the next total at each rewarded trial
      and records the last popped total. `pop(0)` on an exhausted list raises
      IndexError; that is `None`, and it happens exactly when there are more
      rewarded trials than totals. */
  method RunningTotalByTrial(totals: seq<real>, trialRewarded: seq<bool>) returns (r: Option<seq<real>>)
    ensures r.Some? <==> CountTrue(trialRewarded) <= |totals|
    ensures r.Some? ==> r.value == InterTrialTotals(totals, trialRewarded)
  {
    var remaining := totals;
    var interTrial: seq<real> := [];
    var prev := 0.0;
    assert trialRewarded[..0] == [];
    for trial := 0 to |trialRewarded|
      invariant CountTrue(trialRewarded[..trial]) <= |totals|
      invariant remaining == totals[CountTrue(trialRewarded[..trial])..]
      invariant prev == TotalAt(totals, CountTrue(trialRewarded[..trial]))
      invariant interTrial == InterTrialTotals(totals, trialRewarded[..trial])
    {
      CountTrueStep(trialRewarded, trial);
      if trialRewarded[trial] {
        if remaining == [] {
          CountTruePrefixMonotone(trialRewarded, trial + 1, |trialRewarded|);
          assert trialRewarded[..|trialRewarded|] == trialRewarded;
          return None;
        }
        prev := remaining[0];
        remaining := remaining[1..];
      }
      InterTrialTotalsSnoc(totals, trialRewarded, trial);
      interTrial := interTrial + [prev];
    }
    assert trialRewarded[..|trialRewarded|] == trialRewarded;
    r := Some(interTrial);
  }

  /** A trial without a reward repeats the previous trial's value; a rewarded
      trial takes the next total. */
  lemma InterTrialTotalsStep(totals: seq<real>, rewarded: seq<bool>, j: nat)
    requires CountTrue(rewarded) <= |totals| && 0 < j < |rewarded|
    ensures var r := InterTrialTotals(totals, rewarded);
      var k := RewardsUpTo(rewarded, j - 1);
      && (!rewarded[j] ==> r[j] == r[j - 1])
      && (rewarded[j] ==> k < |totals| && r[j] == totals[k])
  {
    CountTrueStep(rewarded, j);
    assert RewardsUpTo(rewarded, j) == RewardsUpTo(rewarded, j - 1) + (if rewarded[j] then 1 else 0);
  }

  /** Over the cumulative sums of `xs`, trial j's value is the sum of the first
      k terms of `xs`, k being the number of rewarded trials up to j. */
  lemma InterTrialTotalsOfCumSum(xs: seq<real>, rewarded: seq<bool>, j: nat)
    requires CountTrue(rewarded) <= |xs| && j < |rewarded|
    ensures InterTrialTotals(CumSum(xs), rewarded)[j] == Sum(xs[..RewardsUpTo(rewarded, j)])
  {
    if RewardsUpTo(rewarded, j) == 0 {
      assert xs[..0] == [];
    }
  }

  /** With no negative reward size the cumulative series never goes down. */
  lemma InterTrialCumSumNonDecreasing(xs: seq<real>, rewarded: seq<bool>)
    requires CountTrue(rewarded) <= |xs|
    requires forall k :: 0 <= k < |xs| ==> xs[k] >= 0.0
    ensures NonDecreasingReals(InterTrialTotals(CumSum(xs), rewarded))
  {
    var r := InterTrialTotals(CumSum(xs), rewarded);
    forall i, j | 0 <= i <= j < |r| ensures r[i] <= r[j] {
      InterTrialTotalsOfCumSum(xs, rewarded, i);
      InterTrialTotalsOfCumSum(xs, rewarded, j);
      CountTruePrefixMonotone(rewarded, i + 1, j + 1);
      SumPrefixMonotone(xs, RewardsUpTo(rewarded, i), RewardsUpTo(rewarded, j));
    }
  }

  /** `generate_cumulative_volume` (lines 459-467): the volume delivered up to
      each trial. Trial j's value is the sum of the first k reward sizes, k
      being the number of rewarded trials up to j; the series never decreases
      when no reward size is negative. The reward-count helper (lines 484-492)
      runs this same computation. */
  method CumulativeVolume(s: Session) returns (r: Option<seq<real>>)
    requires ValidSession(s)
    ensures r.Some? <==> CountTrue(s.trialRewarded) <= |s.rewardSize|
    ensures r.Some? ==> |r.value| == s.nTrials
    ensures r.Some? ==> forall j :: 0 <= j < s.nTrials ==>
      r.value[j] == Sum(s.rewardSize[..RewardsUpTo(s.trialRewarded, j)])
    ensures r.Some? && (forall k :: 0 <= k < |s.rewardSize| ==> s.rewardSize[k] >= 0.0) ==>
      NonDecreasingReals(r.value)
  {
    r := RunningTotalByTrial(CumSum(s.rewardSize), s.trialRewarded);
    if r.Some? {
      forall j | 0 <= j < s.nTrials
        ensures r.value[j] == Sum(s.rewardSize[..RewardsUpTo(s.trialRewarded, j)])
      {
        InterTrialTotalsOfCumSum(s.rewardSize, s.trialRewarded, j);
      }
      if forall k :: 0 <= k < |s.rewardSize| ==> s.rewardSize[k] >= 0.0 {
        InterTrialCumSumNonDecreasing(s.rewardSize, s.trialRewarded);
      }
    }
  }

  /** The reward-count helper as written cumulates the reward sizes: two
      rewards of 0.005 mL give the series 0.005, 0.01 instead of the counts 1, 2. */
  lemma RewardCountAsWrittenSumsVolumes()
    ensures InterTrialTotals(CumSum([0.005, 0.005]), [true, true]) == [0.005, 0.01]
    ensures InterTrialTotals(CumSum([0.005, 0.005]), [true, true]) != [1.0, 2.0]
  {
    var xs, m := [0.005, 0.005], [true, true];
    assert m[..1] == [true] && m[..2] == m;
    assert CountTrue([true]) == 1 by { assert [true][..0] == []; }
    assert CountTrue(m) == 2;
    InterTrialTotalsOfCumSum(xs, m, 0);
    InterTrialTotalsOfCumSum(xs, m, 1);
    assert xs[..1] == [0.005] && xs[..2] == xs;
    assert Sum([0.005]) == 0.005 by { assert [0.005][..0] == []; }
  }

  /** One reward per element of `rewardSize`. */
  function Ones(n: nat): (r: seq<real>)
    ensures |r| == n && forall k :: 0 <= k < n ==> r[k] == 1.0
  {
    seq(n, k requires 0 <= k < n => 1.0)
  }

  /** The cumulative reward count as evidently intended: the same loop over
      `np.cumsum` of one per reward, so trial j records how many rewarded
      trials there have been up to and including j. */
  method CumulativeRewardCount(s: Session) returns (r: Option<seq<real>>)
    requires ValidSession(s)
    ensures r.Some? <==> CountTrue(s.trialRewarded) <= |s.rewardSize|
    ensures r.Some? ==> |r.value| == s.nTrials
    ensures r.Some? ==> forall j :: 0 <= j < s.nTrials ==> r.value[j] == RewardsUpTo(s.trialRewarded, j) as real
  {
    var ones := Ones(|s.rewardSize|);
    r := RunningTotalByTrial(CumSum(ones), s.trialRewarded);
    if r.Some? {
      forall j | 0 <= j < s.nTrials ensures r.value[j] == RewardsUpTo(s.trialRewarded, j) as real {
        InterTrialTotalsOfCumSum(ones, s.trialRewarded, j);
        SumOfOnes(ones[..RewardsUpTo(s.trialRewarded, j)]);
      }
    }
  }
}
