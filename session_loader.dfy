/** The derivation half of `DynRoutData.loadBehavData`: from the arrays read out
    of a behaviour file to the time-aligned session the classifier works on
    (frame timeline, per-trial times, trial numbering within blocks, the
    auto-reward flags of legacy files, and the merged lick times). */
module SessionLoader {
  import opened Wrappers
  import opened Masks

  /** Lick detections closer together than this (in seconds) are one lick. */
  const MinLickInterval: real := 0.05

  // ---------------------------------------------------------------------
  // Frame timeline

  /** `np.concatenate(([0], np.cumsum(frameIntervals)))`. */
  function FrameTimes(frameIntervals: seq<real>): (t: seq<real>)
    ensures |t| == |frameIntervals| + 1
  {
    [0.0] + CumSum(frameIntervals)
  }

  /** Frame k starts at the sum of the first k frame intervals. */
  lemma FrameTimeIsPrefixSum(frameIntervals: seq<real>, k: nat)
    requires k <= |frameIntervals|
    ensures FrameTimes(frameIntervals)[k] == Sum(frameIntervals[..k])
  {
    if k == 0 {
      assert frameIntervals[..0] == [];
    }
  }

  /** The timeline starts at 0 and each frame time adds one interval to the previous one. */
  lemma FrameTimesTimeline(frameIntervals: seq<real>)
    ensures FrameTimes(frameIntervals)[0] == 0.0
    ensures forall k :: 1 <= k <= |frameIntervals| ==>
      FrameTimes(frameIntervals)[k] == FrameTimes(frameIntervals)[k - 1] + frameIntervals[k - 1]
  {
    forall k | 1 <= k <= |frameIntervals|
      ensures FrameTimes(frameIntervals)[k] == FrameTimes(frameIntervals)[k - 1] + frameIntervals[k - 1]
    {
      FrameTimeIsPrefixSum(frameIntervals, k);
      FrameTimeIsPrefixSum(frameIntervals, k - 1);
      SumStep(frameIntervals, k - 1);
    }
  }

  ghost predicate NonDecreasingReals(t: seq<real>) {
    forall i, j :: 0 <= i <= j < |t| ==> t[i] <= t[j]
  }

  /** With no negative interval the timeline never goes backwards. */
  lemma FrameTimesNonDecreasing(frameIntervals: seq<real>)
    requires forall k :: 0 <= k < |frameIntervals| ==> frameIntervals[k] >= 0.0
    ensures NonDecreasingReals(FrameTimes(frameIntervals))
  {
    forall i, j | 0 <= i <= j < |FrameTimes(frameIntervals)|
      ensures FrameTimes(frameIntervals)[i] <= FrameTimes(frameIntervals)[j]
    {
      FrameTimeIsPrefixSum(frameIntervals, i);
      FrameTimeIsPrefixSum(frameIntervals, j);
      SumPrefixMonotone(frameIntervals, i, j);
    }
  }

  // ---------------------------------------------------------------------
  // Trial numbering within blocks: `np.unique` and the concatenated aranges

  predicate StrictlyIncreasing(u: seq<int>) {
    forall i, j :: 0 <= i < j < |u| ==> u[i] < u[j]
  }

  predicate NonDecreasing(s: seq<int>) {
    forall i, j :: 0 <= i <= j < |s| ==> s[i] <= s[j]
  }

  /** Inserts `x` into an ascending sequence, unless it is already there. */
  function InsertSorted(u: seq<int>, x: int): seq<int> {
    if u == [] then [x]
    else if x < u[0] then [x] + u
    else if x == u[0] then u
    else [u[0]] + InsertSorted(u[1..], x)
  }

  /** Insertion keeps a strictly increasing sequence strictly increasing and
      adds exactly `x` to its elements. */
  lemma {:induction false} InsertSortedSpec(u: seq<int>, x: int)
    requires StrictlyIncreasing(u)
    ensures StrictlyIncreasing(InsertSorted(u, x))
    ensures forall y :: y in InsertSorted(u, x) <==> y in u || y == x
  {
    if u != [] && x > u[0] {
      var tail := u[1..];
      assert StrictlyIncreasing(tail);
      InsertSortedSpec(tail, x);
      assert u == [u[0]] + tail;
      ConsIncreasing(u[0], InsertSorted(tail, x));
    }
  }

  lemma ConsIncreasing(h: int, rest: seq<int>)
    requires StrictlyIncreasing(rest)
    requires forall y :: y in rest ==> h < y
    ensures StrictlyIncreasing([h] + rest)
  {
    var r := [h] + rest;
    forall i, j | 0 <= i < j < |r| ensures r[i] < r[j] {
      assert r[j] == rest[j - 1] && rest[j - 1] in rest;
      if i > 0 {
        assert r[i] == rest[i - 1];
      }
    }
  }

  /** `np.unique(s)`: the distinct values of `s` in ascending order. */
  function Unique(s: seq<int>): seq<int> {
    if s == [] then [] else InsertSorted(Unique(s[..|s| - 1]), s[|s| - 1])
  }

  /** `Unique(s)` is strictly increasing and holds exactly the values of `s`. */
  lemma {:induction false} UniqueSpec(s: seq<int>)
    ensures StrictlyIncreasing(Unique(s))
    ensures forall y :: y in Unique(s) <==> y in s
  {
    if s != [] {
      var t := s[..|s| - 1];
      UniqueSpec(t);
      InsertSortedSpec(Unique(t), s[|s| - 1]);
      assert s == t + [s[|s| - 1]];
    }
  }

  /** `np.arange(c)`. */
  function Range(c: nat): (r: seq<nat>)
    ensures |r| == c && forall k :: 0 <= k < c ==> r[k] == k
  {
    seq(c, k requires 0 <= k < c => k)
  }

  /** The number of trials of `s` carrying any of the block values `vals`. */
  function Occurrences(vals: seq<int>, s: seq<int>): nat {
    if vals == [] then 0 else multiset(s)[vals[0]] + Occurrences(vals[1..], s)
  }

  /** `np.concatenate([np.arange(np.sum(s == v)) for v in vals])`. */
  function BlockTrialOver(vals: seq<int>, s: seq<int>): (r: seq<nat>)
    ensures |r| == Occurrences(vals, s)
  {
    if vals == [] then [] else Range(multiset(s)[vals[0]]) + BlockTrialOver(vals[1..], s)
  }

  /** The within-block trial number, as line 77 of the loader computes it. */
  function BlockTrial(trialBlock: seq<int>): seq<nat> {
    BlockTrialOver(Unique(trialBlock), trialBlock)
  }

  lemma {:induction false} OccurrencesSnoc(vals: seq<int>, t: seq<int>, x: int)
    ensures Occurrences(vals, t + [x]) == Occurrences(vals, t) + multiset(vals)[x]
  {
    assert multiset(t + [x]) == multiset(t) + multiset{x};
    if vals != [] {
      assert vals == [vals[0]] + vals[1..];
      OccurrencesSnoc(vals[1..], t, x);
    }
  }

  lemma {:induction false} StrictlyIncreasingMultiplicity(u: seq<int>, x: int)
    requires StrictlyIncreasing(u)
    ensures multiset(u)[x] == if x in u then 1 else 0
  {
    if u != [] {
      assert u == [u[0]] + u[1..];
      assert StrictlyIncreasing(u[1..]);
      StrictlyIncreasingMultiplicity(u[1..], x);
      if x == u[0] {
        assert x !in u[1..];
      }
    }
  }

  lemma {:induction false} OccurrencesInsert(u: seq<int>, x: int, s: seq<int>)
    requires StrictlyIncreasing(u)
    ensures Occurrences(InsertSorted(u, x), s) == Occurrences(u, s) + (if x in u then 0 else multiset(s)[x])
  {
    if u == [] {
    } else if x < u[0] {
      assert ([x] + u)[1..] == u;
    } else if x == u[0] {
    } else {
      assert StrictlyIncreasing(u[1..]);
      OccurrencesInsert(u[1..], x, s);
      assert ([u[0]] + InsertSorted(u[1..], x))[1..] == InsertSorted(u[1..], x);
      assert x in u <==> x in u[1..];
    }
  }

  /** The numbering has one entry per trial, whatever order the block values come in. */
  lemma {:induction false} BlockTrialLength(s: seq<int>)
    ensures |BlockTrial(s)| == |s|
  {
    OccurrencesOfUnique(s);
  }

  lemma {:induction false} OccurrencesOfUnique(s: seq<int>)
    ensures Occurrences(Unique(s), s) == |s|
  {
    if s != [] {
      var t, x := s[..|s| - 1], s[|s| - 1];
      assert s == t + [x];
      var u := Unique(t);
      UniqueSpec(t);
      OccurrencesOfUnique(t);
      OccurrencesInsert(u, x, s);
      OccurrencesSnoc(u, t, x);
      StrictlyIncreasingMultiplicity(u, x);
      assert multiset(s)[x] == multiset(t)[x] + 1;
      if x !in u {
        assert x !in t;
        assert multiset(t)[x] == 0;
      }
    }
  }

  /** Inserting a value no smaller than the last element appends it, unless it is already there. */
  lemma {:induction false} InsertMax(u: seq<int>, x: int)
    requires StrictlyIncreasing(u)
    requires u == [] || u[|u| - 1] <= x
    ensures InsertSorted(u, x) == if u != [] && u[|u| - 1] == x then u else u + [x]
  {
    if u != [] {
      assert u[0] <= u[|u| - 1];
      if x != u[0] {
        var rest := u[1..];
        assert StrictlyIncreasing(rest);
        if rest == [] {
          assert InsertSorted(rest, x) == [x];
        } else {
          assert rest[|rest| - 1] == u[|u| - 1];
          InsertMax(rest, x);
        }
        assert InsertSorted(u, x) == [u[0]] + InsertSorted(rest, x);
        assert [u[0]] + rest == u;
        assert [u[0]] + (rest + [x]) == u + [x];
      }
    }
  }

  lemma {:induction false} BlockTrialOverAppend(a: seq<int>, b: seq<int>, s: seq<int>)
    ensures BlockTrialOver(a + b, s) == BlockTrialOver(a, s) + BlockTrialOver(b, s)
  {
    if a == [] {
      assert a + b == b;
    } else {
      assert (a + b)[0] == a[0] && (a + b)[1..] == a[1..] + b;
      BlockTrialOverAppend(a[1..], b, s);
      assert BlockTrialOver(a + b, s) == Range(multiset(s)[a[0]]) + BlockTrialOver(a[1..] + b, s);
    }
  }

  lemma {:induction false} BlockTrialOverOther(vals: seq<int>, t: seq<int>, x: int)
    requires x !in vals
    ensures BlockTrialOver(vals, t + [x]) == BlockTrialOver(vals, t)
  {
    if vals != [] {
      var v := vals[0];
      assert v != x;
      assert multiset(t + [x]) == multiset(t) + multiset{x};
      assert multiset(t + [x])[v] == multiset(t)[v];
      assert x !in vals[1..];
      BlockTrialOverOther(vals[1..], t, x);
    }
  }

  lemma BlockTrialOverSingle(x: int, s: seq<int>)
    ensures BlockTrialOver([x], s) == Range(multiset(s)[x])
  {
    assert [x][1..] == [];
    assert Range(multiset(s)[x]) + [] == Range(multiset(s)[x]);
  }

  lemma RangeSnoc(c: nat)
    ensures Range(c + 1) == Range(c) + [c]
  {
  }

  lemma UniqueSnoc(t: seq<int>, x: int)
    ensures Unique(t + [x]) == InsertSorted(Unique(t), x)
  {
    assert (t + [x])[..|t + [x]| - 1] == t;
  }

  lemma MultiplicitySnoc(t: seq<int>, x: int, v: int)
    ensures multiset(t + [x])[v] == multiset(t)[v] + (if v == x then 1 else 0)
  {
    assert multiset(t + [x]) == multiset(t) + multiset{x};
  }

  /** Numbering over block values ending in x: one more trial of block x adds
      its rank at the end and changes nothing before it. */
  lemma BlockTrialOverSnoc(v: seq<int>, t: seq<int>, x: int)
    requires x !in v
    ensures BlockTrialOver(v + [x], t + [x]) == BlockTrialOver(v + [x], t) + [multiset(t)[x]]
  {
    var c := multiset(t)[x];
    BlockTrialOverAppend(v, [x], t + [x]);
    BlockTrialOverAppend(v, [x], t);
    BlockTrialOverOther(v, t, x);
    BlockTrialOverSingle(x, t + [x]);
    BlockTrialOverSingle(x, t);
    MultiplicitySnoc(t, x, x);
    RangeSnoc(c);
  }

  /** One more trial of the last block value `x` adds its rank at the end. */
  lemma BlockTrialOverExisting(u: seq<int>, t: seq<int>, x: int)
    requires StrictlyIncreasing(u) && u != [] && u[|u| - 1] == x
    ensures BlockTrialOver(u, t + [x]) == BlockTrialOver(u, t) + [multiset(t)[x]]
  {
    var u' := u[..|u| - 1];
    assert u == u' + [x];
    assert x !in u' by {
      forall k | 0 <= k < |u'| ensures u'[k] != x {
        assert u[k] < u[|u| - 1];
      }
    }
    BlockTrialOverSnoc(u', t, x);
  }

  /** A trial of a new block value `x` is numbered 0, after the existing numbering. */
  lemma BlockTrialOverNew(u: seq<int>, t: seq<int>, x: int)
    requires x !in u && x !in t
    ensures BlockTrialOver(u + [x], t + [x]) == BlockTrialOver(u, t) + [multiset(t)[x]]
  {
    assert multiset(t)[x] == 0;
    BlockTrialOverSnoc(u, t, x);
    BlockTrialOverAppend(u, [x], t);
    BlockTrialOverSingle(x, t);
    assert BlockTrialOver(u, t) + [] == BlockTrialOver(u, t);
  }

  /** Appending a trial of the highest block so far appends its rank within that block. */
  lemma {:induction false} BlockTrialSnoc(t: seq<int>, x: int)
    requires forall y :: y in t ==> y <= x
    ensures BlockTrial(t + [x]) == BlockTrial(t) + [multiset(t)[x]]
  {
    var u := Unique(t);
    UniqueSnoc(t, x);
    UniqueSpec(t);
    if u != [] {
      assert u[|u| - 1] in t;
    }
    InsertMax(u, x);
    if u != [] && u[|u| - 1] == x {
      BlockTrialOverExisting(u, t, x);
    } else {
      assert x !in u by {
        forall k | 0 <= k < |u| ensures u[k] != x {
          assert u[k] <= u[|u| - 1];
        }
      }
      BlockTrialOverNew(u, t, x);
    }
  }

  /** When trial blocks never go down, trial j's number is how many earlier
      trials belong to its block, i.e. trials are numbered 0, 1, 2, ... within
      each block. */
  lemma {:induction false} BlockTrialIsRankWithinBlock(s: seq<int>)
    requires NonDecreasing(s)
    ensures |BlockTrial(s)| == |s|
    ensures forall j :: 0 <= j < |s| ==> BlockTrial(s)[j] == multiset(s[..j])[s[j]]
  {
    BlockTrialLength(s);
    if s != [] {
      var t, x := s[..|s| - 1], s[|s| - 1];
      assert s == t + [x];
      assert NonDecreasing(t);
      BlockTrialIsRankWithinBlock(t);
      assert forall y :: y in t ==> y <= x;
      BlockTrialSnoc(t, x);
      forall j | 0 <= j < |s| ensures BlockTrial(s)[j] == multiset(s[..j])[s[j]] {
        if j < |t| {
          assert s[..j] == t[..j];
        } else {
          assert s[..j] == t;
        }
      }
    }
  }

  /** `np.where(s == v)[0][0]`: the first trial carrying block value `v`. */
  function FirstIndex(s: seq<int>, v: int): (k: nat)
    requires v in s
    ensures k < |s| && s[k] == v && v !in s[..k]
  {
    if s[0] == v then 0
    else
      var k := FirstIndex(s[1..], v);
      assert s[..k + 1] == [s[0]] + s[1..][..k];
      k + 1
  }

  /** The first trial of each block, in ascending block order. */
  function BlockFirstTrials(trialBlock: seq<int>): (r: seq<nat>)
    ensures |r| == |Unique(trialBlock)|
    ensures forall b :: 0 <= b < |r| ==> r[b] < |trialBlock| && trialBlock[r[b]] == Unique(trialBlock)[b]
    ensures forall b :: 0 <= b < |r| ==> Unique(trialBlock)[b] !in trialBlock[..r[b]]
  {
    var u := Unique(trialBlock);
    UniqueSpec(trialBlock);
    seq(|u|, b requires 0 <= b < |u| => FirstIndex(trialBlock, u[b]))
  }

  // ---------------------------------------------------------------------
  // Auto-rewarded trials

  /** What a file provides about auto-rewarded trials: current files have both
      `trialAutoRewardScheduled` and `trialAutoRewarded`; older files have only
      `trialAutoRewarded`, which then carries the schedule. */
  datatype AutoRewardFields =
    | WithSchedule(trialAutoRewardScheduled: seq<bool>, trialAutoRewarded: seq<bool>)
    | RewardedOnly(trialAutoRewarded: seq<bool>)

  datatype AutoRewards = AutoRewards(scheduled: seq<bool>, rewarded: seq<bool>)

  datatype LoadError =
    | IndexOutOfRange(field: string)  // numpy IndexError when indexing with this field
    | TooShort(field: string)         // a per-trial array with fewer than nTrials entries
    | NoTrials                        // np.concatenate of no arrays raises ValueError

  /** Lines 90-100 of the loader. `deliveredAtOnset[i]` says whether a reward
      frame equals trial i's stimulus onset frame plus the auto-reward onset. */
  function AutoRewardFlags(f: AutoRewardFields, nTrials: nat, blockTrial: seq<nat>, newBlockAutoRewards: int,
                           deliveredAtOnset: seq<bool>): (r: Result<AutoRewards, LoadError>)
    requires |blockTrial| == nTrials && |deliveredAtOnset| == nTrials
    ensures r.Success? <==> f.WithSchedule? || |f.trialAutoRewarded| >= nTrials
    ensures r.Success? ==> |r.value.scheduled| == nTrials && |r.value.rewarded| == nTrials
    // the schedule of a file too short for it: the first newBlockAutoRewards trials of each block
    ensures r.Success? && f.WithSchedule? && |f.trialAutoRewardScheduled| < nTrials ==>
      forall i :: 0 <= i < nTrials ==> r.value.scheduled[i] == (blockTrial[i] < newBlockAutoRewards)
    // whenever the rewarded flags are rebuilt, they are the scheduled trials whose reward was delivered
    ensures r.Success? && (f.RewardedOnly? || |f.trialAutoRewarded| < nTrials) ==>
      forall i :: 0 <= i < nTrials ==> r.value.rewarded[i] == (r.value.scheduled[i] && deliveredAtOnset[i])
    // flags read from the file are kept, truncated to nTrials
    ensures r.Success? && f.WithSchedule? && |f.trialAutoRewardScheduled| >= nTrials ==>
      r.value.scheduled == f.trialAutoRewardScheduled[..nTrials]
    ensures r.Success? && |f.trialAutoRewarded| >= nTrials ==>
      (if f.WithSchedule? then r.value.rewarded else r.value.scheduled) == f.trialAutoRewarded[..nTrials]
  {
    match f
    case WithSchedule(scheduled0, rewarded0) =>
      var scheduled1 := Truncate(scheduled0, nTrials);
      var rewarded1 := Truncate(rewarded0, nTrials);
      var scheduled := if |scheduled1| < nTrials
        then seq(nTrials, i requires 0 <= i < nTrials => blockTrial[i] < newBlockAutoRewards)
        else scheduled1;
      var rewarded := if |rewarded1| < nTrials then And(scheduled, deliveredAtOnset) else rewarded1;
      Success(AutoRewards(scheduled, rewarded))
    case RewardedOnly(rewarded0) =>
      var scheduled := Truncate(rewarded0, nTrials);
      if |scheduled| < nTrials then Failure(TooShort("trialAutoRewarded"))
      else Success(AutoRewards(scheduled, And(scheduled, deliveredAtOnset)))
  }

  /** On both reconstruction paths an auto-rewarded trial is a scheduled one. */
  lemma ReconstructedAutoRewardIsScheduled(f: AutoRewardFields, nTrials: nat, blockTrial: seq<nat>,
                                           newBlockAutoRewards: int, deliveredAtOnset: seq<bool>, i: nat)
    requires |blockTrial| == nTrials && |deliveredAtOnset| == nTrials && i < nTrials
    requires f.RewardedOnly? || |f.trialAutoRewarded| < nTrials
    requires AutoRewardFlags(f, nTrials, blockTrial, newBlockAutoRewards, deliveredAtOnset).Success?
    ensures
      var a := AutoRewardFlags(f, nTrials, blockTrial, newBlockAutoRewards, deliveredAtOnset).value;
      a.rewarded[i] ==> a.scheduled[i]
  {
  }

  // ---------------------------------------------------------------------
  // Lick times

  /** `np.concatenate(([True], np.diff(t) > minLickInterval))`. */
  function LickMask(t: seq<real>): (m: seq<bool>)
    ensures |m| == |t|
    ensures forall i :: 0 <= i < |t| ==> (m[i] <==> i == 0 || t[i] - t[i - 1] > MinLickInterval)
  {
    seq(|t|, i requires 0 <= i < |t| => i == 0 || t[i] - t[i - 1] > MinLickInterval)
  }

  /** On the non-empty detections the loader merges, the mask is
      `np.concatenate(([True], np.diff(t) > 0.05))` built from numpy's
      difference array. */
  lemma LickMaskOfDiff(t: seq<real>)
    requires |t| > 0
    ensures LickMask(t) == [true] + Above(Diff(t), MinLickInterval)
  {
    var rhs := [true] + Above(Diff(t), MinLickInterval);
    forall i | 0 <= i < |t| ensures LickMask(t)[i] == rhs[i] {
      if i > 0 {
        assert rhs[i] == Above(Diff(t), MinLickInterval)[i - 1];
      }
    }
  }

  /** Detected lick times with each detection closer than 0.05 s to the previous
      detection dropped. */
  function MergeLicks(detected: seq<real>): seq<real> {
    Compress(detected, LickMask(detected))
  }

  /** Nothing detected, nothing kept; otherwise the first detection is kept. */
  lemma MergeLicksKeepsFirst(detected: seq<real>)
    ensures MergeLicks(detected) == [] <==> detected == []
    ensures detected != [] ==> MergeLicks(detected)[0] == detected[0]
  {
    if detected != [] {
      var idx := CompressPositions(detected, LickMask(detected));
      assert 0 in idx;
      var k :| 0 <= k < |idx| && idx[k] == 0;
      assert idx[0] <= idx[k];
    }
  }

  /** The merged licks are a subsequence of the detections, taken at exactly
      the positions of the first detection and of every detection more than
      0.05 s after the one before it. */
  lemma MergeLicksPositions(detected: seq<real>) returns (idx: seq<nat>)
    ensures |idx| == |MergeLicks(detected)|
    ensures forall k, l :: 0 <= k < l < |idx| ==> idx[k] < idx[l]
    ensures forall k :: 0 <= k < |idx| ==> idx[k] < |detected| && MergeLicks(detected)[k] == detected[idx[k]]
    ensures forall k :: 0 <= k < |idx| ==> idx[k] == 0 || detected[idx[k]] - detected[idx[k] - 1] > MinLickInterval
    ensures forall i :: 0 <= i < |detected| && (i == 0 || detected[i] - detected[i - 1] > MinLickInterval) ==> i in idx
  {
    idx := CompressPositions(detected, LickMask(detected));
  }

  /** On time-ordered detections merging is idempotent: every gap between kept
      licks is at least the gap before the later one, which exceeds 0.05 s. */
  lemma MergeLicksIdempotent(detected: seq<real>)
    requires NonDecreasingReals(detected)
    ensures MergeLicks(MergeLicks(detected)) == MergeLicks(detected)
  {
    var r := MergeLicks(detected);
    var idx := MergeLicksPositions(detected);
    forall j | 0 <= j < |r| ensures LickMask(r)[j] {
      if j > 0 {
        assert idx[j - 1] < idx[j];
        assert detected[idx[j - 1]] <= detected[idx[j] - 1];
      }
    }
    CompressAllTrue(r, LickMask(r));
  }

  /** The rule compares each detection with the previous detection, not with
      the previous kept lick: a train of detections 0.03 s apart merges into
      its first lick, although its third detection is 0.06 s after that lick. */
  lemma MergeLicksComparesRawNeighbours()
    ensures MergeLicks([0.0, 0.03, 0.06, 0.09]) == [0.0]
  {
    var d := [0.0, 0.03, 0.06, 0.09];
    var m := LickMask(d);
    assert m == [true, false, false, false];
    assert d[..0] == [] && m[..0] == [];
    CompressStep(d, m, 0);
    CompressStep(d, m, 1);
    CompressStep(d, m, 2);
    CompressStep(d, m, 3);
    assert d[..4] == d && m[..4] == m;
  }

  /** Line 107-114: merged lick times, or the IndexError of a bad lick frame. */
  function LickTimes(frameTimes: seq<real>, lickFrames: seq<int>): (r: Option<seq<real>>)
    ensures r.Some? <==> AllValidIndices(|frameTimes|, lickFrames)
    ensures lickFrames == [] ==> r == Some([])
  {
    if |lickFrames| > 0 then
      match Take(frameTimes, lickFrames)
      case None => None
      case Some(detected) => Some(MergeLicks(detected))
    else Some([])
  }

  /** Every lick time is a time of the frame timeline, and the first detected
      lick is always kept. */
  lemma LickTimesAreFrameTimes(frameTimes: seq<real>, lickFrames: seq<int>)
    requires LickTimes(frameTimes, lickFrames).Some?
    ensures var l := LickTimes(frameTimes, lickFrames).value;
      && (forall k :: 0 <= k < |l| ==> l[k] in frameTimes)
      && (lickFrames != [] ==> l != [] && l[0] == frameTimes[NpIndex(|frameTimes|, lickFrames[0])])
  {
    if |lickFrames| > 0 {
      var detected := Take(frameTimes, lickFrames).value;
      var l := MergeLicks(detected);
      MergeLicksKeepsFirst(detected);
      var idx := MergeLicksPositions(detected);
      forall k | 0 <= k < |l| ensures l[k] in frameTimes {
        assert l[k] == detected[idx[k]];
      }
    }
  }

  // ---------------------------------------------------------------------
  // Raw and loaded sessions

  /** The arrays of one behaviour file that the analysis reads, as stored.
      Frame and block indices are integers as numpy would index with them. */
  datatype RawSession = RawSession(
    frameIntervals: seq<real>,
    trialEndFrame: seq<int>,
    trialStartFrame: seq<int>,
    trialStimStartFrame: seq<int>,
    newBlockAutoRewards: int,
    autoRewardOnsetFrame: int,
    trialRepeat: seq<bool>,
    trialStim: seq<string>,
    trialBlock: seq<int>,
    blockStimRewarded: seq<string>,
    rewardFrames: seq<int>,
    rewardSize: seq<real>,
    trialResponse: seq<bool>,
    trialRewarded: seq<bool>,
    autoRewardFields: AutoRewardFields,
    lickFrames: seq<int>)

  /** The loaded, time-aligned session. */
  datatype Session = Session(
    frameTimes: seq<real>,
    trialEndTimes: seq<real>,
    nTrials: nat,
    trialStartTimes: seq<real>,
    stimStartTimes: seq<real>,
    trialRepeat: seq<bool>,
    trialStim: seq<string>,
    trialBlock: seq<int>,
    blockTrial: seq<nat>,
    blockStartTimes: seq<real>,
    blockFirstStimTimes: seq<real>,
    blockStimRewarded: seq<string>,
    rewardedStim: seq<string>,
    rewardTimes: seq<real>,
    rewardSize: seq<real>,
    trialResponse: seq<bool>,
    trialRewarded: seq<bool>,
    autoRewardScheduled: seq<bool>,
    autoRewarded: seq<bool>,
    rewardEarned: seq<bool>,
    lickTimes: seq<real>)

  /** What every loaded session satisfies. */
  ghost predicate ValidSession(s: Session) {
    && |s.frameTimes| >= 1
    && s.nTrials > 0
    && |s.trialEndTimes| == s.nTrials
    && |s.trialStartTimes| == s.nTrials
    && |s.stimStartTimes| == s.nTrials
    && |s.trialRepeat| == s.nTrials
    && |s.trialStim| == s.nTrials
    && |s.trialBlock| == s.nTrials
    && |s.blockTrial| == s.nTrials
    && |s.rewardedStim| == s.nTrials
    && |s.trialResponse| == s.nTrials
    && |s.trialRewarded| == s.nTrials
    && |s.autoRewardScheduled| == s.nTrials
    && |s.autoRewarded| == s.nTrials
    && |s.rewardEarned| == s.nTrials
    && |s.blockStartTimes| == |Unique(s.trialBlock)|
    && |s.blockFirstStimTimes| == |Unique(s.trialBlock)|
    && (forall i :: 0 <= i < s.nTrials ==> s.rewardedStim[i] in s.blockStimRewarded)
    && (forall i :: 0 <= i < s.nTrials ==> s.rewardEarned[i] == (s.trialRewarded[i] && !s.autoRewarded[i]))
  }

  /** `d[field][:nTrials]` for a per-trial array. */
  function PerTrial<T>(a: seq<T>, nTrials: nat, field: string): (r: Result<seq<T>, LoadError>)
    ensures r.Success? <==> |a| >= nTrials
    ensures r.Success? ==> r.value == a[..nTrials]
    ensures r.Failure? ==> r.error == TooShort(field)
  {
    var t := Truncate(a, nTrials);
    if |t| < nTrials then Failure(TooShort(field)) else Success(t)
  }

  /** A fancy-indexing result, or the IndexError it raises. */
  function Indexed<T>(taken: Option<seq<T>>, field: string): (r: Result<seq<T>, LoadError>)
    ensures r.Success? <==> taken.Some?
    ensures r.Success? ==> r.value == taken.value
    ensures r.Failure? ==> r.error == IndexOutOfRange(field)
  {
    if taken.None? then Failure(IndexOutOfRange(field)) else Success(taken.value)
  }

  /** Lines 49-55: the frame timeline and the trial end, start and stimulus times. */
  datatype TrialTimes = TrialTimes(frameTimes: seq<real>, trialEndTimes: seq<real>, nTrials: nat,
                                   trialStartTimes: seq<real>, stimStartTimes: seq<real>)

  ghost predicate TimesLoadable(raw: RawSession) {
    var nFrameTimes := |raw.frameIntervals| + 1;
    var n := |raw.trialEndFrame|;
    && AllValidIndices(nFrameTimes, raw.trialEndFrame)
    && |raw.trialStartFrame| >= n && AllValidIndices(nFrameTimes, raw.trialStartFrame[..n])
    && |raw.trialStimStartFrame| >= n && AllValidIndices(nFrameTimes, raw.trialStimStartFrame[..n])
  }

  function LoadTrialTimes(raw: RawSession): (r: Result<TrialTimes, LoadError>)
    ensures r.Success? <==> TimesLoadable(raw)
    ensures r.Success? ==>
      var t := r.value;
      && t.nTrials == |raw.trialEndFrame|
      && t.frameTimes == FrameTimes(raw.frameIntervals)
      && |t.trialEndTimes| == t.nTrials && |t.trialStartTimes| == t.nTrials && |t.stimStartTimes| == t.nTrials
      && (forall i :: 0 <= i < t.nTrials ==> t.trialEndTimes[i] == t.frameTimes[NpIndex(|t.frameTimes|, raw.trialEndFrame[i])])
      && (forall i :: 0 <= i < t.nTrials ==> t.trialStartTimes[i] == t.frameTimes[NpIndex(|t.frameTimes|, raw.trialStartFrame[i])])
      && (forall i :: 0 <= i < t.nTrials ==> t.stimStartTimes[i] == t.frameTimes[NpIndex(|t.frameTimes|, raw.trialStimStartFrame[i])])
  {
    var frameTimes := FrameTimes(raw.frameIntervals);
    var trialEndTimes :- Indexed(Take(frameTimes, raw.trialEndFrame), "trialEndFrame");
    var n := |raw.trialEndFrame|;
    var trialStartFrame :- PerTrial(raw.trialStartFrame, n, "trialStartFrame");
    var trialStartTimes :- Indexed(Take(frameTimes, trialStartFrame), "trialStartFrame");
    var stimStartFrame :- PerTrial(raw.trialStimStartFrame, n, "trialStimStartFrame");
    var stimStartTimes :- Indexed(Take(frameTimes, stimStartFrame), "trialStimStartFrame");
    Success(TrialTimes(frameTimes, trialEndTimes, n, trialStartTimes, stimStartTimes))
  }

  /** Lines 65 and 75-81: repeats, stimuli, blocks and what each block rewards. */
  datatype TrialLabels = TrialLabels(trialRepeat: seq<bool>, trialStim: seq<string>, trialBlock: seq<int>,
                                     blockTrial: seq<nat>, firstTrials: seq<nat>, rewardedStim: seq<string>)

  ghost predicate LabelsLoadable(raw: RawSession, n: nat) {
    && |raw.trialRepeat| >= n
    && |raw.trialStim| >= n
    && |raw.trialBlock| >= n
    && n > 0
    && (forall i :: 0 <= i < n ==> ValidIndex(|raw.blockStimRewarded|, raw.trialBlock[i] - 1))
  }

  /** `trialBlock - 1`: blocks are numbered from 1, `blockStimRewarded` from 0. */
  function BlockIndices(trialBlock: seq<int>): (r: seq<int>)
    ensures |r| == |trialBlock|
    ensures forall i :: 0 <= i < |r| ==> r[i] == trialBlock[i] - 1
  {
    seq(|trialBlock|, i requires 0 <= i < |trialBlock| => trialBlock[i] - 1)
  }

  /** Block b reads `blockStimRewarded[b - 1]`: blocks 1..len read entries
      0..len-1, and numpy still accepts the block numbers 1-len..0, which
      wrap to the end (block 0 reads the last entry). */
  lemma BlockIndexRead(trialBlock: seq<int>, len: nat, i: nat)
    requires i < |trialBlock|
    ensures ValidIndex(len, BlockIndices(trialBlock)[i]) <==> 1 - len <= trialBlock[i] <= len
    ensures 1 <= trialBlock[i] <= len ==> NpIndex(len, BlockIndices(trialBlock)[i]) == trialBlock[i] - 1
    ensures 1 - len <= trialBlock[i] <= 0 ==> NpIndex(len, BlockIndices(trialBlock)[i]) == len + trialBlock[i] - 1
    ensures len > 0 && trialBlock[i] == 0 ==> NpIndex(len, BlockIndices(trialBlock)[i]) == len - 1
  {
  }

  function LoadTrialLabels(raw: RawSession, n: nat): (r: Result<TrialLabels, LoadError>)
    ensures r.Success? <==> LabelsLoadable(raw, n)
    ensures r.Success? ==>
      var l := r.value;
      && l.trialRepeat == raw.trialRepeat[..n] && l.trialStim == raw.trialStim[..n] && l.trialBlock == raw.trialBlock[..n]
      && l.blockTrial == BlockTrial(l.trialBlock) && |l.blockTrial| == n
      && l.firstTrials == BlockFirstTrials(l.trialBlock)
      && |l.rewardedStim| == n
      && (forall i :: 0 <= i < n ==>
            l.rewardedStim[i] == raw.blockStimRewarded[NpIndex(|raw.blockStimRewarded|, l.trialBlock[i] - 1)])
  {
    var trialRepeat :- PerTrial(raw.trialRepeat, n, "trialRepeat");
    var trialStim :- PerTrial(raw.trialStim, n, "trialStim");
    var trialBlock :- PerTrial(raw.trialBlock, n, "trialBlock");
    var _ :- Need(n > 0, NoTrials);
    var blockTrial := BlockTrial(trialBlock);
    BlockTrialLength(trialBlock);
    var rewardedStim :- Indexed(Take(raw.blockStimRewarded, BlockIndices(trialBlock)), "trialBlock");
    Success(TrialLabels(trialRepeat, trialStim, trialBlock, blockTrial, BlockFirstTrials(trialBlock), rewardedStim))
  }

  /** Lines 83-100: reward times, responses and the auto-reward flags. */
  datatype TrialRewards = TrialRewards(rewardTimes: seq<real>, trialResponse: seq<bool>, trialRewarded: seq<bool>,
                                       auto: AutoRewards)

  ghost predicate RewardsLoadable(raw: RawSession, n: nat) {
    && AllValidIndices(|raw.frameIntervals| + 1, raw.rewardFrames)
    && |raw.trialResponse| >= n
    && |raw.trialRewarded| >= n
    && (raw.autoRewardFields.WithSchedule? || |raw.autoRewardFields.trialAutoRewarded| >= n)
  }

  /** `np.in1d(stimStartFrame + autoRewardOnsetFrame, rewardFrames)`. */
  function DeliveredAtOnset(raw: RawSession, n: nat): (d: seq<bool>)
    requires |raw.trialStimStartFrame| >= n
    ensures |d| == n
    ensures forall i :: 0 <= i < n ==> (d[i] <==> raw.trialStimStartFrame[i] + raw.autoRewardOnsetFrame in raw.rewardFrames)
  {
    In1d(seq(n, i requires 0 <= i < n => raw.trialStimStartFrame[i] + raw.autoRewardOnsetFrame), raw.rewardFrames)
  }

  function LoadTrialRewards(raw: RawSession, frameTimes: seq<real>, n: nat, blockTrial: seq<nat>): (r: Result<TrialRewards, LoadError>)
    requires frameTimes == FrameTimes(raw.frameIntervals)
    requires |raw.trialStimStartFrame| >= n && |blockTrial| == n
    ensures r.Success? <==> RewardsLoadable(raw, n)
    ensures r.Success? ==>
      var w := r.value;
      && |w.rewardTimes| == |raw.rewardFrames|
      && (forall k :: 0 <= k < |raw.rewardFrames| ==> w.rewardTimes[k] == frameTimes[NpIndex(|frameTimes|, raw.rewardFrames[k])])
      && w.trialResponse == raw.trialResponse[..n] && w.trialRewarded == raw.trialRewarded[..n]
      && AutoRewardFlags(raw.autoRewardFields, n, blockTrial, raw.newBlockAutoRewards, DeliveredAtOnset(raw, n)) == Success(w.auto)
      && |w.auto.scheduled| == n && |w.auto.rewarded| == n
  {
    var rewardTimes :- Indexed(Take(frameTimes, raw.rewardFrames), "rewardFrames");
    var trialResponse :- PerTrial(raw.trialResponse, n, "trialResponse");
    var trialRewarded :- PerTrial(raw.trialRewarded, n, "trialRewarded");
    var auto :- AutoRewardFlags(raw.autoRewardFields, n, blockTrial, raw.newBlockAutoRewards, DeliveredAtOnset(raw, n));
    Success(TrialRewards(rewardTimes, trialResponse, trialRewarded, auto))
  }

  /** Every condition under which lines 48-101 and 107-114 of the loader
      raise, in terms of the raw arrays (the response times of line 105 are
      not part of this model). */
  ghost predicate Loadable(raw: RawSession) {
    var n := |raw.trialEndFrame|;
    && TimesLoadable(raw)
    && LabelsLoadable(raw, n)
    && RewardsLoadable(raw, n)
    && AllValidIndices(|raw.frameIntervals| + 1, raw.lickFrames)
  }

  /** Lines 78-79 and 101: block start times and earned rewards, put
      together with the loaded arrays. */
  function AssembleSession(times: TrialTimes, labels: TrialLabels, rewards: TrialRewards,
                           blockStimRewarded: seq<string>, rewardSize: seq<real>, lickTimes: seq<real>): (s: Session)
    requires |times.frameTimes| >= 1 && times.nTrials > 0
    requires |times.trialEndTimes| == times.nTrials && |times.trialStartTimes| == times.nTrials
    requires |times.stimStartTimes| == times.nTrials
    requires |labels.trialRepeat| == times.nTrials && |labels.trialStim| == times.nTrials
    requires |labels.trialBlock| == times.nTrials && |labels.blockTrial| == times.nTrials
    requires labels.firstTrials == BlockFirstTrials(labels.trialBlock)
    requires |labels.rewardedStim| == times.nTrials
    requires forall i :: 0 <= i < times.nTrials ==> labels.rewardedStim[i] in blockStimRewarded
    requires |rewards.trialResponse| == times.nTrials && |rewards.trialRewarded| == times.nTrials
    requires |rewards.auto.scheduled| == times.nTrials && |rewards.auto.rewarded| == times.nTrials
    ensures ValidSession(s)
    ensures s.nTrials == times.nTrials
    ensures |s.blockStartTimes| == |labels.firstTrials|
    ensures forall b :: 0 <= b < |labels.firstTrials| ==>
      s.blockStartTimes[b] == times.trialStartTimes[labels.firstTrials[b]]
      && s.blockFirstStimTimes[b] == times.stimStartTimes[labels.firstTrials[b]]
    ensures s.frameTimes == times.frameTimes && s.trialEndTimes == times.trialEndTimes
    ensures s.trialStartTimes == times.trialStartTimes && s.stimStartTimes == times.stimStartTimes
    ensures s.trialRepeat == labels.trialRepeat && s.trialStim == labels.trialStim
    ensures s.trialBlock == labels.trialBlock && s.blockTrial == labels.blockTrial
    ensures s.blockStimRewarded == blockStimRewarded && s.rewardedStim == labels.rewardedStim
    ensures s.rewardTimes == rewards.rewardTimes && s.rewardSize == rewardSize
    ensures s.trialResponse == rewards.trialResponse && s.trialRewarded == rewards.trialRewarded
    ensures s.autoRewardScheduled == rewards.auto.scheduled && s.autoRewarded == rewards.auto.rewarded
    ensures s.lickTimes == lickTimes
  {
    var n := times.nTrials;
    var firstTrials := labels.firstTrials;
    var blockStartTimes := seq(|firstTrials|, b requires 0 <= b < |firstTrials| => times.trialStartTimes[firstTrials[b]]);
    var blockFirstStimTimes := seq(|firstTrials|, b requires 0 <= b < |firstTrials| => times.stimStartTimes[firstTrials[b]]);
    var rewardEarned := And(rewards.trialRewarded, Not(rewards.auto.rewarded));
    Session(
      times.frameTimes, times.trialEndTimes, n, times.trialStartTimes, times.stimStartTimes,
      labels.trialRepeat, labels.trialStim, labels.trialBlock, labels.blockTrial, blockStartTimes, blockFirstStimTimes,
      blockStimRewarded, labels.rewardedStim, rewards.rewardTimes, rewardSize,
      rewards.trialResponse, rewards.trialRewarded, rewards.auto.scheduled, rewards.auto.rewarded, rewardEarned, lickTimes)
  }

  /** The per-trial arrays of a loaded session, in terms of the raw arrays:
      each time is the frame time at numpy's index of its frame, each label
      array is the first `nTrials` entries of its raw array, and a trial's
      rewarded stimulus is that of its block. */
  ghost predicate TrialArraysOf(raw: RawSession, s: Session)
    requires ValidSession(s)
  {
    TimesOf(raw, s) && LabelsOf(raw, s) && RewardsOf(raw, s)
  }

  ghost predicate TimesOf(raw: RawSession, s: Session)
    requires ValidSession(s)
  {
    var n := s.nTrials;
    && |raw.trialEndFrame| == n && |raw.trialStartFrame| >= n && |raw.trialStimStartFrame| >= n
    && AllValidIndices(|s.frameTimes|, raw.trialEndFrame)
    && AllValidIndices(|s.frameTimes|, raw.trialStartFrame[..n])
    && AllValidIndices(|s.frameTimes|, raw.trialStimStartFrame[..n])
    && (forall i :: 0 <= i < n ==> s.trialEndTimes[i] == s.frameTimes[NpIndex(|s.frameTimes|, raw.trialEndFrame[i])])
    && (forall i :: 0 <= i < n ==> s.trialStartTimes[i] == s.frameTimes[NpIndex(|s.frameTimes|, raw.trialStartFrame[i])])
    && (forall i :: 0 <= i < n ==> s.stimStartTimes[i] == s.frameTimes[NpIndex(|s.frameTimes|, raw.trialStimStartFrame[i])])
  }

  ghost predicate LabelsOf(raw: RawSession, s: Session)
    requires ValidSession(s)
  {
    var n := s.nTrials;
    && |raw.trialRepeat| >= n && |raw.trialStim| >= n
    && s.trialRepeat == raw.trialRepeat[..n]
    && s.trialStim == raw.trialStim[..n]
    && s.blockStimRewarded == raw.blockStimRewarded
    && (forall i :: 0 <= i < n ==> ValidIndex(|raw.blockStimRewarded|, s.trialBlock[i] - 1))
    && (forall i :: 0 <= i < n ==>
          s.rewardedStim[i] == raw.blockStimRewarded[NpIndex(|raw.blockStimRewarded|, s.trialBlock[i] - 1)])
  }

  ghost predicate RewardsOf(raw: RawSession, s: Session)
    requires ValidSession(s)
  {
    var n := s.nTrials;
    && |raw.trialResponse| >= n && |raw.trialRewarded| >= n
    && AllValidIndices(|s.frameTimes|, raw.rewardFrames)
    && |s.rewardTimes| == |raw.rewardFrames|
    && (forall k :: 0 <= k < |raw.rewardFrames| ==>
          s.rewardTimes[k] == s.frameTimes[NpIndex(|s.frameTimes|, raw.rewardFrames[k])])
    && s.rewardSize == raw.rewardSize
    && s.trialResponse == raw.trialResponse[..n]
    && s.trialRewarded == raw.trialRewarded[..n]
    && (forall i :: 0 <= i < n ==> (s.rewardEarned[i] <==> raw.trialRewarded[i] && !s.autoRewarded[i]))
  }

  lemma TimesFromStep(raw: RawSession, times: TrialTimes, s: Session)
    requires LoadTrialTimes(raw) == Success(times)
    requires ValidSession(s) && s.nTrials == times.nTrials
    requires s.frameTimes == times.frameTimes && s.trialEndTimes == times.trialEndTimes
    requires s.trialStartTimes == times.trialStartTimes && s.stimStartTimes == times.stimStartTimes
    ensures TimesOf(raw, s)
  {
  }

  lemma LabelsFromStep(raw: RawSession, labels: TrialLabels, s: Session)
    requires ValidSession(s)
    requires LoadTrialLabels(raw, s.nTrials) == Success(labels)
    requires s.trialRepeat == labels.trialRepeat && s.trialStim == labels.trialStim
    requires s.trialBlock == labels.trialBlock && s.rewardedStim == labels.rewardedStim
    requires s.blockStimRewarded == raw.blockStimRewarded
    ensures LabelsOf(raw, s)
  {
    var n := s.nTrials;
    assert LabelsLoadable(raw, n);
    forall i | 0 <= i < n ensures ValidIndex(|raw.blockStimRewarded|, s.trialBlock[i] - 1) {
      assert s.trialBlock[i] == raw.trialBlock[i];
    }
  }

  lemma RewardsFromStep(raw: RawSession, blockTrial: seq<nat>, rewards: TrialRewards, s: Session)
    requires ValidSession(s) && s.frameTimes == FrameTimes(raw.frameIntervals)
    requires |raw.trialStimStartFrame| >= s.nTrials && |blockTrial| == s.nTrials
    requires LoadTrialRewards(raw, s.frameTimes, s.nTrials, blockTrial) == Success(rewards)
    requires s.rewardSize == raw.rewardSize && s.rewardTimes == rewards.rewardTimes
    requires s.trialResponse == rewards.trialResponse && s.trialRewarded == rewards.trialRewarded
    ensures RewardsOf(raw, s)
  {
  }

  /** Lines 49-114 of the loader, in the order the source performs them; the
      first failing step decides the error. */
  function LoadSession(raw: RawSession): (r: Result<Session, LoadError>)
    ensures r.Success? <==> Loadable(raw)
    ensures r.Success? ==> ValidSession(r.value) && r.value.nTrials == |raw.trialEndFrame|
    ensures r.Success? ==> r.value.frameTimes == FrameTimes(raw.frameIntervals)
    ensures r.Success? ==> r.value.trialBlock == raw.trialBlock[..r.value.nTrials]
    ensures r.Success? ==> r.value.blockTrial == BlockTrial(r.value.trialBlock)
    ensures r.Success? ==>
      (AutoRewardFlags(raw.autoRewardFields, r.value.nTrials, r.value.blockTrial,
                       raw.newBlockAutoRewards, DeliveredAtOnset(raw, r.value.nTrials))
       == Success(AutoRewards(r.value.autoRewardScheduled, r.value.autoRewarded)))
    ensures r.Success? ==> LickTimes(r.value.frameTimes, raw.lickFrames) == Some(r.value.lickTimes)
    ensures r.Success? ==> TrialArraysOf(raw, r.value)
  {
    var times :- LoadTrialTimes(raw);
    var labels :- LoadTrialLabels(raw, times.nTrials);
    var rewards :- LoadTrialRewards(raw, times.frameTimes, times.nTrials, labels.blockTrial);
    var lickTimes :- Indexed(LickTimes(times.frameTimes, raw.lickFrames), "lickFrames");
    var s := AssembleSession(times, labels, rewards, raw.blockStimRewarded, raw.rewardSize, lickTimes);
    TimesFromStep(raw, times, s);
    LabelsFromStep(raw, labels, s);
    RewardsFromStep(raw, labels.blockTrial, rewards, s);
    Success(s)
  }

  /** Each block's start time is the start time of its first trial. */
  lemma LoadedBlockStartTimes(raw: RawSession, b: nat)
    requires LoadSession(raw).Success?
    requires b < |LoadSession(raw).value.blockStartTimes|
    ensures var s := LoadSession(raw).value;
      exists j :: 0 <= j < s.nTrials && s.trialBlock[j] == Unique(s.trialBlock)[b]
        && Unique(s.trialBlock)[b] !in s.trialBlock[..j]
        && s.blockStartTimes[b] == s.trialStartTimes[j] && s.blockFirstStimTimes[b] == s.stimStartTimes[j]
  {
    var s := LoadSession(raw).value;
    var j := BlockFirstTrials(s.trialBlock)[b];
    assert s.trialBlock[j] == Unique(s.trialBlock)[b];
  }

  /** When trial blocks never go down, the loaded within-block trial number is
      the count of earlier trials of the same block, and a reconstructed
      schedule auto-rewards exactly the first newBlockAutoRewards trials of
      each block. */
  lemma LoadedBlockTrial(raw: RawSession)
    requires LoadSession(raw).Success?
    requires NonDecreasing(raw.trialBlock[..|raw.trialEndFrame|])
    ensures var s := LoadSession(raw).value;
      && (forall j :: 0 <= j < s.nTrials ==> s.blockTrial[j] == multiset(s.trialBlock[..j])[s.trialBlock[j]])
      && (raw.autoRewardFields.WithSchedule? && |raw.autoRewardFields.trialAutoRewardScheduled| < s.nTrials ==>
            forall j :: 0 <= j < s.nTrials ==>
              (s.autoRewardScheduled[j] <==> multiset(s.trialBlock[..j])[s.trialBlock[j]] < raw.newBlockAutoRewards))
  {
    BlockTrialFacts(raw, LoadSession(raw).value);
  }

  lemma BlockTrialFacts(raw: RawSession, s: Session)
    requires ValidSession(s) && |raw.trialStimStartFrame| >= s.nTrials
    requires s.blockTrial == BlockTrial(s.trialBlock) && NonDecreasing(s.trialBlock)
    requires AutoRewardFlags(raw.autoRewardFields, s.nTrials, s.blockTrial, raw.newBlockAutoRewards,
                             DeliveredAtOnset(raw, s.nTrials)) == Success(AutoRewards(s.autoRewardScheduled, s.autoRewarded))
    ensures forall j :: 0 <= j < s.nTrials ==> s.blockTrial[j] == multiset(s.trialBlock[..j])[s.trialBlock[j]]
    ensures raw.autoRewardFields.WithSchedule? && |raw.autoRewardFields.trialAutoRewardScheduled| < s.nTrials ==>
      forall j :: 0 <= j < s.nTrials ==>
        (s.autoRewardScheduled[j] <==> multiset(s.trialBlock[..j])[s.trialBlock[j]] < raw.newBlockAutoRewards)
  {
    BlockTrialIsRankWithinBlock(s.trialBlock);
  }

  /** A trial whose reward is auto-rewarded is never counted as earned, and a
      rebuilt auto-reward flag needs both the schedule and a delivered reward. */
  lemma LoadedRewardEarned(raw: RawSession, i: nat)
    requires LoadSession(raw).Success? && i < LoadSession(raw).value.nTrials
    ensures var s := LoadSession(raw).value;
      && (s.rewardEarned[i] <==> s.trialRewarded[i] && !s.autoRewarded[i])
      && ((raw.autoRewardFields.RewardedOnly? || |raw.autoRewardFields.trialAutoRewarded| < s.nTrials) ==>
            (s.autoRewarded[i] <==> s.autoRewardScheduled[i]
                                     && raw.trialStimStartFrame[i] + raw.autoRewardOnsetFrame in raw.rewardFrames))
  {
    RewardFlagsOf(raw, LoadSession(raw).value, i);
  }

  lemma RewardFlagsOf(raw: RawSession, s: Session, i: nat)
    requires ValidSession(s) && i < s.nTrials && |raw.trialStimStartFrame| >= s.nTrials
    requires AutoRewardFlags(raw.autoRewardFields, s.nTrials, s.blockTrial, raw.newBlockAutoRewards,
                             DeliveredAtOnset(raw, s.nTrials)) == Success(AutoRewards(s.autoRewardScheduled, s.autoRewarded))
    ensures s.rewardEarned[i] <==> s.trialRewarded[i] && !s.autoRewarded[i]
    ensures (raw.autoRewardFields.RewardedOnly? || |raw.autoRewardFields.trialAutoRewarded| < s.nTrials) ==>
      (s.autoRewarded[i] <==> s.autoRewardScheduled[i]
                               && raw.trialStimStartFrame[i] + raw.autoRewardOnsetFrame in raw.rewardFrames)
  {
    var delivered := DeliveredAtOnset(raw, s.nTrials);
    assert delivered[i] <==> raw.trialStimStartFrame[i] + raw.autoRewardOnsetFrame in raw.rewardFrames;
  }
}
