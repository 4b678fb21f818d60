/** The engagement scan of lines 161-166 of the loader: a trial counts as
    disengaged when, among the go trials up to and including it, there are
    more than ten and the last ten of them got no response. */
module Engagement {
  import opened Masks

  /** `DynRoutData.engagedThresh`. */
  const EngagedThresh: nat := 10

  /** `trialResponse[:i+1][goTrials[:i+1]]`: the responses to the go trials up to trial i. */
  function GoResponses(trialResponse: seq<bool>, goTrials: seq<bool>, i: nat): (r: seq<bool>)
    requires |trialResponse| == |goTrials| && i < |goTrials|
    ensures |r| == CountTrue(goTrials[..i + 1])
  {
    Compress(trialResponse[..i + 1], goTrials[..i + 1])
  }

  /** The test of lines 164-166: trial i stays engaged unless more than
      EngagedThresh go responses precede it and the last EngagedThresh of them sum to 0. */
  predicate EngagedAt(trialResponse: seq<bool>, goTrials: seq<bool>, i: nat)
    requires |trialResponse| == |goTrials| && i < |goTrials|
  {
    var r := GoResponses(trialResponse, goTrials, i);
    !(|r| > EngagedThresh && CountTrue(r[|r| - EngagedThresh..]) < 1)
  }

  /** Lines 161-166: starts from all trials engaged and clears one flag per
      trial that fails the test. */
  method EngagedTrials(trialResponse: seq<bool>, goTrials: seq<bool>) returns (engaged: seq<bool>)
    requires |trialResponse| == |goTrials|
    ensures |engaged| == |goTrials|
    ensures forall i :: 0 <= i < |goTrials| ==> engaged[i] == EngagedAt(trialResponse, goTrials, i)
  {
    var n := |goTrials|;
    var e := new bool[n](_ => true);
    for i := 0 to n
      invariant forall j :: 0 <= j < i ==> e[j] == EngagedAt(trialResponse, goTrials, j)
      invariant forall j :: i <= j < n ==> e[j]
    {
      var r := Compress(trialResponse[..i + 1], goTrials[..i + 1]);
      if |r| > EngagedThresh {
        if CountTrue(r[|r| - EngagedThresh..]) < 1 {
          e[i] := false;
        }
      }
    }
    engaged := e[..];
  }

  // ---------------------------------------------------------------------
  // A reference definition: the run of unanswered go trials

  /** The number of go trials among the first k trials since the last go trial
      that got a response (or since the start). */
  function MissStreak(trialResponse: seq<bool>, goTrials: seq<bool>, k: nat): (s: nat)
    requires |trialResponse| == |goTrials| && k <= |goTrials|
    ensures s <= CountTrue(goTrials[..k])
  {
    if k == 0 then 0
    else
      CountTrueStep(goTrials, k - 1);
      if goTrials[k - 1] && trialResponse[k - 1] then 0
      else if goTrials[k - 1] then MissStreak(trialResponse, goTrials, k - 1) + 1
      else MissStreak(trialResponse, goTrials, k - 1)
  }

  /** The number of false values at the end of `r`. */
  function TrailingFalse(r: seq<bool>): (t: nat)
    ensures t <= |r|
  {
    if r == [] || r[|r| - 1] then 0 else TrailingFalse(r[..|r| - 1]) + 1
  }

  /** The last t entries of `r` are all false exactly when `r` ends in at least t falses. */
  lemma {:induction false} SuffixCountZero(r: seq<bool>, t: nat)
    requires t <= |r|
    ensures CountTrue(r[|r| - t..]) == 0 <==> TrailingFalse(r) >= t
  {
    if t > 0 {
      var n := |r| - 1;
      var r' := r[..n];
      assert r[|r| - t..] == r'[|r'| - (t - 1)..] + [r[n]];
      CountTrueAppend(r'[|r'| - (t - 1)..], [r[n]]);
      assert CountTrue([r[n]]) == (if r[n] then 1 else 0) by {
        assert [r[n]][..0] == [];
      }
      SuffixCountZero(r', t - 1);
    }
  }

  /** Selecting the go responses turns the trial-indexed miss streak into the
      run of false values at the end of the selection. */
  lemma {:induction false} TrailingFalseOfGoResponses(trialResponse: seq<bool>, goTrials: seq<bool>, k: nat)
    requires |trialResponse| == |goTrials| && k <= |goTrials|
    ensures TrailingFalse(Compress(trialResponse[..k], goTrials[..k])) == MissStreak(trialResponse, goTrials, k)
  {
    if k > 0 {
      TrailingFalseOfGoResponses(trialResponse, goTrials, k - 1);
      CompressStep(trialResponse, goTrials, k - 1);
      var c' := Compress(trialResponse[..k - 1], goTrials[..k - 1]);
      var c := Compress(trialResponse[..k], goTrials[..k]);
      var streak' := MissStreak(trialResponse, goTrials, k - 1);
      if goTrials[k - 1] {
        assert c == c' + [trialResponse[k - 1]];
        assert c[|c| - 1] == trialResponse[k - 1];
        assert c[..|c| - 1] == c';
        if trialResponse[k - 1] {
          assert TrailingFalse(c) == 0;
        } else {
          assert TrailingFalse(c) == TrailingFalse(c') + 1;
          assert MissStreak(trialResponse, goTrials, k) == streak' + 1;
        }
      } else {
        assert c == c' + [];
        assert c' + [] == c';
        assert MissStreak(trialResponse, goTrials, k) == streak';
      }
    }
  }

  /** Trial i is disengaged exactly when more than EngagedThresh go trials
      occur up to it and the last EngagedThresh of them were all missed. */
  lemma EngagedIffShortMissStreak(trialResponse: seq<bool>, goTrials: seq<bool>, i: nat)
    requires |trialResponse| == |goTrials| && i < |goTrials|
    ensures EngagedAt(trialResponse, goTrials, i) <==>
      !(CountTrue(goTrials[..i + 1]) > EngagedThresh && MissStreak(trialResponse, goTrials, i + 1) >= EngagedThresh)
  {
    var r := GoResponses(trialResponse, goTrials, i);
    if |r| > EngagedThresh {
      SuffixCountZero(r, EngagedThresh);
      TrailingFalseOfGoResponses(trialResponse, goTrials, i + 1);
    }
  }

  /** A trial with at most EngagedThresh go trials up to and including it is engaged. */
  lemma EngagedWhileFewGoTrials(trialResponse: seq<bool>, goTrials: seq<bool>, i: nat)
    requires |trialResponse| == |goTrials| && i < |goTrials|
    requires CountTrue(goTrials[..i + 1]) <= EngagedThresh
    ensures EngagedAt(trialResponse, goTrials, i)
  {
  }

  /** A go trial with a response is always engaged. */
  lemma EngagedAtGoHit(trialResponse: seq<bool>, goTrials: seq<bool>, i: nat)
    requires |trialResponse| == |goTrials| && i < |goTrials|
    requires goTrials[i] && trialResponse[i]
    ensures EngagedAt(trialResponse, goTrials, i)
  {
    EngagedIffShortMissStreak(trialResponse, goTrials, i);
  }

  /** Once disengaged, the mouse stays disengaged until a go trial gets a response. */
  lemma DisengagementPersists(trialResponse: seq<bool>, goTrials: seq<bool>, i: nat)
    requires |trialResponse| == |goTrials| && i + 1 < |goTrials|
    requires !EngagedAt(trialResponse, goTrials, i)
    requires !(goTrials[i + 1] && trialResponse[i + 1])
    ensures !EngagedAt(trialResponse, goTrials, i + 1)
  {
    EngagedIffShortMissStreak(trialResponse, goTrials, i);
    EngagedIffShortMissStreak(trialResponse, goTrials, i + 1);
    CountTrueStep(goTrials, i + 1);
  }
}
