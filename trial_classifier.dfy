/** Trial classification (lines 144-159 of the loader): each trial is a catch,
    multimodal, go or nogo trial, nogo trials are split by how their stimulus
    relates to the rewarded one, and every go, nogo and catch trial gets an
    outcome from the mouse's response. */
module TrialClassifier {
  import opened Masks
  import opened SessionLoader

  const CatchStim: string := "catch"

  /** The go stimuli of the distractor task versions. */
  const DistractGoStims: seq<string> := ["vis1", "sound1"]

  /** `s[:-1]`: the stimulus name without its last character (its number). */
  function DropLast(s: string): (r: string)
    ensures |s| > 0 ==> r == s[..|s| - 1]
    ensures |s| == 0 ==> r == ""
  {
    if |s| == 0 then s else s[..|s| - 1]
  }

  /** Dropping the last character undoes appending one, so the modality of
      a numbered stimulus is its name without the number. */
  lemma DropLastUndoesAppend(s: string, c: char)
    ensures DropLast(s + [c]) == s
    ensures DropLast("vis1") == "vis" && DropLast("sound2") == "sound"
  {
    assert (s + [c])[..|s|] == s;
  }

  /** numpy's element-wise `a == b`. */
  function Equal<T(==)>(a: seq<T>, b: seq<T>): (r: seq<bool>)
    requires |a| == |b|
    ensures |r| == |a|
    ensures forall i :: 0 <= i < |r| ==> (r[i] <==> a[i] == b[i])
  {
    seq(|a|, i requires 0 <= i < |a| => a[i] == b[i])
  }

  /** The element-wise comparison is all true exactly when the arrays are
      equal, and it does not depend on the order of its arguments. */
  lemma EqualAllTrue<T>(a: seq<T>, b: seq<T>)
    requires |a| == |b|
    ensures (forall i :: 0 <= i < |a| ==> Equal(a, b)[i]) <==> a == b
    ensures Equal(a, b) == Equal(b, a)
  {
    if forall i :: 0 <= i < |a| ==> Equal(a, b)[i] {
      forall i | 0 <= i < |a| ensures a[i] == b[i] {
        assert Equal(a, b)[i];
      }
    }
  }

  datatype TrialCategories = TrialCategories(
    catchTrials: seq<bool>,
    multimodalTrials: seq<bool>,
    goTrials: seq<bool>,
    nogoTrials: seq<bool>,
    sameModalNogoTrials: seq<bool>,
    otherModalGoTrials: seq<bool>,
    otherModalNogoTrials: seq<bool>,
    hitTrials: seq<bool>,
    missTrials: seq<bool>,
    falseAlarmTrials: seq<bool>,
    correctRejectTrials: seq<bool>,
    catchResponseTrials: seq<bool>)

  /** Every mask has one entry per trial. */
  predicate WellFormed(c: TrialCategories, nTrials: nat) {
    && |c.catchTrials| == nTrials
    && |c.multimodalTrials| == nTrials
    && |c.goTrials| == nTrials
    && |c.nogoTrials| == nTrials
    && |c.sameModalNogoTrials| == nTrials
    && |c.otherModalGoTrials| == nTrials
    && |c.otherModalNogoTrials| == nTrials
    && |c.hitTrials| == nTrials
    && |c.missTrials| == nTrials
    && |c.falseAlarmTrials| == nTrials
    && |c.correctRejectTrials| == nTrials
    && |c.catchResponseTrials| == nTrials
  }

  /** The masks of lines 144-159, built from the loaded per-trial arrays.
      `distract` is the `'distract' in taskVersion` test. */
  function Classify(trialStim: seq<string>, rewardedStim: seq<string>, autoRewardScheduled: seq<bool>,
                    trialResponse: seq<bool>, blockStimRewarded: seq<string>, distract: bool): (c: TrialCategories)
    requires |rewardedStim| == |trialStim| && |autoRewardScheduled| == |trialStim| && |trialResponse| == |trialStim|
    ensures WellFormed(c, |trialStim|)
  {
    var n := |trialStim|;
    var catchTrials := seq(n, i requires 0 <= i < n => trialStim[i] == CatchStim);
    var multimodalTrials := seq(n, i requires 0 <= i < n => '+' in trialStim[i]);
    var goTrials := And(Equal(trialStim, rewardedStim), Not(autoRewardScheduled));
    var nogoTrials := And(And(Not(Equal(trialStim, rewardedStim)), Not(catchTrials)), Not(multimodalTrials));
    var sameModalNogoTrials :=
      And(nogoTrials, seq(n, i requires 0 <= i < n => DropLast(trialStim[i]) == DropLast(rewardedStim[i])));
    var otherModalGoTrials :=
      if distract then And(nogoTrials, In1d(trialStim, DistractGoStims))
      else And(nogoTrials, In1d(trialStim, blockStimRewarded));
    var otherModalNogoTrials := And(And(nogoTrials, Not(sameModalNogoTrials)), Not(otherModalGoTrials));
    TrialCategories(
      catchTrials, multimodalTrials, goTrials, nogoTrials, sameModalNogoTrials, otherModalGoTrials, otherModalNogoTrials,
      And(goTrials, trialResponse), And(goTrials, Not(trialResponse)),
      And(nogoTrials, trialResponse), And(nogoTrials, Not(trialResponse)),
      And(catchTrials, trialResponse))
  }

  /** The classification of a loaded session. */
  function ClassifySession(s: Session, distract: bool): (c: TrialCategories)
    requires ValidSession(s)
    ensures WellFormed(c, s.nTrials)
  {
    Classify(s.trialStim, s.rewardedStim, s.autoRewardScheduled, s.trialResponse, s.blockStimRewarded, distract)
  }

  /** Go and nogo never overlap; a go trial is never auto-reward-scheduled; a
      nogo trial is never a catch or multimodal trial. Conversely every trial
      that is none of catch, multimodal or scheduled is go or nogo, according
      to whether its stimulus is the rewarded one. */
  lemma GoNogoExclusive(trialStim: seq<string>, rewardedStim: seq<string>, autoRewardScheduled: seq<bool>,
                        trialResponse: seq<bool>, blockStimRewarded: seq<string>, distract: bool, i: nat)
    requires |rewardedStim| == |trialStim| && |autoRewardScheduled| == |trialStim| && |trialResponse| == |trialStim|
    requires i < |trialStim|
    ensures var c := Classify(trialStim, rewardedStim, autoRewardScheduled, trialResponse, blockStimRewarded, distract);
      && !(c.goTrials[i] && c.nogoTrials[i])
      && (c.goTrials[i] ==> !autoRewardScheduled[i] && trialStim[i] == rewardedStim[i])
      && (c.nogoTrials[i] ==> !c.catchTrials[i] && !c.multimodalTrials[i] && trialStim[i] != rewardedStim[i])
      && (!c.catchTrials[i] && !c.multimodalTrials[i] && !autoRewardScheduled[i] ==>
            (c.goTrials[i] <==> trialStim[i] == rewardedStim[i]) && (c.nogoTrials[i] <==> trialStim[i] != rewardedStim[i]))
  {
  }

  /** A catch trial is scored as a go trial only if some block rewards a
      stimulus named "catch"; otherwise no catch trial is ever go. */
  lemma CatchTrialsAreNotGo(s: Session, distract: bool, i: nat)
    requires ValidSession(s) && i < s.nTrials
    requires CatchStim !in s.blockStimRewarded
    ensures var c := ClassifySession(s, distract);
      c.catchTrials[i] ==> !c.goTrials[i] && !c.nogoTrials[i]
  {
  }

  /** The three nogo sub-masks lie inside nogo and together cover it;
      other-modality-nogo overlaps neither of the other two. */
  lemma NogoSubMasks(trialStim: seq<string>, rewardedStim: seq<string>, autoRewardScheduled: seq<bool>,
                     trialResponse: seq<bool>, blockStimRewarded: seq<string>, distract: bool, i: nat)
    requires |rewardedStim| == |trialStim| && |autoRewardScheduled| == |trialStim| && |trialResponse| == |trialStim|
    requires i < |trialStim|
    ensures var c := Classify(trialStim, rewardedStim, autoRewardScheduled, trialResponse, blockStimRewarded, distract);
      && (c.sameModalNogoTrials[i] ==> c.nogoTrials[i])
      && (c.otherModalGoTrials[i] ==> c.nogoTrials[i])
      && (c.otherModalNogoTrials[i] ==> c.nogoTrials[i])
      && (c.nogoTrials[i] <==> c.sameModalNogoTrials[i] || c.otherModalGoTrials[i] || c.otherModalNogoTrials[i])
      && !(c.otherModalNogoTrials[i] && c.sameModalNogoTrials[i])
      && !(c.otherModalNogoTrials[i] && c.otherModalGoTrials[i])
  {
  }

  /** Same-modality nogo and other-modality-go can overlap: with "vis1"
      rewarded in this block and "vis2" rewarded in another, a "vis2" trial is both. */
  lemma SameModalAndOtherModalGoMayOverlap()
    ensures var c := Classify(["vis2"], ["vis1"], [false], [true], ["vis1", "vis2"], false);
      c.sameModalNogoTrials[0] && c.otherModalGoTrials[0]
  {
    var c := Classify(["vis2"], ["vis1"], [false], [true], ["vis1", "vis2"], false);
    assert DropLast("vis2") == "vis";
    assert DropLast("vis1") == "vis";
    assert "vis2" in ["vis1", "vis2"];
    assert c.nogoTrials[0];
  }

  /** Hit and miss partition go, false alarm and correct rejection partition
      nogo, each by the response; a catch response is a catch trial with a response. */
  lemma OutcomesPartition(trialStim: seq<string>, rewardedStim: seq<string>, autoRewardScheduled: seq<bool>,
                          trialResponse: seq<bool>, blockStimRewarded: seq<string>, distract: bool, i: nat)
    requires |rewardedStim| == |trialStim| && |autoRewardScheduled| == |trialStim| && |trialResponse| == |trialStim|
    requires i < |trialStim|
    ensures var c := Classify(trialStim, rewardedStim, autoRewardScheduled, trialResponse, blockStimRewarded, distract);
      && (c.hitTrials[i] || c.missTrials[i] <==> c.goTrials[i]) && !(c.hitTrials[i] && c.missTrials[i])
      && (c.hitTrials[i] ==> trialResponse[i]) && (c.missTrials[i] ==> !trialResponse[i])
      && (c.falseAlarmTrials[i] || c.correctRejectTrials[i] <==> c.nogoTrials[i])
      && !(c.falseAlarmTrials[i] && c.correctRejectTrials[i])
      && (c.falseAlarmTrials[i] ==> trialResponse[i]) && (c.correctRejectTrials[i] ==> !trialResponse[i])
      && (c.catchResponseTrials[i] <==> c.catchTrials[i] && trialResponse[i])
  {
  }

  /** Counting over any set of trials (a mask `m`): hits plus misses are the
      go trials and false alarms plus correct rejections are the nogo trials. */
  lemma {:induction false} OutcomeCounts(trialStim: seq<string>, rewardedStim: seq<string>, autoRewardScheduled: seq<bool>,
                                         trialResponse: seq<bool>, blockStimRewarded: seq<string>, distract: bool,
                                         m: seq<bool>)
    requires |rewardedStim| == |trialStim| && |autoRewardScheduled| == |trialStim| && |trialResponse| == |trialStim|
    requires |m| == |trialStim|
    ensures var c := Classify(trialStim, rewardedStim, autoRewardScheduled, trialResponse, blockStimRewarded, distract);
      && CountTrue(And(c.hitTrials, m)) + CountTrue(And(c.missTrials, m)) == CountTrue(And(c.goTrials, m))
      && CountTrue(And(c.falseAlarmTrials, m)) + CountTrue(And(c.correctRejectTrials, m)) == CountTrue(And(c.nogoTrials, m))
  {
    var c := Classify(trialStim, rewardedStim, autoRewardScheduled, trialResponse, blockStimRewarded, distract);
    CountTrueDisjointUnion(And(c.hitTrials, m), And(c.missTrials, m), And(c.goTrials, m));
    CountTrueDisjointUnion(And(c.falseAlarmTrials, m), And(c.correctRejectTrials, m), And(c.nogoTrials, m));
  }
}
