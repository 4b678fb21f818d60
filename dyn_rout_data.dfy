/** The `DynRoutData` object: constructing it fixes the frame rate and the
    engagement threshold, and `LoadBehavData` fills in, step by step, the
    session arrays, the trial masks, the engagement flags and the ten per-block
    rate lists. */
module DynRout {
  import opened Wrappers
  import opened SessionLoader
  import opened TrialClassifier
  import opened Engagement
  import opened BlockRates

  class DynRoutData {
    const frameRate: nat := 60
    const engagedThresh: nat := EngagedThresh

    /** The arrays read from the file and derived from them (lines 48-114),
        one record field per attribute of the same name. */
    var session: Session
    /** The trial masks of lines 144-159, one record field per attribute. */
    var categories: TrialCategories
    /** Lines 161-166: whether each trial counts as engaged. */
    var engagedTrials: seq<bool>

    // Per-block rate lists, one entry per block.
    var catchResponseRate: seq<Option<real>>
    var hitRate: seq<Option<real>>
    var hitCount: seq<nat>
    var falseAlarmRate: seq<Option<real>>
    var falseAlarmSameModal: seq<Option<real>>
    var falseAlarmOtherModalGo: seq<Option<real>>
    var falseAlarmOtherModalNogo: seq<Option<real>>
    var dprimeSameModal: seq<Option<real>>
    var dprimeOtherModalGo: seq<Option<real>>
    var dprimeNonrewardedModal: seq<Option<real>>

    /** Lines 30-32: the frame rate is 60 and the engagement threshold 10. */
    constructor ()
      ensures frameRate == 60 && engagedThresh == 10
    {
    }

    /** The ten per-block lists hold, entry by entry, the metrics `l`. */
    ghost predicate BlockListsAre(l: seq<BlockMetrics>)
      reads this
    {
      BlockListsHoldPrefix(l, |l|)
    }

    /** The ten per-block lists hold the first k entries of `l`. */
    ghost predicate BlockListsHoldPrefix(l: seq<BlockMetrics>, k: nat)
      requires k <= |l|
      reads this
    {
      && |catchResponseRate| == k && |hitRate| == k && |hitCount| == k && |falseAlarmRate| == k
      && |falseAlarmSameModal| == k && |falseAlarmOtherModalGo| == k && |falseAlarmOtherModalNogo| == k
      && |dprimeSameModal| == k && |dprimeOtherModalGo| == k && |dprimeNonrewardedModal| == k
      && forall b :: 0 <= b < k ==>
        && catchResponseRate[b] == l[b].catchResponseRate
        && hitRate[b] == l[b].hitRate
        && hitCount[b] == l[b].hitCount
        && falseAlarmRate[b] == l[b].falseAlarmRate
        && falseAlarmSameModal[b] == l[b].falseAlarmSameModal
        && falseAlarmOtherModalGo[b] == l[b].falseAlarmOtherModalGo
        && falseAlarmOtherModalNogo[b] == l[b].falseAlarmOtherModalNogo
        && dprimeSameModal[b] == l[b].dprimeSameModal
        && dprimeOtherModalGo[b] == l[b].dprimeOtherModalGo
        && dprimeNonrewardedModal[b] == l[b].dprimeNonrewardedModal
    }

    /** Lines 35-192. On success the object holds the loaded session, its
        classification, the engagement flags of the forward scan and one
        metrics entry per element of `blockStimRewarded`. When loading fails
        the object is left as it was. */
    method LoadBehavData(raw: RawSession, distract: bool, probit: real -> real) returns (r: Result<(), LoadError>)
      modifies this
      ensures r.Success? <==> LoadSession(raw).Success?
      ensures r.Failure? ==> r.error == LoadSession(raw).error && unchanged(this)
      ensures r.Success? ==> session == LoadSession(raw).value && ValidSession(session)
      ensures r.Success? ==> categories == ClassifySession(session, distract)
      ensures r.Success? ==> |engagedTrials| == session.nTrials
      ensures r.Success? ==> forall i :: 0 <= i < session.nTrials ==>
        engagedTrials[i] == EngagedAt(session.trialResponse, categories.goTrials, i)
      ensures r.Success? ==>
        BlockListsAre(BlockMetricsList(categories, session.trialBlock, engagedTrials, session.trialRepeat,
                                       |session.blockStimRewarded|, probit))
    {
      var loaded := LoadSession(raw);
      if loaded.Failure? {
        return Failure(loaded.error);
      }
      DeriveFrom(loaded.value, distract, probit);
      r := Success(());
    }

    /** Lines 48-192 once the session has loaded: stores the session arrays,
        the masks derived from them, the engagement flags and the per-block lists. */
    method DeriveFrom(s: Session, distract: bool, probit: real -> real)
      requires ValidSession(s)
      modifies this
      ensures session == s
      ensures categories == ClassifySession(s, distract)
      ensures |engagedTrials| == s.nTrials
      ensures forall i :: 0 <= i < s.nTrials ==> engagedTrials[i] == EngagedAt(s.trialResponse, categories.goTrials, i)
      ensures BlockListsAre(BlockMetricsList(categories, s.trialBlock, engagedTrials, s.trialRepeat,
                                             |s.blockStimRewarded|, probit))
    {
      session := s;
      var c := ClassifySession(s, distract);
      categories := c;
      var engaged := EngagedTrials(s.trialResponse, c.goTrials);
      engagedTrials := engaged;
      FillBlockLists(BlockMetricsList(c, s.trialBlock, engaged, s.trialRepeat, |s.blockStimRewarded|, probit));
    }

    /** Lines 168-192: empties the ten per-block lists, then appends block by
        block, in order, the entries of `l`. */
    method FillBlockLists(l: seq<BlockMetrics>)
      modifies this`catchResponseRate, this`hitRate, this`hitCount, this`falseAlarmRate, this`falseAlarmSameModal,
               this`falseAlarmOtherModalGo, this`falseAlarmOtherModalNogo, this`dprimeSameModal,
               this`dprimeOtherModalGo, this`dprimeNonrewardedModal
      ensures BlockListsAre(l)
    {
      catchResponseRate, hitRate, hitCount, falseAlarmRate := [], [], [], [];
      falseAlarmSameModal, falseAlarmOtherModalGo, falseAlarmOtherModalNogo := [], [], [];
      dprimeSameModal, dprimeOtherModalGo, dprimeNonrewardedModal := [], [], [];
      for blockInd := 0 to |l|
        invariant BlockListsHoldPrefix(l, blockInd)
      {
        AppendBlockMetrics(l[blockInd]);
      }
    }

    /** Lines 179-192: appends one block's metrics to the ten lists. */
    method AppendBlockMetrics(m: BlockMetrics)
      modifies this`catchResponseRate, this`hitRate, this`hitCount, this`falseAlarmRate, this`falseAlarmSameModal,
               this`falseAlarmOtherModalGo, this`falseAlarmOtherModalNogo, this`dprimeSameModal,
               this`dprimeOtherModalGo, this`dprimeNonrewardedModal
      ensures catchResponseRate == old(catchResponseRate) + [m.catchResponseRate]
      ensures hitRate == old(hitRate) + [m.hitRate]
      ensures hitCount == old(hitCount) + [m.hitCount]
      ensures falseAlarmRate == old(falseAlarmRate) + [m.falseAlarmRate]
      ensures falseAlarmSameModal == old(falseAlarmSameModal) + [m.falseAlarmSameModal]
      ensures falseAlarmOtherModalGo == old(falseAlarmOtherModalGo) + [m.falseAlarmOtherModalGo]
      ensures falseAlarmOtherModalNogo == old(falseAlarmOtherModalNogo) + [m.falseAlarmOtherModalNogo]
      ensures dprimeSameModal == old(dprimeSameModal) + [m.dprimeSameModal]
      ensures dprimeOtherModalGo == old(dprimeOtherModalGo) + [m.dprimeOtherModalGo]
      ensures dprimeNonrewardedModal == old(dprimeNonrewardedModal) + [m.dprimeNonrewardedModal]
    {
      catchResponseRate := catchResponseRate + [m.catchResponseRate];
      hitRate := hitRate + [m.hitRate];
      hitCount := hitCount + [m.hitCount];
      falseAlarmRate := falseAlarmRate + [m.falseAlarmRate];
      falseAlarmSameModal := falseAlarmSameModal + [m.falseAlarmSameModal];
      falseAlarmOtherModalGo := falseAlarmOtherModalGo + [m.falseAlarmOtherModalGo];
      falseAlarmOtherModalNogo := falseAlarmOtherModalNogo + [m.falseAlarmOtherModalNogo];
      dprimeSameModal := dprimeSameModal + [m.dprimeSameModal];
      dprimeOtherModalGo := dprimeOtherModalGo + [m.dprimeOtherModalGo];
      dprimeNonrewardedModal := dprimeNonrewardedModal + [m.dprimeNonrewardedModal];
    }
  }
}
