/** `session_metrics_summary_to_training_summary` (lines 63-97 of
    generate_metrics.py): one session's metric strings are evaluated as Python
    literals, each normalised to a tuple, and the three tuples are transposed
    into one row per block, padded with `None`. */
module MetricsSummary {
  import opened Wrappers

  /** The Python values a metric literal can hold. `PyOther` is any other
      literal (a list, a nested tuple, ...), carried with its `str()` text. */
  datatype PyValue =
    | PyNone
    | PyBool(b: bool)
    | PyInt(i: int)
    | PyFloat(x: real)
    | PyStr(s: string)
    | PyOther(text: string)

  /** What `ast.literal_eval` returns for a metric string: a tuple or a single value. */
  datatype Literal = Scalar(value: PyValue) | TupleLit(items: seq<PyValue>)

  /** The library and network calls the history assembly makes.
      `parseDate` is `datetime.strptime(_, '%Y-%m-%d')` with dates as
      comparable integers (`None` where it raises ValueError), `formatDate`
      is `.strftime("%m-%d-%y")`, `stageName` is the stage lookup of
      `get_stage_name_from_session_id` (`None` where one of its three
      queries or the `state_id`, `id` or `name` lookups raises), and `literalEval` is `ast.literal_eval`
      (`None` where it raises). */
  datatype Services = Services(
    parseDate: string -> Option<int>,
    formatDate: int -> string,
    stageName: string -> Option<string>,
    literalEval: string -> Option<Literal>)

  /** The exceptions the history assembly raises. */
  datatype HistoryError =
    | UnexpectedRowWidth(row: nat)      // line 145: a row without exactly six cells
    | StageLookupFailed(sessionId: string) // line 65: the stage of this session cannot be looked up
    | BadDate(text: string)             // strptime rejects the date cell
    | BadLiteral(text: string)          // literal_eval rejects a metric value
    | SessionNotFound(sessionId: string) // line 194: the target session is not in the table

  /** The metrics shown, in column order. */
  const MetricNames: seq<string> := ["hitCount", "dprimeSameModal", "dprimeOtherModalGo"]

  /** One session of `session_metrics_map`: its datetime, its id and the
      bracket-stripped value string of each metric seen for it. */
  datatype SessionSummary = SessionSummary(datetime: int, sessionId: string, metrics: map<string, string>)

  /** `TrainingHistoryEntry`: the formatted date, the stage name and one row
      `[blockIndex, hitCount, dprimeSameModal, dprimeOtherModalGo]` per block. */
  datatype TrainingHistoryEntry = TrainingHistoryEntry(date: string, stageName: string, blocks: seq<seq<PyValue>>)

  /** `session_metrics.get(name)`. */
  function Get(metrics: map<string, string>, name: string): Option<string> {
    if name in metrics then Some(metrics[name]) else None
  }

  /** Lines 77-85 for one metric: the metric as a tuple. */
  function NormalizeMetric(raw: Option<string>, literalEval: string -> Option<Literal>): Result<seq<PyValue>, HistoryError> {
    match raw
    case None => Success([PyNone])
    case Some(text) =>
      match literalEval(text)
      case None => Failure(BadLiteral(text))
      case Some(TupleLit(items)) => Success(items)
      case Some(Scalar(v)) => Success([v])
  }

  /** A missing metric becomes `(None,)`, a tuple is kept as it is and any
      other value becomes a 1-tuple; an unreadable value raises. */
  lemma NormalizeMetricCases(raw: Option<string>, literalEval: string -> Option<Literal>)
    ensures raw.None? ==> NormalizeMetric(raw, literalEval) == Success([PyNone])
    ensures raw.Some? ==> match literalEval(raw.value)
      case None => NormalizeMetric(raw, literalEval) == Failure(BadLiteral(raw.value))
      case Some(TupleLit(items)) => NormalizeMetric(raw, literalEval) == Success(items)
      case Some(Scalar(v)) => NormalizeMetric(raw, literalEval) == Success([v])
  {
  }

  /** The normalised tuples of `names`, evaluated in order; the first metric
      that cannot be read decides the error. */
  function NormalizedMetrics(metrics: map<string, string>, literalEval: string -> Option<Literal>, names: seq<string>)
    : (r: Result<seq<seq<PyValue>>, HistoryError>)
    ensures r.Success? <==> forall i :: 0 <= i < |names| ==> NormalizeMetric(Get(metrics, names[i]), literalEval).Success?
    ensures r.Success? ==> |r.value| == |names| && forall i :: 0 <= i < |names| ==>
      r.value[i] == NormalizeMetric(Get(metrics, names[i]), literalEval).value
    ensures r.Failure? ==> exists i ::
      && 0 <= i < |names|
      && NormalizeMetric(Get(metrics, names[i]), literalEval) == Failure(r.error)
      && (forall j :: 0 <= j < i ==> NormalizeMetric(Get(metrics, names[j]), literalEval).Success?)
  {
    if names == [] then Success([])
    else
      var init := names[..|names| - 1];
      var prefix :- NormalizedMetrics(metrics, literalEval, init);
      var last :- NormalizeMetric(Get(metrics, names[|names| - 1]), literalEval);
      Success(prefix + [last])
  }

  /** A failure on a prefix of the names is the failure on all of them. */
  lemma {:induction false} NormalizedMetricsPrefixFailure(metrics: map<string, string>, literalEval: string -> Option<Literal>,
                                                          names: seq<string>, k: nat)
    requires k <= |names|
    requires NormalizedMetrics(metrics, literalEval, names[..k]).Failure?
    ensures NormalizedMetrics(metrics, literalEval, names) == NormalizedMetrics(metrics, literalEval, names[..k])
    decreases |names| - k
  {
    if k < |names| {
      var p := names[..k + 1];
      assert p[..k] == names[..k];
      NormalizedMetricsPrefixFailure(metrics, literalEval, names, k + 1);
    } else {
      assert names[..k] == names;
    }
  }

  /** Lines 74-85: appends one normalised tuple per metric name. */
  method CollectMetrics(metrics: map<string, string>, literalEval: string -> Option<Literal>)
    returns (r: Result<seq<seq<PyValue>>, HistoryError>)
    ensures r == NormalizedMetrics(metrics, literalEval, MetricNames)
  {
    var collected: seq<seq<PyValue>> := [];
    assert MetricNames[..0] == [];
    for k := 0 to |MetricNames|
      invariant NormalizedMetrics(metrics, literalEval, MetricNames[..k]) == Success(collected)
    {
      var p := MetricNames[..k + 1];
      assert p[..k] == MetricNames[..k] && p[k] == MetricNames[k];
      var m := NormalizeMetric(Get(metrics, MetricNames[k]), literalEval);
      if m.Failure? {
        NormalizedMetricsPrefixFailure(metrics, literalEval, MetricNames, k + 1);
        return Failure(m.error);
      }
      collected := collected + [m.value];
    }
    assert MetricNames[..|MetricNames|] == MetricNames;
    r := Success(collected);
  }

  // ---------------------------------------------------------------------
  // `itertools.zip_longest(*metrics, fillvalue=None)`

  /** The length of the longest tuple. */
  function MaxLen(ms: seq<seq<PyValue>>): (n: nat)
    ensures forall i :: 0 <= i < |ms| ==> |ms[i]| <= n
    ensures ms == [] ==> n == 0
    ensures ms != [] ==> exists i :: 0 <= i < |ms| && |ms[i]| == n
  {
    if ms == [] then 0
    else
      var n' := MaxLen(ms[..|ms| - 1]);
      if |ms[|ms| - 1]| > n' then |ms[|ms| - 1]| else n'
  }

  /** Element k of tuple i, or the fill value where the tuple is shorter. */
  function ItemOrNone(ms: seq<seq<PyValue>>, i: nat, k: nat): PyValue
    requires i < |ms|
  {
    if k < |ms[i]| then ms[i][k] else PyNone
  }

  function ZipLongest(ms: seq<seq<PyValue>>): (rows: seq<seq<PyValue>>)
    ensures |rows| == MaxLen(ms)
  {
    seq(MaxLen(ms), k requires 0 <= k < MaxLen(ms) => seq(|ms|, i requires 0 <= i < |ms| => ItemOrNone(ms, i, k)))
  }

  /** Transposing is undone by reading a column back: column i of the rows is
      tuple i followed by `None` down to the last row. */
  lemma ZipLongestColumns(ms: seq<seq<PyValue>>, i: nat)
    requires i < |ms|
    ensures forall k :: 0 <= k < |ZipLongest(ms)| ==> |ZipLongest(ms)[k]| == |ms|
    ensures seq(|ms[i]|, k requires 0 <= k < |ms[i]| => ZipLongest(ms)[k][i]) == ms[i]
    ensures forall k :: |ms[i]| <= k < |ZipLongest(ms)| ==> ZipLongest(ms)[k][i] == PyNone
  {
  }

  /** Lines 87-91: `[block_index, *block_values]` for each transposed row. */
  function BlockWiseRows(ms: seq<seq<PyValue>>): (rows: seq<seq<PyValue>>)
    ensures |rows| == MaxLen(ms)
  {
    var z := ZipLongest(ms);
    seq(|z|, k requires 0 <= k < |z| => [PyInt(k)] + z[k])
  }

  /** There are as many block rows as the longest tuple has entries, and row k
      is `[k, m1[k], m2[k], m3[k]]` with `None` where a tuple is shorter. */
  lemma BlockWiseRowsShape(ms: seq<seq<PyValue>>)
    ensures |BlockWiseRows(ms)| == MaxLen(ms)
    ensures forall k :: 0 <= k < MaxLen(ms) ==>
      && |BlockWiseRows(ms)[k]| == |ms| + 1
      && BlockWiseRows(ms)[k][0] == PyInt(k)
      && forall i :: 0 <= i < |ms| ==> BlockWiseRows(ms)[k][i + 1] == (if k < |ms[i]| then ms[i][k] else PyNone)
  {
  }

  /** Line 65: the stage name of a session, or the exception its lookup raises. */
  function StageName(sv: Services, sessionId: string): (r: Result<string, HistoryError>)
    ensures r.Success? <==> sv.stageName(sessionId).Some?
    ensures r.Success? ==> r.value == sv.stageName(sessionId).value
    ensures r.Failure? ==> r.error == StageLookupFailed(sessionId)
  {
    match sv.stageName(sessionId)
    case None => Failure(StageLookupFailed(sessionId))
    case Some(name) => Success(name)
  }

  /** Lines 63-97 as a value: the history entry of one session. */
  function TrainingSummary(s: SessionSummary, sv: Services): Result<TrainingHistoryEntry, HistoryError> {
    var stageName :- StageName(sv, s.sessionId);
    var metrics :- NormalizedMetrics(s.metrics, sv.literalEval, MetricNames);
    Success(TrainingHistoryEntry(sv.formatDate(s.datetime), stageName, BlockWiseRows(metrics)))
  }

  /** A session's entry carries its formatted date and stage name and one
      four-column row per block, as many as the longest metric tuple; it
      fails exactly when the stage lookup raises or a metric value cannot be
      read, and a failed stage lookup comes first. */
  lemma TrainingSummaryShape(s: SessionSummary, sv: Services)
    ensures TrainingSummary(s, sv).Success? <==>
      && sv.stageName(s.sessionId).Some?
      && forall i :: 0 <= i < |MetricNames| ==> NormalizeMetric(Get(s.metrics, MetricNames[i]), sv.literalEval).Success?
    ensures sv.stageName(s.sessionId).None? ==> TrainingSummary(s, sv) == Failure(StageLookupFailed(s.sessionId))
    ensures sv.stageName(s.sessionId).Some? && TrainingSummary(s, sv).Failure? ==>
      TrainingSummary(s, sv).error == NormalizedMetrics(s.metrics, sv.literalEval, MetricNames).error
    ensures TrainingSummary(s, sv).Success? ==>
      var e := TrainingSummary(s, sv).value;
      var ms := NormalizedMetrics(s.metrics, sv.literalEval, MetricNames).value;
      && e.date == sv.formatDate(s.datetime) && e.stageName == sv.stageName(s.sessionId).value
      && |e.blocks| == MaxLen(ms)
      && forall k :: 0 <= k < |e.blocks| ==> |e.blocks[k]| == 4 && e.blocks[k][0] == PyInt(k)
  {
    var ms := NormalizedMetrics(s.metrics, sv.literalEval, MetricNames);
    if ms.Success? {
      BlockWiseRowsShape(ms.value);
    }
  }

  /** Lines 63-97: looks up the stage name, collects the metrics and builds the block rows. */
  method SessionMetricsSummaryToTrainingSummary(s: SessionSummary, sv: Services)
    returns (r: Result<TrainingHistoryEntry, HistoryError>)
    ensures r == TrainingSummary(s, sv)
  {
    var stageName :- StageName(sv, s.sessionId);
    var metrics :- CollectMetrics(s.metrics, sv.literalEval);
    r := Success(TrainingHistoryEntry(sv.formatDate(s.datetime), stageName, BlockWiseRows(metrics)));
  }
}
