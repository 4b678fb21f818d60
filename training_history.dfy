/** `get_mtrain_training_history` (lines 137-197 of generate_metrics.py) from
    the parsed table rows on: rows are checked and filtered, grouped into one
    summary per session, sorted by session datetime and cut off just after
    the target session. */
module TrainingHistory {
  import opened Wrappers
  import opened MetricsSummary

  /** The cells of a well-formed row: 0 (unused), session id, subject id, date,
      metric name, metric value. */
  const RowWidth: nat := 6

  // ---------------------------------------------------------------------
  // `str.lstrip("[")` and `str.rstrip("]")`

  /** The number of leading `c`: every one of them is `c` and the next is not. */
  function LeadingRun(s: string, c: char): (n: nat)
    ensures n <= |s| && (forall i :: 0 <= i < n ==> s[i] == c) && (n == |s| || s[n] != c)
  {
    if s != [] && s[0] == c then 1 + LeadingRun(s[1..], c) else 0
  }

  /** The number of trailing `c`: every one of them is `c` and the one before is not. */
  function TrailingRun(s: string, c: char): (n: nat)
    ensures n <= |s| && (forall i :: |s| - n <= i < |s| ==> s[i] == c) && (n == |s| || s[|s| - 1 - n] != c)
  {
    if s != [] && s[|s| - 1] == c then 1 + TrailingRun(s[..|s| - 1], c) else 0
  }

  /** `s.lstrip(c)`: removes every leading `c`. */
  function LStrip(s: string, c: char): string {
    s[LeadingRun(s, c)..]
  }

  /** `s.rstrip(c)`: removes every trailing `c`. */
  function RStrip(s: string, c: char): string {
    s[..|s| - TrailingRun(s, c)]
  }

  /** Lines 168-169: the metric value without its brackets. */
  function StripBrackets(s: string): string {
    RStrip(LStrip(s, '['), ']')
  }

  /** The stripped value is the slice of the cell after its leading '[' and
      before the trailing ']' that follow them, and it neither starts with '['
      nor ends with ']'. */
  lemma StripBracketsSlice(s: string)
    ensures var r := StripBrackets(s);
      var i := LeadingRun(s, '[');
      && i + |r| <= |s| && r == s[i..i + |r|]
      && (forall k :: 0 <= k < i ==> s[k] == '[')
      && (forall k :: i + |r| <= k < |s| ==> s[k] == ']')
      && (r == [] || (r[0] != '[' && r[|r| - 1] != ']'))
  {
    var i := LeadingRun(s, '[');
    var l := s[i..];
    var t := TrailingRun(l, ']');
    assert LStrip(s, '[') == l;
    assert StripBrackets(s) == l[..|l| - t];
    SliceOfSuffix(s, i, l, t);
  }

  /** Cutting `t` characters off the end of the suffix `l` of `s` from `i`,
      over plain values. */
  lemma SliceOfSuffix(s: string, i: nat, l: string, t: nat)
    requires i <= |s| && l == s[i..] && t <= |l|
    requires forall k :: |l| - t <= k < |l| ==> l[k] == ']'
    ensures var r := l[..|l| - t];
      && r == s[i..i + |r|]
      && (forall k :: i + |r| <= k < |s| ==> s[k] == ']')
      && (r != [] ==> r[0] == l[0] && r[|r| - 1] == l[|l| - t - 1])
  {
    var r := l[..|l| - t];
    forall k | i + |r| <= k < |s| ensures s[k] == ']' {
      assert s[k] == l[k - i];
    }
  }

  /** Stripping twice strips nothing more. */
  lemma StripBracketsIdempotent(s: string)
    ensures StripBrackets(StripBrackets(s)) == StripBrackets(s)
  {
    var r := StripBrackets(s);
    StripBracketsSlice(s);
    assert LeadingRun(r, '[') == 0;
    assert LStrip(r, '[') == r;
    assert TrailingRun(r, ']') == 0;
  }

  // ---------------------------------------------------------------------
  // Grouping rows by session (lines 143-169)

  /** Lines 150-156: a row counts when it belongs to the subject and names one of the shown metrics. */
  predicate Contributes(item: seq<string>, subjectId: string)
    requires |item| == RowWidth
  {
    item[2] == subjectId && item[4] in MetricNames
  }

  /** `session_metrics_map`: the session ids in insertion order and the summary of each. */
  datatype SessionMap = SessionMap(order: seq<string>, entries: map<string, SessionSummary>)

  /** Each session id is listed once, every listed id has a summary and every
      summary carries its own id. */
  ghost predicate WellFormedMap(m: SessionMap) {
    && (forall i, j :: 0 <= i < j < |m.order| ==> m.order[i] != m.order[j])
    && (forall id :: id in m.entries <==> id in m.order)
    && (forall id :: id in m.entries ==> m.entries[id].sessionId == id)
  }

  /** Lines 158-169 for one contributing row: a new session is created with the
      row's parsed date, then the row's metric value is stored (overwriting any earlier one). */
  function AddRow(m: SessionMap, item: seq<string>, parseDate: string -> Option<int>): (r: Result<SessionMap, HistoryError>)
    requires |item| == RowWidth
  {
    var id, name, value := item[1], item[4], StripBrackets(item[5]);
    if id in m.entries then
      var e := m.entries[id];
      Success(SessionMap(m.order, m.entries[id := e.(metrics := e.metrics[name := value])]))
    else
      match parseDate(item[3])
      case None => Failure(BadDate(item[3]))
      case Some(d) => Success(SessionMap(m.order + [id], m.entries[id := SessionSummary(d, id, map[name := value])]))
  }

  /** Lines 145-169 for row k: a row of the wrong width raises, a row of
      another subject or metric is skipped, any other row is added. */
  function Step(m: SessionMap, item: seq<string>, k: nat, subjectId: string, parseDate: string -> Option<int>)
    : (r: Result<SessionMap, HistoryError>)
  {
    if |item| != RowWidth then Failure(UnexpectedRowWidth(k))
    else if !Contributes(item, subjectId) then Success(m)
    else AddRow(m, item, parseDate)
  }

  /** The map after the rows, as the loop of lines 144-169 builds it; the
      first row that raises decides the error. */
  function MapOfRows(rows: seq<seq<string>>, subjectId: string, parseDate: string -> Option<int>)
    : (r: Result<SessionMap, HistoryError>)
  {
    if rows == [] then Success(SessionMap([], map[]))
    else
      var m :- MapOfRows(rows[..|rows| - 1], subjectId, parseDate);
      Step(m, rows[|rows| - 1], |rows| - 1, subjectId, parseDate)
  }

  /** One more row is one more step. */
  lemma MapOfRowsSnoc(rows: seq<seq<string>>, subjectId: string, parseDate: string -> Option<int>, k: nat, m: SessionMap)
    requires k < |rows| && MapOfRows(rows[..k], subjectId, parseDate) == Success(m)
    ensures MapOfRows(rows[..k + 1], subjectId, parseDate) == Step(m, rows[k], k, subjectId, parseDate)
  {
    assert rows[..k + 1][..k] == rows[..k];
  }

  /** A failure on a prefix of the rows is the failure on all of them. */
  lemma {:induction false} MapOfRowsPrefixFailure(rows: seq<seq<string>>, subjectId: string,
                                                  parseDate: string -> Option<int>, k: nat)
    requires k <= |rows|
    requires MapOfRows(rows[..k], subjectId, parseDate).Failure?
    ensures MapOfRows(rows, subjectId, parseDate) == MapOfRows(rows[..k], subjectId, parseDate)
    decreases |rows| - k
  {
    if k < |rows| {
      assert rows[..k + 1][..k] == rows[..k];
      MapOfRowsPrefixFailure(rows, subjectId, parseDate, k + 1);
    } else {
      assert rows[..k] == rows;
    }
  }

  /** Lines 143-169: fills the map row by row, raising on a row of the wrong
      width or an unparseable date. */
  method BuildSessionMetricsMap(tableData: seq<seq<string>>, subjectId: string, parseDate: string -> Option<int>)
    returns (r: Result<SessionMap, HistoryError>)
    ensures r == MapOfRows(tableData, subjectId, parseDate)
  {
    var order: seq<string> := [];
    var entries: map<string, SessionSummary> := map[];
    assert tableData[..0] == [];
    for k := 0 to |tableData|
      invariant MapOfRows(tableData[..k], subjectId, parseDate) == Success(SessionMap(order, entries))
    {
      var item := tableData[k];
      MapOfRowsSnoc(tableData, subjectId, parseDate, k, SessionMap(order, entries));
      if |item| != RowWidth {
        MapOfRowsPrefixFailure(tableData, subjectId, parseDate, k + 1);
        return Failure(UnexpectedRowWidth(k));
      }
      if item[2] != subjectId {
        continue;
      }
      var metricName := item[4];
      if metricName !in MetricNames {
        continue;
      }
      var sessionId, value := item[1], StripBrackets(item[5]);
      if sessionId in entries {
        var e := entries[sessionId];
        entries := entries[sessionId := e.(metrics := e.metrics[metricName := value])];
      } else {
        var date := parseDate(item[3]);
        if date.None? {
          MapOfRowsPrefixFailure(tableData, subjectId, parseDate, k + 1);
          return Failure(BadDate(item[3]));
        }
        entries := entries[sessionId := SessionSummary(date.value, sessionId, map[metricName := value])];
        order := order + [sessionId];
      }
    }
    assert tableData[..|tableData|] == tableData;
    r := Success(SessionMap(order, entries));
  }

  // ---------------------------------------------------------------------
  // What the map holds

  /** Row i is a well-formed contributing row of session `id`. */
  ghost predicate RowFor(rows: seq<seq<string>>, subjectId: string, i: int, id: string) {
    0 <= i < |rows| && |rows[i]| == RowWidth && Contributes(rows[i], subjectId) && rows[i][1] == id
  }

  /** Row i is the first contributing row of session `id`. */
  ghost predicate FirstRowFor(rows: seq<seq<string>>, subjectId: string, i: int, id: string) {
    RowFor(rows, subjectId, i, id) && forall j :: 0 <= j < i ==> !RowFor(rows, subjectId, j, id)
  }

  /** Row i is a contributing row of session `id` for metric `name`. */
  ghost predicate MetricRowFor(rows: seq<seq<string>>, subjectId: string, i: int, id: string, name: string) {
    RowFor(rows, subjectId, i, id) && rows[i][4] == name
  }

  /** Row i is the last contributing row of session `id` for metric `name`. */
  ghost predicate LastMetricRow(rows: seq<seq<string>>, subjectId: string, i: int, id: string, name: string) {
    MetricRowFor(rows, subjectId, i, id, name) && forall j :: i < j < |rows| ==> !MetricRowFor(rows, subjectId, j, id, name)
  }

  lemma RowForPrefix(rows: seq<seq<string>>, subjectId: string, n: nat)
    requires n <= |rows|
    ensures forall i, id :: 0 <= i < n ==> (RowFor(rows[..n], subjectId, i, id) <==> RowFor(rows, subjectId, i, id))
    ensures forall i, id :: 0 <= i < n ==> (FirstRowFor(rows[..n], subjectId, i, id) <==> FirstRowFor(rows, subjectId, i, id))
  {
  }

  /** The sessions after one step: a contributing row adds its session if new. */
  lemma StepKeys(m: SessionMap, item: seq<string>, k: nat, subjectId: string, parseDate: string -> Option<int>)
    requires Step(m, item, k, subjectId, parseDate).Success?
    ensures var m' := Step(m, item, k, subjectId, parseDate).value;
      && |item| == RowWidth
      && (forall id :: id in m'.entries <==> id in m.entries || (Contributes(item, subjectId) && id == item[1]))
      && m'.order == if Contributes(item, subjectId) && item[1] !in m.entries then m.order + [item[1]] else m.order
  {
    var m' := Step(m, item, k, subjectId, parseDate).value;
    if Contributes(item, subjectId) && item[1] !in m.entries {
      assert m'.entries.Keys == m.entries.Keys + {item[1]};
    } else {
      assert m'.entries.Keys == m.entries.Keys;
    }
  }

  /** No session's datetime or id changes in a step, and a new session takes
      the row's parsed date. */
  lemma StepSessions(m: SessionMap, item: seq<string>, k: nat, subjectId: string, parseDate: string -> Option<int>)
    requires Step(m, item, k, subjectId, parseDate).Success?
    ensures var m' := Step(m, item, k, subjectId, parseDate).value;
      && |item| == RowWidth
      && (forall id :: id in m.entries ==>
            (id in m'.entries && m'.entries[id].datetime == m.entries[id].datetime
             && m'.entries[id].sessionId == m.entries[id].sessionId))
      && (Contributes(item, subjectId) && item[1] !in m.entries ==>
            item[1] in m'.entries && parseDate(item[3]) == Some(m'.entries[item[1]].datetime)
            && m'.entries[item[1]].sessionId == item[1])
  {
  }

  /** The metrics after one step: a contributing row stores its value under its
      session and metric, and every other stored value stays. */
  lemma StepMetrics(m: SessionMap, item: seq<string>, k: nat, subjectId: string, parseDate: string -> Option<int>)
    requires Step(m, item, k, subjectId, parseDate).Success?
    ensures var m' := Step(m, item, k, subjectId, parseDate).value;
      && |item| == RowWidth
      && (Contributes(item, subjectId) ==>
            item[1] in m'.entries && m'.entries[item[1]].metrics == StoredMetrics(m, item[1])[item[4] := StripBrackets(item[5])])
      && (forall id :: id in m'.entries && !(Contributes(item, subjectId) && id == item[1]) ==>
            id in m.entries && m'.entries[id].metrics == m.entries[id].metrics)
  {
  }

  /** The metrics stored for `id`, none when the session is not in the map. */
  function StoredMetrics(m: SessionMap, id: string): map<string, string> {
    if id in m.entries then m.entries[id].metrics else map[]
  }

  /** One step keeps the key set equal to the sessions with a contributing row. */
  lemma KeysStep(rows: seq<seq<string>>, p: seq<seq<string>>, subjectId: string, parseDate: string -> Option<int>,
                 mp: SessionMap, m: SessionMap)
    requires |rows| > 0 && p == rows[..|rows| - 1]
    requires Step(mp, rows[|rows| - 1], |rows| - 1, subjectId, parseDate) == Success(m)
    requires forall id :: id in mp.entries <==> exists i :: RowFor(p, subjectId, i, id)
    ensures forall id :: id in m.entries <==> exists i :: RowFor(rows, subjectId, i, id)
  {
    var n := |rows| - 1;
    RowForPrefix(rows, subjectId, n);
    StepKeys(mp, rows[n], n, subjectId, parseDate);
    forall id | id in m.entries ensures exists i :: RowFor(rows, subjectId, i, id) {
      if id in mp.entries {
        var i :| RowFor(p, subjectId, i, id);
        assert RowFor(rows, subjectId, i, id);
      } else {
        assert RowFor(rows, subjectId, n, id);
      }
    }
    forall id, i | RowFor(rows, subjectId, i, id) ensures id in m.entries {
      if i < n {
        assert RowFor(p, subjectId, i, id);
      }
    }
  }

  /** One step keeps each session's datetime the parsed date of its first row. */
  lemma DatetimesStep(rows: seq<seq<string>>, p: seq<seq<string>>, subjectId: string, parseDate: string -> Option<int>,
                      mp: SessionMap, m: SessionMap)
    requires |rows| > 0 && p == rows[..|rows| - 1]
    requires Step(mp, rows[|rows| - 1], |rows| - 1, subjectId, parseDate) == Success(m)
    requires forall id :: id in mp.entries <==> exists i :: RowFor(p, subjectId, i, id)
    requires forall id :: id in mp.entries ==>
      exists i :: FirstRowFor(p, subjectId, i, id) && parseDate(p[i][3]) == Some(mp.entries[id].datetime)
    ensures forall id :: id in m.entries ==>
      exists i :: FirstRowFor(rows, subjectId, i, id) && parseDate(rows[i][3]) == Some(m.entries[id].datetime)
  {
    var n := |rows| - 1;
    RowForPrefix(rows, subjectId, n);
    StepKeys(mp, rows[n], n, subjectId, parseDate);
    StepSessions(mp, rows[n], n, subjectId, parseDate);
    forall id | id in m.entries
      ensures exists i :: FirstRowFor(rows, subjectId, i, id) && parseDate(rows[i][3]) == Some(m.entries[id].datetime)
    {
      if id in mp.entries {
        var i :| FirstRowFor(p, subjectId, i, id) && parseDate(p[i][3]) == Some(mp.entries[id].datetime);
        assert FirstRowFor(rows, subjectId, i, id);
      } else {
        forall j | 0 <= j < n ensures !RowFor(rows, subjectId, j, id) {
          assert !RowFor(p, subjectId, j, id);
        }
        assert FirstRowFor(rows, subjectId, n, id);
      }
    }
  }

  /** Lines 158-162: the sessions of the map are those with a contributing
      row, and each one's datetime is the parsed date of its first such row. */
  lemma {:induction false} MapOfRowsKeys(rows: seq<seq<string>>, subjectId: string, parseDate: string -> Option<int>)
    requires MapOfRows(rows, subjectId, parseDate).Success?
    ensures var m := MapOfRows(rows, subjectId, parseDate).value;
      && (forall id :: id in m.entries <==> exists i :: RowFor(rows, subjectId, i, id))
      && (forall id :: id in m.entries ==>
            exists i :: FirstRowFor(rows, subjectId, i, id) && parseDate(rows[i][3]) == Some(m.entries[id].datetime))
  {
    if rows != [] {
      var n := |rows| - 1;
      var p := rows[..n];
      MapOfRowsKeys(p, subjectId, parseDate);
      var mp := MapOfRows(p, subjectId, parseDate).value;
      var m := MapOfRows(rows, subjectId, parseDate).value;
      KeysStep(rows, p, subjectId, parseDate, mp, m);
      DatetimesStep(rows, p, subjectId, parseDate, mp, m);
    }
  }

  /** One step keeps the listed sessions distinct, each with a summary carrying its id. */
  lemma WellFormedStep(mp: SessionMap, item: seq<string>, k: nat, subjectId: string, parseDate: string -> Option<int>)
    requires WellFormedMap(mp) && Step(mp, item, k, subjectId, parseDate).Success?
    ensures WellFormedMap(Step(mp, item, k, subjectId, parseDate).value)
  {
    StepKeys(mp, item, k, subjectId, parseDate);
    StepSessions(mp, item, k, subjectId, parseDate);
  }

  /** The first row of a session already stored lies in the prefix. */
  lemma FirstRowInPrefix(rows: seq<seq<string>>, p: seq<seq<string>>, subjectId: string, mp: SessionMap,
                         id: string, i: int)
    requires |rows| > 0 && p == rows[..|rows| - 1]
    requires forall id :: id in mp.entries <==> exists i :: RowFor(p, subjectId, i, id)
    requires id in mp.entries && FirstRowFor(rows, subjectId, i, id)
    ensures i < |p| && FirstRowFor(p, subjectId, i, id)
  {
    RowForPrefix(rows, subjectId, |p|);
    var i' :| RowFor(p, subjectId, i', id);
    assert RowFor(rows, subjectId, i', id);
  }

  /** A session not yet stored has its first row at the end. */
  lemma NewSessionLast(rows: seq<seq<string>>, p: seq<seq<string>>, subjectId: string, mp: SessionMap,
                       id: string, j: int)
    requires |rows| > 0 && p == rows[..|rows| - 1]
    requires forall id :: id in mp.entries <==> exists i :: RowFor(p, subjectId, i, id)
    requires id !in mp.entries && FirstRowFor(rows, subjectId, j, id)
    ensures j == |p|
  {
    RowForPrefix(rows, subjectId, |p|);
    forall j' | 0 <= j' < |p| ensures !RowFor(rows, subjectId, j', id) {
      assert !RowFor(p, subjectId, j', id);
    }
  }

  /** Two sessions listed after one step keep their first rows in order. */
  lemma OrderStepAt(rows: seq<seq<string>>, p: seq<seq<string>>, subjectId: string, mp: SessionMap,
                    order: seq<string>, a: int, b: int, i: int, j: int)
    requires |rows| > 0 && p == rows[..|rows| - 1]
    requires forall id :: id in mp.entries <==> exists i :: RowFor(p, subjectId, i, id)
    requires |rows[|p|]| == RowWidth
    requires order == mp.order || (order == mp.order + [rows[|p|][1]] && rows[|p|][1] !in mp.entries)
    requires 0 <= a < b < |order| && FirstRowFor(rows, subjectId, i, order[a]) && FirstRowFor(rows, subjectId, j, order[b])
    requires mp.order[a] in mp.entries && (b < |mp.order| ==> mp.order[b] in mp.entries)
    requires b < |mp.order| && FirstRowFor(p, subjectId, i, mp.order[a]) && FirstRowFor(p, subjectId, j, mp.order[b]) ==> i < j
    ensures i < j
  {
    assert order[a] == mp.order[a];
    FirstRowInPrefix(rows, p, subjectId, mp, order[a], i);
    if b < |mp.order| {
      assert order[b] == mp.order[b];
      FirstRowInPrefix(rows, p, subjectId, mp, order[b], j);
    } else {
      NewSessionLast(rows, p, subjectId, mp, order[b], j);
    }
  }

  /** One step keeps the sessions listed in the order of their first rows. */
  lemma OrderStep(rows: seq<seq<string>>, p: seq<seq<string>>, subjectId: string, parseDate: string -> Option<int>,
                  mp: SessionMap, m: SessionMap)
    requires |rows| > 0 && p == rows[..|rows| - 1]
    requires Step(mp, rows[|rows| - 1], |rows| - 1, subjectId, parseDate) == Success(m)
    requires forall id :: id in mp.entries <==> exists i :: RowFor(p, subjectId, i, id)
    requires forall id :: id in mp.entries <==> id in mp.order
    requires forall a, b, i, j ::
      (0 <= a < b < |mp.order| && FirstRowFor(p, subjectId, i, mp.order[a]) && FirstRowFor(p, subjectId, j, mp.order[b]))
      ==> i < j
    ensures forall a, b, i, j ::
      (0 <= a < b < |m.order| && FirstRowFor(rows, subjectId, i, m.order[a]) && FirstRowFor(rows, subjectId, j, m.order[b]))
      ==> i < j
  {
    var n := |rows| - 1;
    StepKeys(mp, rows[n], n, subjectId, parseDate);
    assert m.order == mp.order || (m.order == mp.order + [rows[n][1]] && rows[n][1] !in mp.entries);
    forall a, b, i, j |
      0 <= a < b < |m.order| && FirstRowFor(rows, subjectId, i, m.order[a]) && FirstRowFor(rows, subjectId, j, m.order[b])
      ensures i < j
    {
      assert mp.order[a] in mp.order;
      assert b < |mp.order| ==> mp.order[b] in mp.order;
      OrderStepAt(rows, p, subjectId, mp, m.order, a, b, i, j);
    }
  }

  /** Lines 158-160: the sessions are listed once each, in the order in which
      their first contributing rows appear, each with a summary of its own id. */
  lemma {:induction false} MapOfRowsOrder(rows: seq<seq<string>>, subjectId: string, parseDate: string -> Option<int>)
    requires MapOfRows(rows, subjectId, parseDate).Success?
    ensures var m := MapOfRows(rows, subjectId, parseDate).value;
      && WellFormedMap(m)
      && forall a, b, i, j ::
           (0 <= a < b < |m.order| && FirstRowFor(rows, subjectId, i, m.order[a]) && FirstRowFor(rows, subjectId, j, m.order[b]))
           ==> i < j
  {
    if rows != [] {
      var n := |rows| - 1;
      var p := rows[..n];
      MapOfRowsOrder(p, subjectId, parseDate);
      MapOfRowsKeys(p, subjectId, parseDate);
      var mp := MapOfRows(p, subjectId, parseDate).value;
      WellFormedStep(mp, rows[n], n, subjectId, parseDate);
      OrderStep(rows, p, subjectId, parseDate, mp, MapOfRows(rows, subjectId, parseDate).value);
    }
  }

  /** Every row has six cells and the first contributing row of every session
      carries a date that parses. */
  ghost predicate RowsAccepted(rows: seq<seq<string>>, subjectId: string, parseDate: string -> Option<int>) {
    && (forall i :: 0 <= i < |rows| ==> |rows[i]| == RowWidth)
    && (forall i, id :: FirstRowFor(rows, subjectId, i, id) ==> parseDate(rows[i][3]).Some?)
  }

  lemma AcceptedPrefix(rows: seq<seq<string>>, p: seq<seq<string>>, subjectId: string, parseDate: string -> Option<int>)
    requires |rows| > 0 && p == rows[..|rows| - 1]
    requires RowsAccepted(rows, subjectId, parseDate)
    ensures RowsAccepted(p, subjectId, parseDate)
  {
    RowForPrefix(rows, subjectId, |rows| - 1);
    forall i, id | FirstRowFor(p, subjectId, i, id) ensures parseDate(p[i][3]).Some? {
      assert FirstRowFor(rows, subjectId, i, id);
    }
  }

  /** The rows are accepted exactly when their prefix is, the last row has
      six cells and, if it opens a session, its date parses. */
  lemma AcceptedSnoc(rows: seq<seq<string>>, p: seq<seq<string>>, n: nat, subjectId: string, parseDate: string -> Option<int>)
    requires n + 1 == |rows| && p == rows[..n]
    requires RowsAccepted(p, subjectId, parseDate)
    ensures RowsAccepted(rows, subjectId, parseDate) <==>
      && |rows[n]| == RowWidth
      && (forall id :: FirstRowFor(rows, subjectId, n, id) ==> parseDate(rows[n][3]).Some?)
  {
    RowForPrefix(rows, subjectId, n);
    forall i, id | FirstRowFor(rows, subjectId, i, id) && i < n ensures parseDate(rows[i][3]).Some? {
      assert FirstRowFor(p, subjectId, i, id);
    }
    forall i | 0 <= i < n ensures |rows[i]| == RowWidth {
      assert rows[i] == p[i];
    }
  }

  /** The last row opens a session exactly when it contributes and its session is not yet stored. */
  lemma FirstRowAtEnd(rows: seq<seq<string>>, p: seq<seq<string>>, subjectId: string, mp: SessionMap, id: string)
    requires |rows| > 0 && p == rows[..|rows| - 1]
    requires forall id :: id in mp.entries <==> exists i :: RowFor(p, subjectId, i, id)
    ensures FirstRowFor(rows, subjectId, |rows| - 1, id) <==>
      RowFor(rows, subjectId, |rows| - 1, id) && id !in mp.entries
  {
    var n := |rows| - 1;
    RowForPrefix(rows, subjectId, n);
    if id in mp.entries {
      var i' :| RowFor(p, subjectId, i', id);
      assert RowFor(rows, subjectId, i', id);
    } else {
      forall j | 0 <= j < n ensures !RowFor(rows, subjectId, j, id) {
        assert !RowFor(p, subjectId, j, id);
      }
    }
  }

  /** Over accepted earlier rows, one more step succeeds exactly when all the rows are accepted. */
  lemma AcceptedStep(rows: seq<seq<string>>, p: seq<seq<string>>, subjectId: string, parseDate: string -> Option<int>,
                     mp: SessionMap)
    requires |rows| > 0 && p == rows[..|rows| - 1]
    requires forall id :: id in mp.entries <==> exists i :: RowFor(p, subjectId, i, id)
    requires RowsAccepted(p, subjectId, parseDate)
    ensures Step(mp, rows[|rows| - 1], |rows| - 1, subjectId, parseDate).Success? <==> RowsAccepted(rows, subjectId, parseDate)
  {
    var n := |rows| - 1;
    var x := rows[n];
    AcceptedSnoc(rows, p, n, subjectId, parseDate);
    if |x| == RowWidth {
      forall id ensures FirstRowFor(rows, subjectId, n, id) <==> RowFor(rows, subjectId, n, id) && id !in mp.entries {
        FirstRowAtEnd(rows, p, subjectId, mp, id);
      }
      if Contributes(x, subjectId) && x[1] !in mp.entries {
        assert FirstRowFor(rows, subjectId, n, x[1]);
      }
    }
  }

  /** Lines 145 and 161: building the map succeeds exactly when every row has
      six cells and every session's first contributing row has a date strptime accepts. */
  lemma {:induction false} MapOfRowsSucceeds(rows: seq<seq<string>>, subjectId: string, parseDate: string -> Option<int>)
    ensures MapOfRows(rows, subjectId, parseDate).Success? <==> RowsAccepted(rows, subjectId, parseDate)
  {
    if rows != [] {
      var n := |rows| - 1;
      var p := rows[..n];
      MapOfRowsSucceeds(p, subjectId, parseDate);
      if MapOfRows(p, subjectId, parseDate).Success? {
        MapOfRowsKeys(p, subjectId, parseDate);
        AcceptedStep(rows, p, subjectId, parseDate, MapOfRows(p, subjectId, parseDate).value);
      } else if RowsAccepted(rows, subjectId, parseDate) {
        AcceptedPrefix(rows, p, subjectId, parseDate);
      }
    }
  }

  /** After one step every stored metric name has a row. */
  lemma MetricNamesStepSound(rows: seq<seq<string>>, p: seq<seq<string>>, subjectId: string, parseDate: string -> Option<int>,
                             mp: SessionMap, m: SessionMap)
    requires |rows| > 0 && p == rows[..|rows| - 1]
    requires Step(mp, rows[|rows| - 1], |rows| - 1, subjectId, parseDate) == Success(m)
    requires forall id, name :: id in mp.entries && name in mp.entries[id].metrics ==>
      exists i :: MetricRowFor(p, subjectId, i, id, name)
    ensures forall id, name :: id in m.entries && name in m.entries[id].metrics ==>
      exists i :: MetricRowFor(rows, subjectId, i, id, name)
  {
    var n := |rows| - 1;
    var x := rows[n];
    StepMetrics(mp, x, n, subjectId, parseDate);
    forall id, name | id in m.entries && name in m.entries[id].metrics
      ensures exists i :: MetricRowFor(rows, subjectId, i, id, name)
    {
      if Contributes(x, subjectId) && id == x[1] && name == x[4] {
        assert MetricRowFor(rows, subjectId, n, id, name);
      } else {
        assert id in mp.entries && name in mp.entries[id].metrics;
        var i :| MetricRowFor(p, subjectId, i, id, name);
        assert p[i] == rows[i];
        assert MetricRowFor(rows, subjectId, i, id, name);
      }
    }
  }

  /** After one step every metric row of a stored session has its name stored. */
  lemma MetricNamesStepComplete(rows: seq<seq<string>>, p: seq<seq<string>>, subjectId: string, parseDate: string -> Option<int>,
                                mp: SessionMap, m: SessionMap)
    requires |rows| > 0 && p == rows[..|rows| - 1]
    requires Step(mp, rows[|rows| - 1], |rows| - 1, subjectId, parseDate) == Success(m)
    requires forall id, i :: RowFor(p, subjectId, i, id) ==> id in mp.entries
    requires forall id, name, i :: id in mp.entries && MetricRowFor(p, subjectId, i, id, name) ==>
      name in mp.entries[id].metrics
    ensures forall id, name, i :: id in m.entries && MetricRowFor(rows, subjectId, i, id, name) ==>
      name in m.entries[id].metrics
  {
    var n := |rows| - 1;
    var x := rows[n];
    StepMetrics(mp, x, n, subjectId, parseDate);
    forall id, name, i | id in m.entries && MetricRowFor(rows, subjectId, i, id, name)
      ensures name in m.entries[id].metrics
    {
      if i == n {
        assert Contributes(x, subjectId) && id == x[1] && name == x[4];
        assert m.entries[id].metrics == StoredMetrics(mp, id)[name := StripBrackets(x[5])];
      } else {
        assert p[i] == rows[i];
        assert MetricRowFor(p, subjectId, i, id, name) && RowFor(p, subjectId, i, id);
        assert id in mp.entries && name in mp.entries[id].metrics;
        if Contributes(x, subjectId) && id == x[1] {
          assert StoredMetrics(mp, id) == mp.entries[id].metrics;
          assert m.entries[id].metrics == mp.entries[id].metrics[x[4] := StripBrackets(x[5])];
        } else {
          assert m.entries[id].metrics == mp.entries[id].metrics;
        }
      }
    }
  }

  /** One step keeps the metric names of each session those of its rows. */
  lemma MetricNamesStep(rows: seq<seq<string>>, p: seq<seq<string>>, subjectId: string, parseDate: string -> Option<int>,
                        mp: SessionMap, m: SessionMap)
    requires |rows| > 0 && p == rows[..|rows| - 1]
    requires Step(mp, rows[|rows| - 1], |rows| - 1, subjectId, parseDate) == Success(m)
    requires forall id :: id in mp.entries <==> exists i :: RowFor(p, subjectId, i, id)
    requires forall id, name :: id in mp.entries ==>
      (name in mp.entries[id].metrics <==> exists i :: MetricRowFor(p, subjectId, i, id, name))
    ensures forall id, name :: id in m.entries ==>
      (name in m.entries[id].metrics <==> exists i :: MetricRowFor(rows, subjectId, i, id, name))
  {
    MetricNamesStepSound(rows, p, subjectId, parseDate, mp, m);
    MetricNamesStepComplete(rows, p, subjectId, parseDate, mp, m);
  }

  /** One step keeps the stored value of each metric that of its last row. */
  lemma MetricValuesStep(rows: seq<seq<string>>, p: seq<seq<string>>, subjectId: string, parseDate: string -> Option<int>,
                         mp: SessionMap, m: SessionMap)
    requires |rows| > 0 && p == rows[..|rows| - 1]
    requires Step(mp, rows[|rows| - 1], |rows| - 1, subjectId, parseDate) == Success(m)
    requires forall i, id, name :: LastMetricRow(p, subjectId, i, id, name) ==>
      id in mp.entries && name in mp.entries[id].metrics && mp.entries[id].metrics[name] == StripBrackets(p[i][5])
    ensures forall i, id, name :: LastMetricRow(rows, subjectId, i, id, name) ==>
      id in m.entries && name in m.entries[id].metrics && m.entries[id].metrics[name] == StripBrackets(rows[i][5])
  {
    var n := |rows| - 1;
    var x := rows[n];
    StepKeys(mp, x, n, subjectId, parseDate);
    StepMetrics(mp, x, n, subjectId, parseDate);
    forall i, id, name | LastMetricRow(rows, subjectId, i, id, name)
      ensures id in m.entries && name in m.entries[id].metrics && m.entries[id].metrics[name] == StripBrackets(rows[i][5])
    {
      if i < n {
        forall j | i < j < n ensures !MetricRowFor(p, subjectId, j, id, name) {
          assert !MetricRowFor(rows, subjectId, j, id, name);
        }
        assert LastMetricRow(p, subjectId, i, id, name);
        assert !MetricRowFor(rows, subjectId, n, id, name);
      }
    }
  }

  /** Lines 167-169: each session holds exactly the metrics its rows name, each
      with the bracket-stripped value of the last such row. */
  lemma {:induction false} MapOfRowsMetrics(rows: seq<seq<string>>, subjectId: string, parseDate: string -> Option<int>)
    requires MapOfRows(rows, subjectId, parseDate).Success?
    ensures var m := MapOfRows(rows, subjectId, parseDate).value;
      && (forall id, name :: id in m.entries ==>
            (name in m.entries[id].metrics <==> exists i :: MetricRowFor(rows, subjectId, i, id, name)))
      && (forall i, id, name :: LastMetricRow(rows, subjectId, i, id, name) ==>
            id in m.entries && name in m.entries[id].metrics && m.entries[id].metrics[name] == StripBrackets(rows[i][5]))
  {
    if rows != [] {
      var n := |rows| - 1;
      var p := rows[..n];
      MapOfRowsMetrics(p, subjectId, parseDate);
      MapOfRowsKeys(p, subjectId, parseDate);
      var mp := MapOfRows(p, subjectId, parseDate).value;
      var m := MapOfRows(rows, subjectId, parseDate).value;
      MetricNamesStep(rows, p, subjectId, parseDate, mp, m);
      MetricValuesStep(rows, p, subjectId, parseDate, mp, m);
    }
  }

  // ---------------------------------------------------------------------
  // `sorted(session_metrics_map.values(), key=session_datetime)` (lines 172-175)

  /** The summaries of the listed sessions, in insertion order (`dict.values()`). */
  function ValuesOf(order: seq<string>, entries: map<string, SessionSummary>): seq<SessionSummary> {
    if order == [] then []
    else
      var id := order[|order| - 1];
      ValuesOf(order[..|order| - 1], entries) + (if id in entries then [entries[id]] else [])
  }

  function Values(m: SessionMap): seq<SessionSummary> {
    ValuesOf(m.order, m.entries)
  }

  /** When every listed id has a summary, the values are those summaries in list order. */
  lemma {:induction false} ValuesOfListed(order: seq<string>, entries: map<string, SessionSummary>)
    requires forall i :: 0 <= i < |order| ==> order[i] in entries
    ensures |ValuesOf(order, entries)| == |order|
    ensures forall i :: 0 <= i < |order| ==> ValuesOf(order, entries)[i] == entries[order[i]]
  {
    if order != [] {
      ValuesOfListed(order[..|order| - 1], entries);
    }
  }

  /** The values of a well-formed map are its summaries, each exactly once. */
  lemma ValuesOfWellFormed(m: SessionMap)
    requires WellFormedMap(m)
    ensures forall v: SessionSummary :: v in Values(m) <==> v.sessionId in m.entries && v == m.entries[v.sessionId]
  {
    ValuesOfListed(m.order, m.entries);
    var vs := Values(m);
    forall v: SessionSummary | v.sessionId in m.entries && v == m.entries[v.sessionId] ensures v in vs {
      var i :| 0 <= i < |m.order| && m.order[i] == v.sessionId;
      assert vs[i] == v;
    }
  }

  /** Ordered by datetime, earliest first. */
  ghost predicate SortedByDate(ys: seq<SessionSummary>) {
    forall i, j :: 0 <= i < j < |ys| ==> ys[i].datetime <= ys[j].datetime
  }

  /** The summaries with datetime `d`, in their order in `ys`. */
  function WithDate(ys: seq<SessionSummary>, d: int): seq<SessionSummary> {
    if ys == [] then []
    else WithDate(ys[..|ys| - 1], d) + (if ys[|ys| - 1].datetime == d then [ys[|ys| - 1]] else [])
  }

  /** Inserts `x` after every summary whose datetime is not later than its own. */
  function InsertByDate(ys: seq<SessionSummary>, x: SessionSummary): seq<SessionSummary> {
    if ys == [] || ys[|ys| - 1].datetime <= x.datetime then ys + [x]
    else InsertByDate(ys[..|ys| - 1], x) + [ys[|ys| - 1]]
  }

  /** Python's `sorted` by datetime: a stable sort, here by insertion. */
  function SortByDatetime(xs: seq<SessionSummary>): seq<SessionSummary> {
    if xs == [] then [] else InsertByDate(SortByDatetime(xs[..|xs| - 1]), xs[|xs| - 1])
  }

  lemma WithDateSnoc(ys: seq<SessionSummary>, y: SessionSummary, d: int)
    ensures WithDate(ys + [y], d) == WithDate(ys, d) + (if y.datetime == d then [y] else [])
  {
    assert (ys + [y])[..|ys|] == ys;
  }

  /** Inserting adds `x` to the multiset. */
  lemma {:induction false} InsertByDateMultiset(ys: seq<SessionSummary>, x: SessionSummary)
    ensures multiset(InsertByDate(ys, x)) == multiset(ys) + multiset{x}
  {
    if !(ys == [] || ys[|ys| - 1].datetime <= x.datetime) {
      var init := ys[..|ys| - 1];
      assert ys == init + [ys[|ys| - 1]];
      InsertByDateMultiset(init, x);
    }
  }

  /** Every summary of a sorted sequence is no later than its last. */
  lemma SortedBelowLast(ys: seq<SessionSummary>, z: SessionSummary)
    requires SortedByDate(ys) && ys != [] && z in multiset(ys[..|ys| - 1])
    ensures z.datetime <= ys[|ys| - 1].datetime
  {
    var k :| 0 <= k < |ys| - 1 && ys[..|ys| - 1][k] == z;
    assert ys[k] == z;
  }

  /** Inserting into a sorted sequence keeps it sorted. */
  lemma {:induction false} InsertByDateSorted(ys: seq<SessionSummary>, x: SessionSummary)
    requires SortedByDate(ys)
    ensures SortedByDate(InsertByDate(ys, x))
  {
    var r := InsertByDate(ys, x);
    if !(ys == [] || ys[|ys| - 1].datetime <= x.datetime) {
      var init, y := ys[..|ys| - 1], ys[|ys| - 1];
      InsertByDateSorted(init, x);
      InsertByDateMultiset(init, x);
      var r' := InsertByDate(init, x);
      assert r == r' + [y];
      forall i | 0 <= i < |r'| ensures r'[i].datetime <= y.datetime {
        assert r'[i] in multiset(r');
        if r'[i] != x {
          SortedBelowLast(ys, r'[i]);
        }
      }
      forall i, j | 0 <= i < j < |r| ensures r[i].datetime <= r[j].datetime {
        if j < |r| - 1 {
          assert r[i] == r'[i] && r[j] == r'[j];
        } else {
          assert r[i] == r'[i];
        }
      }
    }
  }

  /** Inserting puts `x` after every summary of the same datetime. */
  lemma {:induction false} InsertByDateWithDate(ys: seq<SessionSummary>, x: SessionSummary, d: int)
    ensures WithDate(InsertByDate(ys, x), d) == WithDate(ys, d) + (if x.datetime == d then [x] else [])
  {
    if ys == [] || ys[|ys| - 1].datetime <= x.datetime {
      WithDateSnoc(ys, x, d);
    } else {
      var init, y := ys[..|ys| - 1], ys[|ys| - 1];
      assert ys == init + [y];
      InsertByDateWithDate(init, x, d);
      WithDateSnoc(InsertByDate(init, x), y, d);
      WithDateSnoc(init, y, d);
    }
  }

  /** Lines 172-175: the result is sorted by datetime, a permutation of the
      input, and summaries of equal datetime keep their input order. */
  lemma {:induction false} SortByDatetimeSpec(xs: seq<SessionSummary>)
    ensures SortedByDate(SortByDatetime(xs))
    ensures multiset(SortByDatetime(xs)) == multiset(xs)
    ensures forall d :: WithDate(SortByDatetime(xs), d) == WithDate(xs, d)
  {
    if xs != [] {
      var init, x := xs[..|xs| - 1], xs[|xs| - 1];
      assert xs == init + [x];
      SortByDatetimeSpec(init);
      InsertByDateSorted(SortByDatetime(init), x);
      InsertByDateMultiset(SortByDatetime(init), x);
      forall d ensures WithDate(SortByDatetime(xs), d) == WithDate(xs, d) {
        InsertByDateWithDate(SortByDatetime(init), x, d);
        WithDateSnoc(init, x, d);
      }
    }
  }

  // ---------------------------------------------------------------------
  // Cutting the history at the target session (lines 177-195)

  /** The conversion of one summary into a history entry, lines 63-97 of the same file. */
  type Converter = SessionSummary -> Result<TrainingHistoryEntry, HistoryError>

  /** The entries of the sorted summaries up to and including the first one of
      `sessionId`, converted in order; the first conversion that raises decides
      the error, and running out of summaries raises SessionNotFound. */
  function HistoryUpTo(xs: seq<SessionSummary>, sessionId: string, convert: Converter)
    : Result<seq<TrainingHistoryEntry>, HistoryError>
  {
    if xs == [] then Failure(SessionNotFound(sessionId))
    else
      var e :- convert(xs[0]);
      if xs[0].sessionId == sessionId then Success([e])
      else
        var rest :- HistoryUpTo(xs[1..], sessionId, convert);
        Success([e] + rest)
  }

  /** `acc` followed by the entries of a successful `r`. */
  function Prefixed(acc: seq<TrainingHistoryEntry>, r: Result<seq<TrainingHistoryEntry>, HistoryError>)
    : Result<seq<TrainingHistoryEntry>, HistoryError>
  {
    if r.Success? then Success(acc + r.value) else r
  }

  /** The conversion the history uses. */
  function Summaries(sv: Services): Converter {
    s => TrainingSummary(s, sv)
  }

  /** Lines 177-195: converts each summary in turn and stops after the target. */
  method TruncateAtSession(sorted: seq<SessionSummary>, sessionId: string, sv: Services)
    returns (r: Result<seq<TrainingHistoryEntry>, HistoryError>)
    ensures r == HistoryUpTo(sorted, sessionId, Summaries(sv))
  {
    var convert := Summaries(sv);
    var filtered: seq<TrainingHistoryEntry> := [];
    assert sorted[0..] == sorted;
    assert Prefixed([], HistoryUpTo(sorted, sessionId, convert)) == HistoryUpTo(sorted, sessionId, convert) by {
      var h := HistoryUpTo(sorted, sessionId, convert);
      if h.Success? {
        assert [] + h.value == h.value;
      }
    }
    for i := 0 to |sorted|
      invariant HistoryUpTo(sorted, sessionId, convert) == Prefixed(filtered, HistoryUpTo(sorted[i..], sessionId, convert))
    {
      var summary := sorted[i];
      assert sorted[i..][0] == summary && sorted[i..][1..] == sorted[i + 1..];
      if summary.sessionId == sessionId {
        var entry := SessionMetricsSummaryToTrainingSummary(summary, sv);
        assert entry == convert(summary);
        if entry.Failure? {
          return Failure(entry.error);
        }
        return Success(filtered + [entry.value]);
      }
      var entry := SessionMetricsSummaryToTrainingSummary(summary, sv);
      assert entry == convert(summary);
      if entry.Failure? {
        return Failure(entry.error);
      }
      var rest := HistoryUpTo(sorted[i + 1..], sessionId, convert);
      if rest.Success? {
        assert filtered + ([entry.value] + rest.value) == (filtered + [entry.value]) + rest.value;
      }
      filtered := filtered + [entry.value];
    }
    assert sorted[|sorted|..] == [];
    r := Failure(SessionNotFound(sessionId));
  }

  /** Summary k is the first one of session `sessionId`. */
  ghost predicate IsFirstOf(xs: seq<SessionSummary>, sessionId: string, k: int) {
    0 <= k < |xs| && xs[k].sessionId == sessionId && forall j :: 0 <= j < k ==> xs[j].sessionId != sessionId
  }

  /** Line 194: without a summary of the target session the history fails,
      with SessionNotFound when every summary converts. */
  lemma {:induction false} HistoryUpToAbsent(xs: seq<SessionSummary>, sessionId: string, convert: Converter)
    requires forall j :: 0 <= j < |xs| ==> xs[j].sessionId != sessionId
    ensures HistoryUpTo(xs, sessionId, convert).Failure?
    ensures (forall j :: 0 <= j < |xs| ==> convert(xs[j]).Success?) ==>
      HistoryUpTo(xs, sessionId, convert) == Failure(SessionNotFound(sessionId))
  {
    if xs != [] {
      HistoryUpToAbsent(xs[1..], sessionId, convert);
    }
  }

  /** Lines 177-192: with the target first at position k, the history succeeds
      exactly when summaries 0..k convert, and then holds those k + 1 entries
      in order, the target's last. */
  lemma {:induction false} HistoryUpToPresent(xs: seq<SessionSummary>, sessionId: string, convert: Converter, k: nat)
    requires IsFirstOf(xs, sessionId, k)
    ensures HistoryUpTo(xs, sessionId, convert).Success? <==> forall j :: 0 <= j <= k ==> convert(xs[j]).Success?
    ensures HistoryUpTo(xs, sessionId, convert).Success? ==>
      var h := HistoryUpTo(xs, sessionId, convert).value;
      |h| == k + 1 && forall j :: 0 <= j <= k ==> h[j] == convert(xs[j]).value
  {
    if k > 0 {
      var tail := xs[1..];
      forall j | 0 <= j < |tail| ensures tail[j] == xs[j + 1] {
      }
      assert IsFirstOf(tail, sessionId, k - 1);
      HistoryUpToPresent(tail, sessionId, convert, k - 1);
    }
  }

  // ---------------------------------------------------------------------
  // `get_mtrain_training_history` (lines 100-197)

  /** The training history of the table rows. */
  function TrainingHistoryOf(tableData: seq<seq<string>>, subjectId: string, sessionId: string, sv: Services)
    : Result<seq<TrainingHistoryEntry>, HistoryError>
  {
    var m :- MapOfRows(tableData, subjectId, sv.parseDate);
    HistoryUpTo(SortByDatetime(Values(m)), sessionId, Summaries(sv))
  }

  /** Lines 143-197 from the extracted rows: groups, sorts and cuts the history. */
  method GetMtrainTrainingHistory(tableData: seq<seq<string>>, subjectId: string, sessionId: string, sv: Services)
    returns (r: Result<seq<TrainingHistoryEntry>, HistoryError>)
    ensures r == TrainingHistoryOf(tableData, subjectId, sessionId, sv)
  {
    var m :- BuildSessionMetricsMap(tableData, subjectId, sv.parseDate);
    var sortedSessionMetrics := SortByDatetime(Values(m));
    r := TruncateAtSession(sortedSessionMetrics, sessionId, sv);
  }

  /** A session that occurs somewhere has a first occurrence. */
  lemma FirstOfExists(xs: seq<SessionSummary>, sessionId: string, k0: nat)
    requires k0 < |xs| && xs[k0].sessionId == sessionId
    ensures exists k :: IsFirstOf(xs, sessionId, k)
    decreases k0
  {
    if exists j :: 0 <= j < k0 && xs[j].sessionId == sessionId {
      var j :| 0 <= j < k0 && xs[j].sessionId == sessionId;
      FirstOfExists(xs, sessionId, j);
    } else {
      assert IsFirstOf(xs, sessionId, k0);
    }
  }

  /** The sorted summaries hold a summary of `sessionId` exactly when the map
      holds that session, and then it is that session's summary. */
  lemma SortedSummaries(m: SessionMap, sessionId: string)
    requires WellFormedMap(m)
    ensures var sorted := SortByDatetime(Values(m));
      && SortedByDate(sorted) && multiset(sorted) == multiset(Values(m))
      && (forall j :: 0 <= j < |sorted| && sorted[j].sessionId == sessionId ==>
            sessionId in m.entries && sorted[j] == m.entries[sessionId])
      && (sessionId in m.entries ==> exists k :: IsFirstOf(sorted, sessionId, k))
  {
    var sorted := SortByDatetime(Values(m));
    SortByDatetimeSpec(Values(m));
    ValuesOfWellFormed(m);
    forall j | 0 <= j < |sorted| ensures sorted[j] in Values(m) {
      assert sorted[j] in multiset(sorted);
    }
    if sessionId in m.entries {
      var v := m.entries[sessionId];
      assert v in multiset(Values(m));
      var k0 :| 0 <= k0 < |sorted| && sorted[k0] == v;
      FirstOfExists(sorted, sessionId, k0);
    }
  }

  /** Line 194: a target session without a contributing row of the subject
      gives no history. */
  lemma TrainingHistoryNeedsTarget(tableData: seq<seq<string>>, subjectId: string, sessionId: string, sv: Services)
    requires forall i :: 0 <= i < |tableData| ==> !RowFor(tableData, subjectId, i, sessionId)
    ensures TrainingHistoryOf(tableData, subjectId, sessionId, sv).Failure?
  {
    var mr := MapOfRows(tableData, subjectId, sv.parseDate);
    if mr.Success? {
      MapOfRowsKeys(tableData, subjectId, sv.parseDate);
      MapOfRowsOrder(tableData, subjectId, sv.parseDate);
      SortedSummaries(mr.value, sessionId);
      HistoryUpToAbsent(SortByDatetime(Values(mr.value)), sessionId, Summaries(sv));
    }
  }

  /** A history cut from a well-formed map ends at the target's summary. */
  lemma HistoryOfMap(m: SessionMap, sessionId: string, convert: Converter)
    requires WellFormedMap(m) && HistoryUpTo(SortByDatetime(Values(m)), sessionId, convert).Success?
    ensures var sorted := SortByDatetime(Values(m));
      var h := HistoryUpTo(sorted, sessionId, convert).value;
      && sessionId in m.entries
      && 0 < |h| <= |sorted|
      && (forall j :: 0 <= j < |h| ==> convert(sorted[j]) == Success(h[j]))
      && (forall j :: 0 <= j < |h| - 1 ==> sorted[j].sessionId != sessionId)
      && sorted[|h| - 1] == m.entries[sessionId]
  {
    var sorted := SortByDatetime(Values(m));
    SortedSummaries(m, sessionId);
    if sessionId !in m.entries {
      HistoryUpToAbsent(sorted, sessionId, convert);
    }
    var k :| IsFirstOf(sorted, sessionId, k);
    HistoryUpToPresent(sorted, sessionId, convert, k);
  }

  /** Lines 100-197: a history, when there is one, is the datetime-ascending
      run of session summaries up to the target session, which comes last and
      is the summary built from the target's rows; the target has a
      contributing row. */
  lemma TrainingHistoryEndsAtTarget(tableData: seq<seq<string>>, subjectId: string, sessionId: string, sv: Services)
    requires TrainingHistoryOf(tableData, subjectId, sessionId, sv).Success?
    ensures var m := MapOfRows(tableData, subjectId, sv.parseDate).value;
      var sorted := SortByDatetime(Values(m));
      var h := TrainingHistoryOf(tableData, subjectId, sessionId, sv).value;
      && sessionId in m.entries
      && (exists i :: FirstRowFor(tableData, subjectId, i, sessionId))
      && SortedByDate(sorted) && multiset(sorted) == multiset(Values(m))
      && 0 < |h| <= |sorted|
      && (forall j :: 0 <= j < |h| ==> TrainingSummary(sorted[j], sv) == Success(h[j]))
      && (forall j :: 0 <= j < |h| - 1 ==> sorted[j].sessionId != sessionId)
      && sorted[|h| - 1] == m.entries[sessionId]
  {
    var m := MapOfRows(tableData, subjectId, sv.parseDate).value;
    MapOfRowsKeys(tableData, subjectId, sv.parseDate);
    MapOfRowsOrder(tableData, subjectId, sv.parseDate);
    SortByDatetimeSpec(Values(m));
    var sorted := SortByDatetime(Values(m));
    var convert := Summaries(sv);
    assert TrainingHistoryOf(tableData, subjectId, sessionId, sv) == HistoryUpTo(sorted, sessionId, convert);
    HistoryOfMap(m, sessionId, convert);
    var h := HistoryUpTo(sorted, sessionId, convert).value;
    forall j | 0 <= j < |h| ensures TrainingSummary(sorted[j], sv) == Success(h[j]) {
      assert convert(sorted[j]) == Success(h[j]);
    }
  }
}
