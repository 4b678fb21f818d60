/** The HTML of lines 204-257 of generate_metrics.py: one cell per block
    value, one row per block, a metrics table per history entry, and the
    training table listing the entries newest first. The properties are
    stated on the text read line by line, as `str.split('\n')` reads it. */
module MetricsView {
  import opened Wrappers
  import opened MetricsSummary
  import opened TrainingHistory

  // ---------------------------------------------------------------------
  // Joining and splitting lines

  /** `sep.join(ls)`. */
  function Join(ls: seq<string>, sep: string): string {
    if ls == [] then ""
    else if |ls| == 1 then ls[0]
    else ls[0] + sep + Join(ls[1..], sep)
  }

  /** `''.join(ls)`. */
  function Concat(ls: seq<string>): string {
    if ls == [] then "" else ls[0] + Concat(ls[1..])
  }

  /** `s.split('\n')`: the text between newlines, always at least one piece. */
  function Lines(s: string): (r: seq<string>)
    ensures |r| >= 1
  {
    if s == [] then [""]
    else
      var rest := Lines(s[1..]);
      if s[0] == '\n' then [""] + rest else [[s[0]] + rest[0]] + rest[1..]
  }

  /** A text without newlines is one line. */
  lemma {:induction false} LinesSingle(s: string)
    requires '\n' !in s
    ensures Lines(s) == [s]
  {
    if s != [] {
      assert '\n' !in s[1..] by {
        forall k | 0 <= k < |s[1..]| ensures s[1..][k] != '\n' {
          assert s[1..][k] == s[k + 1];
        }
      }
      LinesSingle(s[1..]);
      assert [s[0]] + s[1..] == s;
    }
  }

  /** Splitting at a newline splits the lines. */
  lemma {:induction false} LinesAtNewline(a: string, b: string)
    ensures Lines(a + "\n" + b) == Lines(a) + Lines(b)
  {
    if a == [] {
      assert a + "\n" + b == "\n" + b;
      assert ("\n" + b)[1..] == b;
    } else {
      assert (a + "\n" + b)[1..] == a[1..] + "\n" + b;
      assert (a + "\n" + b)[0] == a[0];
      LinesAtNewline(a[1..], b);
    }
  }

  /** A one-line text in front joins the first line. */
  lemma {:induction false} LinesPrefix(a: string, b: string)
    requires '\n' !in a
    ensures Lines(a + b) == [a + Lines(b)[0]] + Lines(b)[1..]
  {
    if a != [] {
      assert (a + b)[1..] == a[1..] + b && (a + b)[0] == a[0];
      assert '\n' !in a[1..] by {
        forall k | 0 <= k < |a[1..]| ensures a[1..][k] != '\n' {
          assert a[1..][k] == a[k + 1];
        }
      }
      LinesPrefix(a[1..], b);
      assert [a[0]] + (a[1..] + Lines(b)[0]) == a + Lines(b)[0];
    } else {
      var lb := Lines(b);
      assert a + b == b && a + lb[0] == lb[0];
      assert [lb[0]] + lb[1..] == lb;
    }
  }

  /** Appending to the last of the lines commutes with joining text to the first. */
  lemma JoinFirstAppendLast(x: string, lt: seq<string>, b: string)
    requires |lt| >= 1
    ensures var r := lt[..|lt| - 1] + [lt[|lt| - 1] + b];
      var la := [x + lt[0]] + lt[1..];
      [x + r[0]] + r[1..] == la[..|la| - 1] + [la[|la| - 1] + b]
  {
    var n := |lt|;
    var r := lt[..n - 1] + [lt[n - 1] + b];
    var la := [x + lt[0]] + lt[1..];
    if n == 1 {
      assert x + (lt[0] + b) == (x + lt[0]) + b;
    } else {
      assert r[0] == lt[0] && r[1..] == lt[1..n - 1] + [lt[n - 1] + b];
      assert la[..n - 1] == [x + lt[0]] + lt[1..n - 1];
    }
  }

  /** A one-line text behind joins the last line. */
  lemma {:induction false} LinesSuffix(a: string, b: string)
    requires '\n' !in b
    ensures var la := Lines(a); Lines(a + b) == la[..|la| - 1] + [la[|la| - 1] + b]
  {
    if a == [] {
      assert a + b == b;
      LinesSingle(b);
    } else {
      assert (a + b)[1..] == a[1..] + b && (a + b)[0] == a[0];
      LinesSuffix(a[1..], b);
      var lt := Lines(a[1..]);
      if a[0] == '\n' {
        assert Lines(a)[..|lt|] == [""] + lt[..|lt| - 1];
      } else {
        JoinFirstAppendLast([a[0]], lt, b);
      }
    }
  }

  /** `"\n".join` is undone by `split('\n')` when no line holds a newline. */
  lemma {:induction false} LinesOfJoin(ls: seq<string>)
    requires |ls| >= 1
    requires forall i :: 0 <= i < |ls| ==> '\n' !in ls[i]
    ensures Lines(Join(ls, "\n")) == ls
  {
    if |ls| == 1 {
      LinesSingle(ls[0]);
    } else {
      LinesOfJoin(ls[1..]);
      LinesAtNewline(ls[0], Join(ls[1..], "\n"));
      LinesSingle(ls[0]);
      assert [ls[0]] + ls[1..] == ls;
    }
  }

  /** The lines of `pre + "\n".join(ls) + post` for one-line `pre`, `post` and `ls`. */
  function Framed(ls: seq<string>, pre: string, post: string): seq<string> {
    if ls == [] then [pre + post]
    else if |ls| == 1 then [pre + ls[0] + post]
    else [pre + ls[0]] + ls[1..|ls| - 1] + [ls[|ls| - 1] + post]
  }

  lemma LinesFramed(ls: seq<string>, pre: string, post: string)
    requires '\n' !in pre && '\n' !in post
    requires forall i :: 0 <= i < |ls| ==> '\n' !in ls[i]
    ensures Lines(pre + Join(ls, "\n") + post) == Framed(ls, pre, post)
  {
    if ls == [] {
      assert pre + Join(ls, "\n") + post == pre + post;
      LinesSingle(pre + post);
    } else {
      var j := Join(ls, "\n");
      LinesOfJoin(ls);
      LinesSuffix(j, post);
      assert pre + j + post == pre + (j + post);
      LinesPrefix(pre, j + post);
    }
  }

  lemma ConcatSingleLine(ls: seq<string>)
    requires forall i :: 0 <= i < |ls| ==> '\n' !in ls[i]
    ensures '\n' !in Concat(ls)
  {
    if ls != [] {
      ConcatSingleLine(ls[1..]);
    }
  }

  // ---------------------------------------------------------------------
  // `str()` of a block value

  function Digit(d: nat): char
    requires d < 10
  {
    "0123456789"[d]
  }

  /** `str(n)` for a natural number. */
  function NatToString(n: nat): (r: string)
    ensures |r| >= 1 && forall k :: 0 <= k < |r| ==> '0' <= r[k] <= '9'
  {
    if n < 10 then [Digit(n)] else NatToString(n / 10) + [Digit(n % 10)]
  }

  /** Reads decimal digits back. */
  function ParseNat(s: string): nat
    requires forall k :: 0 <= k < |s| ==> '0' <= s[k] <= '9'
  {
    if s == [] then 0 else ParseNat(s[..|s| - 1]) * 10 + ((s[|s| - 1] as int) - ('0' as int))
  }

  /** The decimal text of a number reads back as that number. */
  lemma {:induction false} NatToStringRoundTrip(n: nat)
    ensures ParseNat(NatToString(n)) == n
  {
    if n >= 10 {
      NatToStringRoundTrip(n / 10);
      var r := NatToString(n);
      assert r[..|r| - 1] == NatToString(n / 10);
    }
  }

  /** `str(i)` for an integer. */
  function IntToString(i: int): (r: string)
    ensures '\n' !in r
  {
    if i < 0 then "-" + NatToString(-i) else NatToString(i)
  }

  /** `str(value)` for the non-float values of a block row. */
  function Str(v: PyValue): (r: string)
    requires !v.PyFloat?
  {
    match v
    case PyNone => "None"
    case PyBool(b) => if b then "True" else "False"
    case PyInt(i) => IntToString(i)
    case PyStr(s) => s
    case PyOther(text) => text
  }

  /** The text of one cell: `format(value, ' .2f')` for a float (the
      `formatFloat` parameter), `str(value)` for anything else. */
  function CellText(v: PyValue, formatFloat: real -> string): string {
    if v.PyFloat? then formatFloat(v.x) else Str(v)
  }

  // ---------------------------------------------------------------------
  // `generate_block_value_view` and `generate_metrics_view` (lines 204-244)

  const TdOpen: string := "<td width=\"25%\">"
  const ThOpen: string := "<th width=\"25%\">"
  const DisplayNames: seq<string> := ["Hit count", "Dprime same modal", "Dprime other modal go"]
  const TableOpenLine: string := "<div class=\"table-responsive\">" + "<table class=\"table " + "mb-0 table-striped\">"
  const TableClose: string := "</table></div>"

  /** Lines 204-211: one cell. */
  function BlockValueView(v: PyValue, formatFloat: real -> string): string {
    TdOpen + CellText(v, formatFloat) + "</td>"
  }

  /** Lines 221-229: one row per block, its values rendered cell by cell. */
  function BlockRow(values: seq<PyValue>, formatFloat: real -> string): string {
    "<tr>" + Concat(seq(|values|, j requires 0 <= j < |values| => BlockValueView(values[j], formatFloat))) + "</tr>"
  }

  function BlockRows(blocks: seq<seq<PyValue>>, formatFloat: real -> string): (rs: seq<string>)
    ensures |rs| == |blocks|
  {
    seq(|blocks|, k requires 0 <= k < |blocks| => BlockRow(blocks[k], formatFloat))
  }

  /** Line 232: one header cell per name. */
  function HeaderCells(names: seq<string>): string {
    if names == [] then "" else ThOpen + names[0] + "</th>" + HeaderCells(names[1..])
  }

  /** Lines 232-233. */
  function HeaderRow(): string {
    "<tr>" + ThOpen + "Block Index" + "</th>" + HeaderCells(DisplayNames) + "</tr>"
  }

  /** The head of the table: empty when hidden (line 240), the header row otherwise. */
  function TheadLine(hideHeader: bool): string {
    if hideHeader then "<thead></thead>" else "<thead>" + HeaderRow() + "</thead>"
  }

  /** Lines 228-231 and 240-242: the rows, joined by newlines, inside `<tbody>`. */
  function Body(rows: seq<string>): string {
    "<tbody>" + Join(rows, "\n") + "</tbody>"
  }

  /** Lines 239-244 as written: `table_html` (head, newline, body, newline)
      is followed by a second `</tbody>` before the table closes. */
  function MetricsViewAsWritten(entry: TrainingHistoryEntry, hideHeader: bool, formatFloat: real -> string): string {
    TableOpenLine + "\n" + TheadLine(hideHeader) + "\n" + Body(BlockRows(entry.blocks, formatFloat)) + "\n"
      + "</tbody>" + "\n" + TableClose
  }

  /** Lines 239-244 as evidently intended: the table closes right after `table_html`. */
  function MetricsView(entry: TrainingHistoryEntry, hideHeader: bool, formatFloat: real -> string): string {
    TableOpenLine + "\n" + TheadLine(hideHeader) + "\n" + Body(BlockRows(entry.blocks, formatFloat)) + "\n" + TableClose
  }

  /** No cell text of the entry holds a newline. */
  ghost predicate CellsSingleLine(blocks: seq<seq<PyValue>>, formatFloat: real -> string) {
    forall k, j :: 0 <= k < |blocks| && 0 <= j < |blocks[k]| ==> '\n' !in CellText(blocks[k][j], formatFloat)
  }

  lemma HeaderCellsSingleLine(names: seq<string>)
    requires forall i :: 0 <= i < |names| ==> '\n' !in names[i]
    ensures '\n' !in HeaderCells(names)
  {
    assert '\n' !in ThOpen && '\n' !in "</th>";
    if names != [] {
      HeaderCellsSingleLine(names[1..]);
    }
  }

  lemma HeaderRowSingleLine()
    ensures '\n' !in HeaderRow()
  {
    assert DisplayNames[0] == "Hit count" && DisplayNames[1] == "Dprime same modal" && DisplayNames[2] == "Dprime other modal go";
    assert '\n' !in "Hit count";
    assert '\n' !in "Dprime same modal";
    assert '\n' !in "Dprime other modal go";
    HeaderCellsSingleLine(DisplayNames);
    assert '\n' !in ThOpen && '\n' !in "Block Index" && '\n' !in "</th>";
  }

  lemma FixedTextSingleLine()
    ensures '\n' !in TableOpenLine && '\n' !in TableClose && '\n' !in TheadLine(true) && '\n' !in TheadLine(false)
  {
    assert '\n' !in "<div class=\"table-responsive\">";
    assert '\n' !in "<table class=\"table ";
    assert '\n' !in "mb-0 table-striped\">";
    HeaderRowSingleLine();
  }

  lemma BlockRowsSingleLine(blocks: seq<seq<PyValue>>, formatFloat: real -> string)
    requires CellsSingleLine(blocks, formatFloat)
    ensures forall k :: 0 <= k < |blocks| ==> '\n' !in BlockRows(blocks, formatFloat)[k]
  {
    forall k | 0 <= k < |blocks| ensures '\n' !in BlockRows(blocks, formatFloat)[k] {
      var values := blocks[k];
      var cells := seq(|values|, j requires 0 <= j < |values| => BlockValueView(values[j], formatFloat));
      forall j | 0 <= j < |cells| ensures '\n' !in cells[j] {
        assert '\n' !in TdOpen && '\n' !in "</td>";
      }
      ConcatSingleLine(cells);
    }
  }

  /** The rows of the body, read back line by line, are the block rows. */
  lemma BlockRowsRoundTrip(blocks: seq<seq<PyValue>>, formatFloat: real -> string)
    requires |blocks| >= 1 && CellsSingleLine(blocks, formatFloat)
    ensures Lines(Join(BlockRows(blocks, formatFloat), "\n")) == BlockRows(blocks, formatFloat)
  {
    BlockRowsSingleLine(blocks, formatFloat);
    LinesOfJoin(BlockRows(blocks, formatFloat));
  }

  /** The lines of the body are the rows framed by the body tags. */
  lemma BodyLines(rows: seq<string>)
    requires forall i :: 0 <= i < |rows| ==> '\n' !in rows[i]
    ensures Lines(Body(rows)) == Framed(rows, "<tbody>", "</tbody>")
  {
    assert '\n' !in "<tbody>" && '\n' !in "</tbody>";
    LinesFramed(rows, "<tbody>", "</tbody>");
  }

  /** The lines of the opening, the head and the body of a view. */
  lemma ViewTopLines(o: string, t: string, rows: seq<string>)
    requires '\n' !in o && '\n' !in t
    requires forall i :: 0 <= i < |rows| ==> '\n' !in rows[i]
    ensures Lines(o + "\n" + t + "\n" + Body(rows)) == [o, t] + Framed(rows, "<tbody>", "</tbody>")
  {
    LinesAtNewline(o, t);
    LinesSingle(o);
    LinesSingle(t);
    BodyLines(rows);
    LinesAtNewline(o + "\n" + t, Body(rows));
  }

  /** Two one-line texts after a newline each add one line. */
  lemma LinesOfTail(top: string, mid: string, c: string)
    requires '\n' !in mid && '\n' !in c
    ensures Lines(top + "\n" + mid + "\n" + c) == Lines(top) + [mid, c]
  {
    LinesAtNewline(top, mid);
    LinesSingle(mid);
    LinesAtNewline(top + "\n" + mid, c);
    LinesSingle(c);
  }

  /** Line by line, the metrics view is the table opening, the head (empty
      when hidden), the body with one line per block row framed by `<tbody>`
      and `</tbody>`, and the closing tags. */
  lemma MetricsViewLines(entry: TrainingHistoryEntry, hideHeader: bool, formatFloat: real -> string)
    requires CellsSingleLine(entry.blocks, formatFloat)
    ensures Lines(MetricsView(entry, hideHeader, formatFloat))
         == [TableOpenLine, TheadLine(hideHeader)] + Framed(BlockRows(entry.blocks, formatFloat), "<tbody>", "</tbody>")
            + [TableClose]
  {
    var rows := BlockRows(entry.blocks, formatFloat);
    var top := TableOpenLine + "\n" + TheadLine(hideHeader) + "\n" + Body(rows);
    FixedTextSingleLine();
    BlockRowsSingleLine(entry.blocks, formatFloat);
    ViewTopLines(TableOpenLine, TheadLine(hideHeader), rows);
    LinesAtNewline(top, TableClose);
    LinesSingle(TableClose);
  }

  /** As written, a bare `</tbody>` line follows the body, which has already
      closed, so the view closes `tbody` twice. */
  lemma MetricsViewAsWrittenClosesBodyTwice(entry: TrainingHistoryEntry, hideHeader: bool, formatFloat: real -> string)
    requires CellsSingleLine(entry.blocks, formatFloat)
    ensures Lines(MetricsViewAsWritten(entry, hideHeader, formatFloat))
         == [TableOpenLine, TheadLine(hideHeader)] + Framed(BlockRows(entry.blocks, formatFloat), "<tbody>", "</tbody>")
            + ["</tbody>", TableClose]
  {
    var rows := BlockRows(entry.blocks, formatFloat);
    var top := TableOpenLine + "\n" + TheadLine(hideHeader) + "\n" + Body(rows);
    FixedTextSingleLine();
    BlockRowsSingleLine(entry.blocks, formatFloat);
    ViewTopLines(TableOpenLine, TheadLine(hideHeader), rows);
    assert '\n' !in "</tbody>";
    LinesOfTail(top, "</tbody>", TableClose);
  }

  /** The view as written has exactly one line more than the corrected one. */
  lemma MetricsViewAsWrittenOneLineLonger(entry: TrainingHistoryEntry, hideHeader: bool, formatFloat: real -> string)
    requires CellsSingleLine(entry.blocks, formatFloat)
    ensures |Lines(MetricsViewAsWritten(entry, hideHeader, formatFloat))| == |Lines(MetricsView(entry, hideHeader, formatFloat))| + 1
  {
    MetricsViewLines(entry, hideHeader, formatFloat);
    MetricsViewAsWrittenClosesBodyTwice(entry, hideHeader, formatFloat);
  }

  // ---------------------------------------------------------------------
  // `generate_mtrain_table` (lines 247-257)

  /** `list.reverse()`. */
  function Reverse<T>(s: seq<T>): (r: seq<T>)
    ensures |r| == |s|
  {
    seq(|s|, i requires 0 <= i < |s| => s[|s| - 1 - i])
  }

  /** Line 253: one table row per history entry. */
  function EntryRow(entry: TrainingHistoryEntry, hideHeader: bool, formatFloat: real -> string): string {
    "<tr><td>" + entry.date + "</td><td>" + entry.stageName + "</td><td colspan=\"0\">"
      + MetricsView(entry, hideHeader, formatFloat) + "</td></tr>"
  }

  /** Lines 249-255: the entries newest first, the metric header shown on the first only. */
  function MtrainRows(history: seq<TrainingHistoryEntry>, formatFloat: real -> string): (rows: seq<string>)
    ensures |rows| == |history|
  {
    var reversed := Reverse(history);
    seq(|reversed|, i requires 0 <= i < |reversed| => EntryRow(reversed[i], i != 0, formatFloat))
  }

  const MtrainHeader: string := "<tr><th>Session datetime</th><th>Stage name</th><th>Session Metrics</th></tr>"

  /** Line 256. */
  function MtrainTableHtml(history: seq<TrainingHistoryEntry>, formatFloat: real -> string): string {
    "<table class=\"table table-striped\">\n" + MtrainHeader + "\n\n" + Concat(MtrainRows(history, formatFloat)) + "\n</table>"
  }

  /** Lines 247-257 over the extracted table rows. */
  function MtrainTable(tableData: seq<seq<string>>, subjectId: string, sessionId: string, sv: Services,
                       formatFloat: real -> string): Result<string, HistoryError>
  {
    var history :- TrainingHistoryOf(tableData, subjectId, sessionId, sv);
    Success(MtrainTableHtml(history, formatFloat))
  }

  /** The first n sorted summaries in reverse list their datetimes from the
      latest down. */
  lemma ShownNewestFirst(sorted: seq<SessionSummary>, n: nat, shown: seq<SessionSummary>)
    requires SortedByDate(sorted) && n <= |sorted| && shown == Reverse(sorted[..n])
    ensures forall i, j :: 0 <= i < j < n ==> shown[j].datetime <= shown[i].datetime
  {
    forall i, j | 0 <= i < j < n ensures shown[j].datetime <= shown[i].datetime {
      assert shown[j] == sorted[..n][n - 1 - j] == sorted[n - 1 - j];
      assert shown[i] == sorted[..n][n - 1 - i] == sorted[n - 1 - i];
    }
  }

  /** Converting the summaries shown in reverse gives the entries in reverse. */
  lemma ShownConverted(sorted: seq<SessionSummary>, h: seq<TrainingHistoryEntry>, convert: Converter)
    requires |h| <= |sorted|
    requires forall j :: 0 <= j < |h| ==> convert(sorted[j]) == Success(h[j])
    ensures forall i :: 0 <= i < |h| ==> convert(Reverse(sorted[..|h|])[i]) == Success(Reverse(h)[i])
  {
    var shown, rh := Reverse(sorted[..|h|]), Reverse(h);
    forall i | 0 <= i < |h| ensures convert(shown[i]) == Success(rh[i]) {
      var j := |h| - 1 - i;
      assert shown[i] == sorted[..|h|][j] == sorted[j];
      assert rh[i] == h[j];
    }
  }

  /** The summary converter agrees with `TrainingSummary` element by element. */
  lemma SummariesAgree(xs: seq<SessionSummary>, ys: seq<TrainingHistoryEntry>, sv: Services)
    requires |xs| == |ys|
    ensures (forall j :: 0 <= j < |xs| ==> Summaries(sv)(xs[j]) == Success(ys[j]))
        <==> (forall j :: 0 <= j < |xs| ==> TrainingSummary(xs[j], sv) == Success(ys[j]))
  {
  }

  /** Row i of the table shows entry i of the reversed history, with the
      metric header on the first row only. */
  lemma MtrainRowsAt(h: seq<TrainingHistoryEntry>, formatFloat: real -> string, i: nat)
    requires i < |h|
    ensures MtrainRows(h, formatFloat)[i] == EntryRow(Reverse(h)[i], i != 0, formatFloat)
  {
  }

  /** The rows of a history converted from a date-sorted list of summaries
      ending at `target`: row i shows the entry of the i-th summary from the
      end, the first is `target` with the metric header, and datetimes never
      increase down the rows. */
  lemma RowsNewestFirst(sorted: seq<SessionSummary>, h: seq<TrainingHistoryEntry>, target: SessionSummary,
                        sv: Services)
    requires SortedByDate(sorted) && 0 < |h| <= |sorted| && sorted[|h| - 1] == target
    requires forall j :: 0 <= j < |h| ==> TrainingSummary(sorted[j], sv) == Success(h[j])
    ensures var shown := Reverse(sorted[..|h|]);
      && shown[0] == target
      && (forall i :: 0 <= i < |h| ==>
            TrainingSummary(shown[i], sv) == Success(Reverse(h)[i]))
      && (forall i, j :: 0 <= i < j < |h| ==> shown[j].datetime <= shown[i].datetime)
  {
    var shown := Reverse(sorted[..|h|]);
    assert sorted[..|h|][|h| - 1] == sorted[|h| - 1];
    forall j | 0 <= j < |h| ensures TrainingSummary(sorted[..|h|][j], sv) == Success(h[j]) {
      assert sorted[..|h|][j] == sorted[j];
    }
    SummariesAgree(sorted[..|h|], h, sv);
    ShownConverted(sorted, h, Summaries(sv));
    SummariesAgree(shown, Reverse(h), sv);
    ShownNewestFirst(sorted, |h|, shown);
  }

  /** The table is built exactly when the history is. Its rows show the
      summaries up to the target session in reverse: the first row is the
      target session with the metric header, the others have the header
      hidden, and session datetimes never increase down the table. */
  lemma MtrainTableNewestFirst(tableData: seq<seq<string>>, subjectId: string, sessionId: string, sv: Services,
                               formatFloat: real -> string)
    ensures MtrainTable(tableData, subjectId, sessionId, sv, formatFloat).Success?
        <==> TrainingHistoryOf(tableData, subjectId, sessionId, sv).Success?
    ensures TrainingHistoryOf(tableData, subjectId, sessionId, sv).Success? ==>
      var m := MapOfRows(tableData, subjectId, sv.parseDate).value;
      var sorted := SortByDatetime(Values(m));
      var h := TrainingHistoryOf(tableData, subjectId, sessionId, sv).value;
      var rows := MtrainRows(h, formatFloat);
      && 0 < |h| <= |sorted|
      && var shown := Reverse(sorted[..|h|]);
      && sessionId in m.entries && shown[0] == m.entries[sessionId]
      && (forall i :: 0 <= i < |h| ==>
            (TrainingSummary(shown[i], sv) == Success(Reverse(h)[i])
             && rows[i] == EntryRow(Reverse(h)[i], i != 0, formatFloat)))
      && (forall i, j :: 0 <= i < j < |h| ==> shown[j].datetime <= shown[i].datetime)
  {
    if TrainingHistoryOf(tableData, subjectId, sessionId, sv).Success? {
      TrainingHistoryEndsAtTarget(tableData, subjectId, sessionId, sv);
      var m := MapOfRows(tableData, subjectId, sv.parseDate).value;
      RowsNewestFirst(SortByDatetime(Values(m)), TrainingHistoryOf(tableData, subjectId, sessionId, sv).value,
                      m.entries[sessionId], sv);
      var h := TrainingHistoryOf(tableData, subjectId, sessionId, sv).value;
      forall i | 0 <= i < |h| ensures MtrainRows(h, formatFloat)[i] == EntryRow(Reverse(h)[i], i != 0, formatFloat) {
        MtrainRowsAt(h, formatFloat, i);
      }
    }
  }
}
