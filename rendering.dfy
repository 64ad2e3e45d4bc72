/**
 * The HTML that `concatSpecResults` writes for the feature tables, and the methods that build
 * it as the source does: `concatSpecResults`, `concatSpecTableHeader`, `concatStackTrace`.
 */
module Rendering {
  import opened Text
  import opened AssocLists
  import opened Filenames
  import opened Sorting
  import opened Grouping
  import opened Tables

  /** `reporter.encodeEntities`, whose definition is not part of this model: any function. */
  type Encoder = string -> string

  /** A pass cell: a link to the screenshot reading PASS. */
  function PassCellHtml(scen: string, b: string): string
  {
    "<td class=\"pass\">" + LinkToScreenshot(scen, b) + "PASS</a></td>"
  }

  /** A fail cell: a link to the screenshot and a toggle for the stack-trace row `RunId(scen, b)`. */
  function FailCellHtml(scen: string, b: string): string
  {
    "<td class=\"fail\">FAIL " + LinkToScreenshot(scen, b)
    + "screen shot</a> <a href=\"#\" onclick=\"showhide('" + RunId(scen, b) + "')\">stack trace</a></td>"
  }

  function SkipCellHtml(duration: nat): string
  {
    "<td class=\"skip\">Skipped (test duration " + NatToString(duration) + "ms)</td>"
  }

  /** The HTML of one cell of the row of scenario `scen`. */
  function CellHtml(scen: string, c: Cell): string
  {
    match c
    case PassCell(b) => PassCellHtml(scen, b)
    case FailCell(b, _) => FailCellHtml(scen, b)
    case SkipCell(d) => SkipCellHtml(d)
  }

  function CellsHtml(scen: string, cells: seq<Cell>): string
  {
    if cells == [] then "" else CellsHtml(scen, cells[..|cells| - 1]) + CellHtml(scen, cells[|cells| - 1])
  }

  /** One line of a stack-trace block: the first in the `error` cell, the others in plain cells. */
  function TraceLineHtml(first: bool, line: string, encode: Encoder): string
  {
    if first then "<tr><td class=\"error\">" + encode(line) + "</td></tr>"
    else "<tr><td>" + encode(line) + "</td></tr>"
  }

  function TraceLinesHtml(lines: seq<string>, encode: Encoder): string
  {
    if lines == [] then ""
    else TraceLinesHtml(lines[..|lines| - 1], encode) + TraceLineHtml(|lines| == 1, lines[|lines| - 1], encode)
  }

  /** The opening of a stack-trace block: a hidden row spanning `colspan` columns. */
  function TraceBlockOpening(id: string, colspan: nat): string
  {
    "<tr class=\"stack\" style=\"display:none\" id=\"" + id + "\">"
    + "<td colspan=\"" + NatToString(colspan) + "\" style=\"background-color: #FFBBBB\">"
    + "<table class=\"stacker\">"
  }

  /** The collapsible stack-trace row of a failed run; nothing at all when it has no lines. */
  function StackTraceHtml(id: string, lines: seq<string>, colspan: nat, encode: Encoder): (r: string)
    ensures r == "" <==> lines == []
  {
    if lines == [] then ""
    else TraceBlockOpening(id, colspan) + TraceLinesHtml(lines, encode) + TraceBlockClosing
  }

  const TraceBlockClosing := "</table></td></tr>"

  /** The fail cells among `cells`, in order. */
  function FailedCells(cells: seq<Cell>): (r: seq<Cell>)
    ensures forall k :: 0 <= k < |r| ==> r[k].FailCell?
    ensures forall c :: c in cells && c.FailCell? ==> c in r
  {
    if cells == [] then []
    else
      var init, last := cells[..|cells| - 1], cells[|cells| - 1];
      assert forall c :: c in cells ==> c in init || c == last;
      FailedCells(init) + (if last.FailCell? then [last] else [])
  }

  /** Each fail cell is kept as often as it occurs. */
  lemma {:induction false} FailedCellsCount(cells: seq<Cell>, c: Cell)
    requires c.FailCell?
    ensures multiset(FailedCells(cells))[c] == multiset(cells)[c]
  {
    if cells != [] {
      var init, last := cells[..|cells| - 1], cells[|cells| - 1];
      assert cells == init + [last];
      FailedCellsCount(init, c);
    }
  }

  /** Fail cells are picked out one cell at a time, keeping their order. */
  lemma {:induction false} FailedCellsAppend(a: seq<Cell>, b: seq<Cell>)
    ensures FailedCells(a + b) == FailedCells(a) + FailedCells(b)
    decreases |b|
  {
    if b == [] {
      assert a + b == a;
    } else {
      var init, last := b[..|b| - 1], b[|b| - 1];
      var ab := a + b;
      assert ab[..|ab| - 1] == a + init;
      assert ab[|ab| - 1] == last;
      FailedCellsAppend(a, init);
    }
  }

  /** A single cell is kept exactly when it is a fail cell. */
  lemma FailedCellsOne(c: Cell)
    ensures FailedCells([c]) == if c.FailCell? then [c] else []
  {
    assert [c][..0] == [];
  }

  /** The stack-trace blocks a row queues: one per fail cell, in cell order, each with the id of
      the cell's screenshot. */
  function TraceBlocks(scen: string, cells: seq<Cell>, colspan: nat, encode: Encoder): (r: seq<string>)
    ensures |r| == |FailedCells(cells)|
    ensures forall k :: 0 <= k < |r| ==>
              var c := FailedCells(cells)[k];
              r[k] == StackTraceHtml(RunId(scen, c.browser), c.stackTrace, colspan, encode)
  {
    if cells == [] then []
    else
      var c := cells[|cells| - 1];
      TraceBlocks(scen, cells[..|cells| - 1], colspan, encode)
      + (if c.FailCell? then [StackTraceHtml(RunId(scen, c.browser), c.stackTrace, colspan, encode)] else [])
  }

  /** The row number and the scenario name that open a scenario row. */
  function RowOpening(index: nat, scen: string): string
  {
    "<tr><td>" + NatToString(index) + "</td><td class=\"testname\">" + scen + "</td>"
  }

  /** A scenario row, followed by the stack-trace blocks of its failed runs. */
  function RowHtml(row: Row, colspan: nat, encode: Encoder): string
  {
    RowOpening(row.index, row.scenario) + CellsHtml(row.scenario, row.cells) + "</tr>"
    + Concat(TraceBlocks(row.scenario, row.cells, colspan, encode))
  }

  function RowsHtml(rows: seq<Row>, colspan: nat, encode: Encoder): string
  {
    if rows == [] then "" else RowsHtml(rows[..|rows| - 1], colspan, encode) + RowHtml(rows[|rows| - 1], colspan, encode)
  }

  function Th(name: string): string
  {
    "<th>" + name + "</th>"
  }

  function HeaderCellsHtml(names: seq<string>): string
  {
    if names == [] then "" else HeaderCellsHtml(names[..|names| - 1]) + Th(names[|names| - 1])
  }

  /** The header row of a feature table: `Test#`, the feature name, then the browsers. */
  function HeaderHtml(featureName: string, browsers: seq<string>): string
  {
    "<tr>" + HeaderCellsHtml(["Test#", featureName] + browsers) + "</tr>"
  }

  const TableOpening := "<table class=\"testlist\">"
  const TableClosing := "</tr></table>"

  /** A feature table; the extra columns are the row number and the scenario name. */
  function TableHtml(t: Table, browsers: seq<string>, encode: Encoder): string
  {
    TableOpening + HeaderHtml(t.feature, browsers) + RowsHtml(t.rows, |browsers| + 2, encode) + TableClosing
  }

  function TablesHtml(ts: seq<Table>, browsers: seq<string>, encode: Encoder): string
  {
    if ts == [] then "" else TablesHtml(ts[..|ts| - 1], browsers, encode) + TableHtml(ts[|ts| - 1], browsers, encode)
  }

  lemma TraceLinesSnoc(st: seq<string>, i: nat, encode: Encoder)
    requires i < |st|
    ensures TraceLinesHtml(st[..i + 1], encode) == TraceLinesHtml(st[..i], encode) + TraceLineHtml(i == 0, st[i], encode)
  {
    assert st[..i + 1][..i] == st[..i];
  }

  /** `concatStackTrace(id, run, colspan)`. The source also tests `run.stackTrace` for
      truthiness, which an array always has; only the length decides. */
  method ConcatStackTrace(id: string, run: Run, colspan: nat, encode: Encoder) returns (result: string)
    ensures result == StackTraceHtml(id, run.stackTrace, colspan, encode)
  {
    result := "";
    if |run.stackTrace| > 0 {
      result := result + TraceBlockOpening(id, colspan);
      EmptyLeft(TraceBlockOpening(id, colspan));
      result := PushTraceLines(result, run.stackTrace, encode);
      result := result + TraceBlockClosing;
    }
  }

  /** The lines of a stack-trace block, appended to `result`: the first line, then a loop over
      the others. */
  method PushTraceLines(prefix: string, st: seq<string>, encode: Encoder) returns (result: string)
    requires |st| > 0
    ensures result == prefix + TraceLinesHtml(st, encode)
  {
    result := prefix + TraceLineHtml(true, st[0], encode);
    TraceLinesSnoc(st, 0, encode);
    assert st[..0] == [];
    EmptyLeft(TraceLineHtml(true, st[0], encode));
    var i := 1;
    while i < |st|
      invariant 1 <= i <= |st|
      invariant result == prefix + TraceLinesHtml(st[..i], encode)
    {
      var line := TraceLineHtml(false, st[i], encode);
      TraceLinesSnoc(st, i, encode);
      AppendAssoc(prefix, TraceLinesHtml(st[..i], encode), line);
      result := result + line;
      i := i + 1;
    }
    assert st[..|st|] == st;
  }

  lemma HeaderCellsSnoc(names: seq<string>, i: nat)
    requires i < |names|
    ensures HeaderCellsHtml(names[..i + 1]) == HeaderCellsHtml(names[..i]) + Th(names[i])
  {
    assert names[..i + 1][..i] == names[..i];
  }

  /** `concatSpecTableHeader(featureName, sortedBrowsers)`. */
  method ConcatSpecTableHeader(featureName: string, sortedBrowsers: array<string>) returns (result: string)
    ensures result == HeaderHtml(featureName, sortedBrowsers[..])
  {
    result := "<tr>" + Th("Test#") + Th(featureName);
    ghost var names := ["Test#", featureName] + sortedBrowsers[..];
    HeaderCellsSnoc(names, 0);
    HeaderCellsSnoc(names, 1);
    assert names[..0] == [];
    EmptyLeft(Th("Test#"));
    AppendAssoc("<tr>", Th("Test#"), Th(featureName));
    var i := 0;
    while i < sortedBrowsers.Length
      invariant 0 <= i <= sortedBrowsers.Length
      invariant result == "<tr>" + HeaderCellsHtml(names[..i + 2])
    {
      var cell := Th(sortedBrowsers[i]);
      HeaderCellsSnoc(names, i + 2);
      AppendAssoc("<tr>", HeaderCellsHtml(names[..i + 2]), cell);
      result := result + cell;
      i := i + 1;
    }
    result := result + "</tr>";
    assert names[..sortedBrowsers.Length + 2] == names;
  }

  lemma {:induction false} CellsHtmlAppend(scen: string, a: seq<Cell>, b: seq<Cell>)
    ensures CellsHtml(scen, a + b) == CellsHtml(scen, a) + CellsHtml(scen, b)
    decreases |b|
  {
    if b == [] {
      assert a + b == a;
      assert CellsHtml(scen, a) + "" == CellsHtml(scen, a);
    } else {
      var b' := b[..|b| - 1];
      assert (a + b)[..|a + b| - 1] == a + b';
      CellsHtmlAppend(scen, a, b');
      AppendAssoc(CellsHtml(scen, a), CellsHtml(scen, b'), CellHtml(scen, b[|b| - 1]));
    }
  }

  lemma {:induction false} TraceBlocksAppend(scen: string, a: seq<Cell>, b: seq<Cell>, colspan: nat, encode: Encoder)
    ensures TraceBlocks(scen, a + b, colspan, encode)
            == TraceBlocks(scen, a, colspan, encode) + TraceBlocks(scen, b, colspan, encode)
    decreases |b|
  {
    if b == [] {
      assert a + b == a;
    } else {
      var b' := b[..|b| - 1];
      assert (a + b)[..|a + b| - 1] == a + b';
      TraceBlocksAppend(scen, a, b', colspan, encode);
    }
  }

  /** What one browser column adds for a run: its cell and, for a failure, its trace block. */
  lemma RunCellsSnoc(scen: string, run: Run, bs: seq<string>, b: nat, colspan: nat, encode: Encoder)
    requires b < |bs|
    ensures var cs := if bs[b] == run.name then CellOf(run) else [];
            && RunCells(run, bs[..b + 1]) == RunCells(run, bs[..b]) + cs
            && CellsHtml(scen, RunCells(run, bs[..b + 1])) == CellsHtml(scen, RunCells(run, bs[..b])) + CellsHtml(scen, cs)
            && TraceBlocks(scen, RunCells(run, bs[..b + 1]), colspan, encode)
               == TraceBlocks(scen, RunCells(run, bs[..b]), colspan, encode) + TraceBlocks(scen, cs, colspan, encode)
  {
    assert bs[..b + 1][..b] == bs[..b];
    var cs := if bs[b] == run.name then CellOf(run) else [];
    CellsHtmlAppend(scen, RunCells(run, bs[..b]), cs);
    TraceBlocksAppend(scen, RunCells(run, bs[..b]), cs, colspan, encode);
  }

  /** `RunCellsSnoc`, with the added cell's HTML and blocks given by name. */
  lemma RunCellsStep(scen: string, run: Run, bs: seq<string>, b: nat, colspan: nat, encode: Encoder,
                     cell: string, blocks: seq<string>)
    requires b < |bs|
    requires var cs := if bs[b] == run.name then CellOf(run) else [];
             cell == CellsHtml(scen, cs) && blocks == TraceBlocks(scen, cs, colspan, encode)
    ensures CellsHtml(scen, RunCells(run, bs[..b + 1])) == CellsHtml(scen, RunCells(run, bs[..b])) + cell
    ensures TraceBlocks(scen, RunCells(run, bs[..b + 1]), colspan, encode)
            == TraceBlocks(scen, RunCells(run, bs[..b]), colspan, encode) + blocks
  {
    RunCellsSnoc(scen, run, bs, b, colspan, encode);
  }

  /** The HTML and the trace blocks of a run's own cell. */
  lemma CellOfHtml(scen: string, run: Run, colspan: nat, encode: Encoder)
    ensures CellsHtml(scen, CellOf(run)) ==
            match run.status
            case Passed => PassCellHtml(scen, run.name)
            case Failed => FailCellHtml(scen, run.name)
            case Skipped => SkipCellHtml(run.duration)
            case Unrecognised => ""
    ensures TraceBlocks(scen, CellOf(run), colspan, encode) ==
            if run.status == Failed then [StackTraceHtml(RunId(scen, run.name), run.stackTrace, colspan, encode)]
            else []
  {
    var cs := CellOf(run);
    if cs != [] {
      assert cs[..0] == [];
      EmptyLeft(CellHtml(scen, cs[0]));
    }
  }

  /** The loop over the browser list for one stored run of a scenario row: the cells it writes
      and the trace blocks it queues. */
  method ConcatRunCells(scen: string, run: Run, browsers: array<string>, encode: Encoder)
    returns (cells: string, exceptions: seq<string>)
    ensures cells == CellsHtml(scen, RunCells(run, browsers[..]))
    ensures exceptions == TraceBlocks(scen, RunCells(run, browsers[..]), browsers.Length + 2, encode)
  {
    cells := "";
    exceptions := [];
    ghost var bs := browsers[..];
    var colspan := browsers.Length + 2;
    var b := 0;
    while b < browsers.Length
      invariant 0 <= b <= browsers.Length
      invariant cells == CellsHtml(scen, RunCells(run, bs[..b]))
      invariant exceptions == TraceBlocks(scen, RunCells(run, bs[..b]), colspan, encode)
    {
      var cell, blocks := ConcatBrowserCell(scen, run, browsers[b], colspan, encode);
      RunCellsStep(scen, run, bs, b, colspan, encode, cell, blocks);
      cells := cells + cell;
      exceptions := exceptions + blocks;
      b := b + 1;
    }
    assert bs[..browsers.Length] == bs;
  }

  /** The body of that loop for the column of `browserName`: the status tests of the source. */
  method ConcatBrowserCell(scen: string, run: Run, browserName: string, colspan: nat, encode: Encoder)
    returns (cell: string, blocks: seq<string>)
    ensures var cs := if browserName == run.name then CellOf(run) else [];
            cell == CellsHtml(scen, cs) && blocks == TraceBlocks(scen, cs, colspan, encode)
  {
    cell := "";
    blocks := [];
    CellOfHtml(scen, run, colspan, encode);
    if browserName == run.name {
      if run.status == Passed {
        cell := cell + PassCellHtml(scen, browserName);
      }
      if run.status == Failed {
        cell := cell + FailCellHtml(scen, browserName);
        var block := ConcatStackTrace(RunId(scen, browserName), run, colspan, encode);
        blocks := blocks + [block];
      }
      if run.status == Skipped {
        cell := cell + SkipCellHtml(run.duration);
      }
      EmptyLeft(CellsHtml(scen, CellOf(run)));
    }
  }

  lemma ScenarioCellsStep(scen: string, runs: Runs, bs: seq<string>, r: nat, colspan: nat, encode: Encoder,
                          cells: string, blocks: seq<string>)
    requires r < |runs|
    requires cells == CellsHtml(scen, RunCells(runs[r].1, bs))
    requires blocks == TraceBlocks(scen, RunCells(runs[r].1, bs), colspan, encode)
    ensures CellsHtml(scen, ScenarioCells(runs[..r + 1], bs)) == CellsHtml(scen, ScenarioCells(runs[..r], bs)) + cells
    ensures TraceBlocks(scen, ScenarioCells(runs[..r + 1], bs), colspan, encode)
            == TraceBlocks(scen, ScenarioCells(runs[..r], bs), colspan, encode) + blocks
  {
    assert runs[..r + 1][..r] == runs[..r];
    CellsHtmlAppend(scen, ScenarioCells(runs[..r], bs), RunCells(runs[r].1, bs));
    TraceBlocksAppend(scen, ScenarioCells(runs[..r], bs), RunCells(runs[r].1, bs), colspan, encode);
  }

  /** One scenario row of `concatSpecResults`: the number and name, the loop over the stored
      runs (each over the browser list), `</tr>`, then the queued stack-trace blocks. */
  method ConcatScenarioRow(index: nat, scen: string, runs: Runs, browsers: array<string>, encode: Encoder)
    returns (html: string)
    ensures html == RowHtml(Row(index, scen, ScenarioCells(runs, browsers[..])), browsers.Length + 2, encode)
  {
    ghost var bs := browsers[..];
    ghost var colspan := browsers.Length + 2;
    var opening := RowOpening(index, scen);
    html := opening;
    var exceptions := [];
    assert runs[..0] == [];
    EmptyRight(opening);
    var r := 0;
    while r < |runs|
      invariant 0 <= r <= |runs|
      invariant html == opening + CellsHtml(scen, ScenarioCells(runs[..r], bs))
      invariant exceptions == TraceBlocks(scen, ScenarioCells(runs[..r], bs), colspan, encode)
    {
      var cells, blocks := ConcatRunCells(scen, runs[r].1, browsers, encode);
      ScenarioCellsStep(scen, runs, bs, r, colspan, encode, cells, blocks);
      AppendAssoc(opening, CellsHtml(scen, ScenarioCells(runs[..r], bs)), cells);
      html := html + cells;
      exceptions := exceptions + blocks;
      r := r + 1;
    }
    assert runs[..|runs|] == runs;
    html := html + "</tr>";
    ghost var top := html;
    assert exceptions[..0] == [];
    EmptyRight(top);
    if |exceptions| > 0 {
      var i := 0;
      while i < |exceptions|
        invariant 0 <= i <= |exceptions|
        invariant html == top + Concat(exceptions[..i])
      {
        ConcatSnoc(exceptions, i);
        AppendAssoc(top, Concat(exceptions[..i]), exceptions[i]);
        html := html + exceptions[i];
        i := i + 1;
      }
      assert exceptions[..|exceptions|] == exceptions;
    }
  }

  lemma RowsStep(base: nat, sc: Scenarios, bs: seq<string>, j: nat, colspan: nat, encode: Encoder, index: nat, row: string)
    requires j < |sc| && index == base + j + 1
    requires row == RowHtml(Row(index, sc[j].0, ScenarioCells(sc[j].1, bs)), colspan, encode)
    ensures RowsHtml(Rows(base, sc[..j + 1], bs), colspan, encode)
            == RowsHtml(Rows(base, sc[..j], bs), colspan, encode) + row
  {
    var s := sc[..j + 1];
    assert s[..|s| - 1] == sc[..j] && s[|s| - 1] == sc[j];
    var rows, prev := Rows(base, s, bs), Rows(base, sc[..j], bs);
    var r := Row(index, sc[j].0, ScenarioCells(sc[j].1, bs));
    RowsSnoc(base, s, bs);
    assert rows == prev + [r];
    RowsHtmlOfSnoc(rows, prev, r, colspan, encode);
  }

  lemma RowsSnoc(base: nat, s: Scenarios, bs: seq<string>)
    requires |s| > 0
    ensures Rows(base, s, bs)
            == Rows(base, s[..|s| - 1], bs) + [Row(base + |s|, s[|s| - 1].0, ScenarioCells(s[|s| - 1].1, bs))]
  {
  }

  lemma RowsHtmlOfSnoc(rows: seq<Row>, prev: seq<Row>, r: Row, colspan: nat, encode: Encoder)
    requires rows == prev + [r]
    ensures RowsHtml(rows, colspan, encode) == RowsHtml(prev, colspan, encode) + RowHtml(r, colspan, encode)
  {
    assert rows[..|rows| - 1] == prev;
  }

  /** One feature table of `concatSpecResults`: the opening, the header, the scenario rows and
      the closing. */
  method ConcatFeatureTable(f: string, sc: Scenarios, browsers: array<string>, countIndex: nat, encode: Encoder)
    returns (html: string, count: nat)
    ensures count == countIndex + |sc|
    ensures html == TableHtml(Table(f, Rows(countIndex, sc, browsers[..])), browsers[..], encode)
  {
    html := TableOpening;
    var header := ConcatSpecTableHeader(f, browsers);
    html := html + header;
    var rows;
    rows, count := ConcatScenarioRows(sc, browsers, countIndex, encode);
    html := html + rows;
    html := html + TableClosing;
  }

  /** The loop over a feature's scenarios: one row each, with `countIndex` incremented before
      it. The source's `hasOwnProperty` test holds for every key the loop visits. */
  method ConcatScenarioRows(sc: Scenarios, browsers: array<string>, countIndex: nat, encode: Encoder)
    returns (html: string, count: nat)
    ensures count == countIndex + |sc|
    ensures html == RowsHtml(Rows(countIndex, sc, browsers[..]), browsers.Length + 2, encode)
  {
    ghost var bs := browsers[..];
    html := "";
    count := countIndex;
    assert sc[..0] == [];
    var j := 0;
    while j < |sc|
      invariant 0 <= j <= |sc|
      invariant count == countIndex + j
      invariant html == RowsHtml(Rows(countIndex, sc[..j], bs), browsers.Length + 2, encode)
    {
      count := count + 1;
      var row := ConcatScenarioRow(count, sc[j].0, sc[j].1, browsers, encode);
      RowsStep(countIndex, sc, bs, j, browsers.Length + 2, encode, count, row);
      html := html + row;
      j := j + 1;
    }
    assert sc[..|sc|] == sc;
  }

  lemma TablesStep(fs: Features, bs: seq<string>, i: nat, encode: Encoder, table: string)
    requires i < |fs|
    requires table == TableHtml(Table(fs[i].0, Rows(ScenarioCount(fs[..i]), fs[i].1, bs)), bs, encode)
    ensures TablesHtml(FeatureTables(fs[..i + 1], bs), bs, encode) == TablesHtml(FeatureTables(fs[..i], bs), bs, encode) + table
    ensures ScenarioCount(fs[..i + 1]) == ScenarioCount(fs[..i]) + |fs[i].1|
  {
    assert fs[..i + 1][..i] == fs[..i];
    var ts := FeatureTables(fs[..i + 1], bs);
    assert ts[..i] == FeatureTables(fs[..i], bs);
  }

  /** `concatSpecResults(testArray, browsers)`: groups the records, sorts the browser list in
      place, then writes one table per feature with one row counter for the whole report. */
  method ConcatSpecResults(testArray: seq<TestRecord>, browsers: array<string>, encode: Encoder)
    returns (result: string)
    modifies browsers
    ensures browsers[..] == Sort(old(browsers[..]))
    ensures result == TablesHtml(FeatureTables(Collect(testArray), browsers[..]), browsers[..], encode)
  {
    var features := CopyResultsToFeatureCollection(testArray);
    var countIndex := 0;
    result := "";
    SortInPlace(browsers);
    ghost var bs := browsers[..];
    assert features[..0] == [];
    var i := 0;
    while i < |features|
      invariant 0 <= i <= |features|
      invariant browsers[..] == bs
      invariant countIndex == ScenarioCount(features[..i])
      invariant result == TablesHtml(FeatureTables(features[..i], bs), bs, encode)
    {
      var table, count := ConcatFeatureTable(features[i].0, features[i].1, browsers, countIndex, encode);
      TablesStep(features, bs, i, encode, table);
      result := result + table;
      countIndex := count;
      i := i + 1;
    }
    assert features[..|features|] == features;
  }
}
