/**
 * The feature tables of the report: what `concatSpecResults` lays out (one table per feature,
 * one numbered row per scenario, one cell per run in a browser column), and the HTML it
 * writes for them, with `concatSpecTableHeader` and `concatStackTrace`.
 */
module Tables {
  import opened Text
  import opened AssocLists
  import opened Filenames
  import opened Sorting
  import opened Grouping

  /** A cell of a scenario row. */
  datatype Cell =
    | PassCell(browser: string)
    | FailCell(browser: string, stackTrace: seq<string>)
    | SkipCell(duration: nat)

  /** The cell a run shows in its own browser's column: none for an unrecognised status. */
  function CellOf(run: Run): (cs: seq<Cell>)
    ensures |cs| <= 1
    ensures cs == [] <==> run.status == Unrecognised
  {
    match run.status
    case Passed => [PassCell(run.name)]
    case Failed => [FailCell(run.name, run.stackTrace)]
    case Skipped => [SkipCell(run.duration)]
    case Unrecognised => []
  }

  /** The inner loop over the browser list for one run: a cell wherever the browser is the run's. */
  function RunCells(run: Run, bs: seq<string>): (cs: seq<Cell>)
    ensures run.name !in bs ==> cs == []
    ensures forall k :: 0 <= k < |cs| ==> CellOf(run) == [cs[k]]
  {
    if bs == [] then []
    else RunCells(run, bs[..|bs| - 1]) + (if bs[|bs| - 1] == run.name then CellOf(run) else [])
  }

  /** The cells of a scenario row: those of each stored run, in run insertion order. */
  function ScenarioCells(runs: Runs, bs: seq<string>): seq<Cell>
  {
    if runs == [] then []
    else ScenarioCells(runs[..|runs| - 1], bs) + RunCells(runs[|runs| - 1].1, bs)
  }

  /** The cells of consecutive runs are written one after the other. */
  lemma {:induction false} ScenarioCellsAppend(a: Runs, b: Runs, bs: seq<string>)
    ensures ScenarioCells(a + b, bs) == ScenarioCells(a, bs) + ScenarioCells(b, bs)
    decreases |b|
  {
    if b == [] {
      assert a + b == a;
    } else {
      var init, last := b[..|b| - 1], b[|b| - 1];
      var ab, x := a + b, a + init;
      assert ab[..|ab| - 1] == x && ab[|ab| - 1] == last;
      var tail := RunCells(last.1, bs);
      assert ScenarioCells(ab, bs) == ScenarioCells(x, bs) + tail;
      assert ScenarioCells(b, bs) == ScenarioCells(init, bs) + tail;
      ScenarioCellsAppend(a, init, bs);
    }
  }

  /** With distinct browser names, the row shows the runs in their insertion order: the cell of
      run `i`, if its browser is listed, comes after the cells of the runs before it and before
      those of the runs after it, whatever the order of the browser list. */
  lemma ScenarioCellsInRunOrder(runs: Runs, bs: seq<string>, i: nat)
    requires Distinct(bs) && i < |runs|
    ensures ScenarioCells(runs, bs)
            == ScenarioCells(runs[..i], bs)
               + (if runs[i].1.name in bs then CellOf(runs[i].1) else [])
               + ScenarioCells(runs[i + 1..], bs)
  {
    var one := [runs[i]];
    assert runs == runs[..i] + one + runs[i + 1..];
    ScenarioCellsAppend(runs[..i] + one, runs[i + 1..], bs);
    ScenarioCellsAppend(runs[..i], one, bs);
    assert ScenarioCells(one, bs) == RunCells(runs[i].1, bs) by {
      assert one[..0] == [];
    }
    RunCellsDistinct(runs[i].1, bs);
  }

  datatype Row = Row(index: nat, scenario: string, cells: seq<Cell>)

  datatype Table = Table(feature: string, rows: seq<Row>)

  /** The rows of one feature's scenarios, numbered on from `base`. */
  function Rows(base: nat, sc: Scenarios, bs: seq<string>): (rows: seq<Row>)
    ensures |rows| == |sc|
    ensures forall k :: 0 <= k < |sc| ==>
              rows[k] == Row(base + k + 1, sc[k].0, ScenarioCells(sc[k].1, bs))
  {
    if sc == [] then []
    else Rows(base, sc[..|sc| - 1], bs) + [Row(base + |sc|, sc[|sc| - 1].0, ScenarioCells(sc[|sc| - 1].1, bs))]
  }

  /** The number of scenarios over all features: the final value of `countIndex`. */
  function ScenarioCount(fs: Features): nat
  {
    if fs == [] then 0 else ScenarioCount(fs[..|fs| - 1]) + |fs[|fs| - 1].1|
  }

  /** The tables of the report, in feature order; the row counter runs on from table to table. */
  function FeatureTables(fs: Features, bs: seq<string>): (ts: seq<Table>)
    ensures |ts| == |fs|
  {
    if fs == [] then []
    else
      var init := fs[..|fs| - 1];
      FeatureTables(init, bs) + [Table(fs[|fs| - 1].0, Rows(ScenarioCount(init), fs[|fs| - 1].1, bs))]
  }

  /** Table `i` is feature `i`'s, and its rows are numbered on from the scenarios of the
      features before it. */
  lemma {:induction false} TablesShape(fs: Features, bs: seq<string>, i: nat)
    requires i < |fs|
    ensures FeatureTables(fs, bs)[i] == Table(fs[i].0, Rows(ScenarioCount(fs[..i]), fs[i].1, bs))
  {
    var init := fs[..|fs| - 1];
    if i < |init| {
      TablesShape(init, bs, i);
      assert init[..i] == fs[..i];
    }
  }

  /** All rows of the report, table after table. */
  function AllRows(ts: seq<Table>): seq<Row>
  {
    if ts == [] then [] else AllRows(ts[..|ts| - 1]) + ts[|ts| - 1].rows
  }

  /** Scenario rows are numbered 1, 2, 3, … over the whole report, not per table. */
  lemma {:induction false} RowsNumbered(fs: Features, bs: seq<string>)
    ensures |AllRows(FeatureTables(fs, bs))| == ScenarioCount(fs)
    ensures forall k :: 0 <= k < |AllRows(FeatureTables(fs, bs))| ==> AllRows(FeatureTables(fs, bs))[k].index == k + 1
  {
    if fs != [] {
      var init := fs[..|fs| - 1];
      RowsNumbered(init, bs);
      var ts := FeatureTables(fs, bs);
      assert ts[..|ts| - 1] == FeatureTables(init, bs);
      var rows := Rows(ScenarioCount(init), fs[|fs| - 1].1, bs);
      assert AllRows(ts) == AllRows(FeatureTables(init, bs)) + rows;
    }
  }

  /** With a browser list free of duplicates, a run yields one cell exactly when its browser is
      listed and its status is recognised. */
  lemma {:induction false} RunCellsDistinct(run: Run, bs: seq<string>)
    requires Distinct(bs)
    ensures RunCells(run, bs) == if run.name in bs then CellOf(run) else []
  {
    if bs != [] {
      var init := bs[..|bs| - 1];
      assert Distinct(init);
      RunCellsDistinct(run, init);
      assert forall x :: x in bs <==> x in init || x == bs[|bs| - 1];
      assert bs[|bs| - 1] !in init;
    }
  }
}
