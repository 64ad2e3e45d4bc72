/**
 * `concatReportSummary` and `calculatePassPercentage`: the summary table at the top of the
 * report, with the Executed and Pending columns shown only when some test was skipped.
 */
module Summary {
  import opened Wrappers
  import opened Text
  import opened Grouping

  /** `reporter.countPassed`, `countFailed` and `countSkipped`, which are not part of this model. */
  type Counter = seq<Status> -> nat

  /** `Math.floor(pass / (pass + fail) * 100)` over the rationals: the whole percentage of
      executed tests that passed, rounded down; `None` stands for the `NaN` of no executed test. */
  function PassPercentage(pass: nat, fail: nat): (p: Option<nat>)
    ensures p.None? <==> pass + fail == 0
    ensures p.Some? ==> p.value * (pass + fail) <= 100 * pass < (p.value + 1) * (pass + fail)
    ensures p.Some? ==> p.value <= 100
  {
    if pass + fail == 0 then None
    else
      var q := 100 * pass / (pass + fail);
      PercentageBounds(pass, fail, q);
      Some(q)
  }

  lemma PercentageBounds(pass: nat, fail: nat, q: nat)
    requires pass + fail > 0 && q == 100 * pass / (pass + fail)
    ensures q * (pass + fail) <= 100 * pass < (q + 1) * (pass + fail)
    ensures q <= 100
  {
    var n := pass + fail;
    var r := 100 * pass % n;
    assert 100 * pass == q * n + r;
    if q > 100 {
      assert q * n >= 101 * n by {
        MulMonotone(101, q, n);
      }
      assert false;
    }
  }

  lemma MulMonotone(a: nat, b: nat, n: nat)
    requires a <= b
    ensures a * n <= b * n
  {
  }

  /** How a percentage prints: JavaScript shows `NaN` for the missing one. */
  function PercentText(p: Option<nat>): string
  {
    match p
    case None => "NaN"
    case Some(v) => NatToString(v)
  }

  /** A column of the summary table: its heading and the number shown under it. */
  datatype Column = Column(heading: string, value: string)

  /** The columns the summary shows, left to right. */
  function SummaryColumns(pass: nat, fail: nat, skipped: nat): seq<Column>
  {
    [Column("Total", NatToString(pass + fail + skipped))]
    + (if skipped > 0 then [Column("Executed", NatToString(pass + fail)), Column("Pending", NatToString(skipped))] else [])
    + [Column("Pass", NatToString(pass)), Column("Fail", NatToString(fail)),
       Column("Pass%", PercentText(PassPercentage(pass, fail)))]
  }

  lemma ColumnsListed(pass: nat, fail: nat, skipped: nat)
    ensures SummaryColumns(pass, fail, skipped) ==
      var total, executed := Column("Total", NatToString(pass + fail + skipped)), Column("Executed", NatToString(pass + fail));
      var pending, passed := Column("Pending", NatToString(skipped)), Column("Pass", NatToString(pass));
      var failed, percent := Column("Fail", NatToString(fail)), Column("Pass%", PercentText(PassPercentage(pass, fail)));
      if skipped > 0 then [total, executed, pending, passed, failed, percent] else [total, passed, failed, percent]
  {
  }

  function Labels(cols: seq<Column>): (ls: seq<string>)
    ensures |ls| == |cols|
    ensures forall i :: 0 <= i < |cols| ==> ls[i] == cols[i].heading
  {
    if cols == [] then [] else [cols[0].heading] + Labels(cols[1..])
  }

  /** The heading row's cells. */
  function HeadCells(headings: seq<string>): string
  {
    if headings == [] then "" else "<th>" + headings[0] + "</th>" + HeadCells(headings[1..])
  }

  /** The number row's cells, in the same order as the headings. */
  function DataCells(cols: seq<Column>): string
  {
    if cols == [] then "" else "<td>" + cols[0].value + "</td>" + DataCells(cols[1..])
  }

  /** A two-row table: the headings over the numbers. */
  function SummaryTable(cols: seq<Column>): string
  {
    "<table class=\"summary\"><tr>" + HeadCells(Labels(cols)) + "</tr><tr>" + DataCells(cols) + "</tr></table>"
  }

  /** The Executed and Pending columns appear exactly when a test was skipped; the others always
      appear, in the order Total, (Executed, Pending,) Pass, Fail, Pass%. */
  lemma SummaryLabels(pass: nat, fail: nat, skipped: nat)
    ensures "Executed" in Labels(SummaryColumns(pass, fail, skipped)) <==> skipped > 0
    ensures "Pending" in Labels(SummaryColumns(pass, fail, skipped)) <==> skipped > 0
    ensures Labels(SummaryColumns(pass, fail, skipped))
            == if skipped > 0 then ["Total", "Executed", "Pending", "Pass", "Fail", "Pass%"]
               else ["Total", "Pass", "Fail", "Pass%"]
  {
    var ls := Labels(SummaryColumns(pass, fail, skipped));
    if skipped > 0 {
      assert ls == ["Total", "Executed", "Pending", "Pass", "Fail", "Pass%"];
    } else {
      assert ls == ["Total", "Pass", "Fail", "Pass%"];
      assert ls[0] != "Executed" && ls[1] != "Executed" && ls[2] != "Executed" && ls[3] != "Executed";
      assert ls[0] != "Pending" && ls[1] != "Pending" && ls[2] != "Pending" && ls[3] != "Pending";
    }
  }

  /** The total is the sum of the three counts, and the Pass% cell shows `NaN` exactly when no
      test was executed. */
  lemma SummaryValues(pass: nat, fail: nat, skipped: nat)
    ensures SummaryColumns(pass, fail, skipped)[0].value == NatToString(pass + fail + skipped)
    ensures var cols := SummaryColumns(pass, fail, skipped);
            cols[|cols| - 1].value == "NaN" <==> pass + fail == 0
  {
    var p := PassPercentage(pass, fail);
    if p.Some? {
      var s := NatToString(p.value);
      assert IsDigit(s[0]);
      assert s != "NaN";
    }
  }

  /** `concatReportSummary(allResults)`: the opening with the headings for the case at hand,
      then each number followed by the separator to the next cell, and the Pass% cell closing
      the table. */
  method ConcatReportSummary(allResults: seq<Status>, countPassed: Counter, countFailed: Counter, countSkipped: Counter)
    returns (result: string)
    ensures result == SummaryTable(SummaryColumns(countPassed(allResults), countFailed(allResults), countSkipped(allResults)))
  {
    var pass := countPassed(allResults);
    var fail := countFailed(allResults);
    var skipped := countSkipped(allResults);
    ghost var cols := SummaryColumns(pass, fail, skipped);
    SummaryLabels(pass, fail, skipped);
    TableAsPending(cols);
    result := "";
    var total := pass + fail + skipped;
    if skipped > 0 {
      result := result + SummaryPrefix(["Total", "Executed", "Pending", "Pass", "Fail", "Pass%"]);
    } else {
      result := result + SummaryPrefix(["Total", "Pass", "Fail", "Pass%"]);
    }
    EmptyLeft(SummaryPrefix(Labels(cols)));
    result := ConcatSummaryNumbers(result, pass, fail, skipped);
  }

  /** The number row of `concatReportSummary`, after its opening: the total, then Executed and
      Pending when a test was skipped, then Pass, Fail and Pass%. */
  method ConcatSummaryNumbers(written: string, pass: nat, fail: nat, skipped: nat) returns (result: string)
    ensures result == written + Pending(SummaryColumns(pass, fail, skipped))
  {
    ghost var cols := SummaryColumns(pass, fail, skipped);
    ColumnsListed(pass, fail, skipped);
    var total := pass + fail + skipped;
    assert cols[0..] == cols;
    result := PushNumber(written, cols, 0, NatToString(total));
    ghost var k := 1;
    if skipped > 0 {
      result := PushNumber(result, cols, 1, NatToString(pass + fail));
      result := PushNumber(result, cols, 2, NatToString(skipped));
      k := 3;
    }
    result := PushNumber(result, cols, k, NatToString(pass));
    result := PushNumber(result, cols, k + 1, NatToString(fail));
    assert |cols| == k + 3 && cols[k + 2].value == PercentText(PassPercentage(pass, fail));
    assert cols[k + 2..] == [cols[k + 2]];
    result := result + (PercentText(PassPercentage(pass, fail)) + "</td></tr></table>");
  }

  /** `result += n + '</td><td>'`: number `k` of the summary and the separator to the next cell. */
  method PushNumber(written: string, ghost cols: seq<Column>, ghost k: nat, n: string) returns (result: string)
    requires k + 1 < |cols| && n == cols[k].value
    ensures result + Pending(cols[k + 1..]) == written + Pending(cols[k..])
  {
    result := written + (n + "</td><td>");
    assert cols[k..][1..] == cols[k + 1..];
    AppendAssoc(written, n + "</td><td>", Pending(cols[k + 1..]));
    AppendAssoc(n, "</td><td>", Pending(cols[k + 1..]));
  }

  /** The text of the table that is still to come once the number cells before `cols` are
      written: each number followed by the separator to the next cell, the last one by the end
      of the table. */
  ghost function Pending(cols: seq<Column>): string
    requires |cols| > 0
  {
    cols[0].value + (if |cols| == 1 then "</td></tr></table>" else "</td><td>" + Pending(cols[1..]))
  }

  /** The table up to its first number: the heading row, then the opening of the number row. */
  function SummaryPrefix(headings: seq<string>): string
  {
    "<table class=\"summary\"><tr>" + HeadCells(headings) + "</tr><tr><td>"
  }

  lemma TableAsPending(cols: seq<Column>)
    requires |cols| > 0
    ensures SummaryTable(cols) == SummaryPrefix(Labels(cols)) + Pending(cols)
  {
    var open := "<table class=\"summary\"><tr>" + HeadCells(Labels(cols));
    var data := DataCells(cols);
    DataCellsPending(cols);
    calc {
      SummaryTable(cols);
      open + "</tr><tr>" + data + "</tr></table>";
      { AppendAssoc(open + "</tr><tr>", data, "</tr></table>"); }
      open + "</tr><tr>" + (data + "</tr></table>");
      open + "</tr><tr>" + ("<td>" + Pending(cols));
      { AppendAssoc(open + "</tr><tr>", "<td>", Pending(cols)); }
      open + "</tr><tr>" + "<td>" + Pending(cols);
      { AppendAssoc(open, "</tr><tr>", "<td>"); RowThenCell(); }
      open + "</tr><tr><td>" + Pending(cols);
    }
  }

  lemma RowThenCell()
    ensures "</tr><tr>" + "<td>" == "</tr><tr><td>"
  {
  }

  lemma CellThenCell()
    ensures "</td>" + "<td>" == "</td><td>"
  {
  }

  lemma CellThenEnd()
    ensures "</td>" + "</tr></table>" == "</td></tr></table>"
  {
  }

  lemma {:induction false} DataCellsPending(cols: seq<Column>)
    requires |cols| > 0
    ensures DataCells(cols) + "</tr></table>" == "<td>" + Pending(cols)
  {
    var v, rest := cols[0].value, cols[1..];
    var end := "</tr></table>";
    var tail := DataCells(rest) + end;
    assert DataCells(cols) == "<td>" + v + "</td>" + DataCells(rest);
    AppendAssoc("<td>" + v + "</td>", DataCells(rest), end);
    AppendAssoc("<td>" + v, "</td>", tail);
    AppendAssoc("<td>", v, "</td>" + tail);
    // DataCells(cols) + end == "<td>" + (v + ("</td>" + tail))
    if rest == [] {
      EmptyLeft(end);
      CellThenEnd();
      assert Pending(cols) == v + "</td></tr></table>";
    } else {
      DataCellsPending(rest);
      AppendAssoc("</td>", "<td>", Pending(rest));
      CellThenCell();
      assert Pending(cols) == v + ("</td><td>" + Pending(rest));
    }
  }

}
