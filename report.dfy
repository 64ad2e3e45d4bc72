/**
 * `generateReport`: the records built from the raw results, and the page assembled from its
 * sections in a fixed order.
 */
module Report {
  import opened Wrappers
  import opened Text
  import opened StackTraces
  import opened TestNames
  import opened Sorting
  import opened Grouping
  import opened Tables
  import opened Rendering
  import opened Summary

  /** One entry of the results file, as far as the report reads it: what
      `reporter.getBrowserNameFromResult`, `getTestNameFromResult` and `determineTestStatus`
      return for it, its duration and its assertions. */
  datatype RawResult = RawResult(browserName: string, testName: string, status: Status,
                                 duration: nat, assertions: seq<Assertion>)

  /** The `testArray` entry of a raw result. */
  function RecordOf(raw: RawResult): TestRecord
  {
    TestRecord(raw.testName, raw.browserName, raw.status, raw.duration, Consolidated(raw.assertions))
  }

  /** `testArray`: one record per raw result, in the same order. */
  function Records(js: seq<RawResult>): (rs: seq<TestRecord>)
    ensures |rs| == |js|
    ensures forall q :: 0 <= q < |js| ==> rs[q] == RecordOf(js[q])
  {
    if js == [] then [] else Records(js[..|js| - 1]) + [RecordOf(js[|js| - 1])]
  }

  /** `allResults`: the status of each raw result, in the same order. */
  function Statuses(js: seq<RawResult>): (st: seq<Status>)
    ensures |st| == |js|
    ensures forall q :: 0 <= q < |js| ==> st[q] == js[q].status
  {
    if js == [] then [] else Statuses(js[..|js| - 1]) + [js[|js| - 1].status]
  }

  /** `concatReportHeaderSection(automationHeader)`. */
  function HeaderSection(automationHeader: string): string
  {
    "<div class=\"header\">" + automationHeader + "</div>"
  }

  /** `concatRunInfoSection(elapsedTime)`. */
  function RunInfoSection(elapsedTime: string): string
  {
    "<table class=\"runInfo\"><tr><td>Elapsed time</td><td>" + elapsedTime + "</td></tr></table>"
  }

  /** The title and the elapsed time can be read back out of their sections. */
  lemma SectionsReadBack(automationHeader: string, elapsedTime: string)
    ensures var h := HeaderSection(automationHeader);
            h[|"<div class=\"header\">"|..|h| - |"</div>"|] == automationHeader
    ensures var r := RunInfoSection(elapsedTime);
            r[|"<table class=\"runInfo\"><tr><td>Elapsed time</td><td>"|..|r| - |"</td></tr></table>"|] == elapsedTime
  {
  }

  /** The whole page: the saved-from comment, the doctype, the head, then in the body the title,
      the run information, the summary and the feature tables over the sorted browser names. */
  function ReportHtml(js: seq<RawResult>, automationHeader: string, head: string, elapsedTime: string,
                      browserNames: seq<string>, countPassed: Counter, countFailed: Counter,
                      countSkipped: Counter, encode: Encoder): string
  {
    var st := Statuses(js);
    var bs := Sort(browserNames);
    "<!-- saved from url=(0014)about:internet -->" + "<!DOCTYPE html>" + "<html>" + head + "<body>"
    + HeaderSection(automationHeader) + RunInfoSection(elapsedTime)
    + SummaryTable(SummaryColumns(countPassed(st), countFailed(st), countSkipped(st)))
    + TablesHtml(FeatureTables(Collect(Records(js)), bs), bs, encode)
    + "</body>" + "</html>"
  }

  /**
   * `generateReport(jsonstr, automationHeader, savePath, elapsedTime)`. The static head section
   * is `head`; `browserArrayUnique` is what `reporter.getUniqueBrowserNames` returns, copied
   * into a new array that the spec results sort.
   */
  method GenerateReport(jsonstr: seq<RawResult>, automationHeader: string, head: string, elapsedTime: string,
                        browserArrayUnique: seq<string>, countPassed: Counter, countFailed: Counter,
                        countSkipped: Counter, encode: Encoder)
    returns (result: string)
    ensures result == ReportHtml(jsonstr, automationHeader, head, elapsedTime, browserArrayUnique,
                                 countPassed, countFailed, countSkipped, encode)
  {
    var browsers := new string[|browserArrayUnique|](i requires 0 <= i < |browserArrayUnique| => browserArrayUnique[i]);
    assert browsers[..] == browserArrayUnique;
    var allResults, testArray := BuildRecords(jsonstr);
    result := "";
    EmptyLeft("<!-- saved from url=(0014)about:internet -->");
    result := result + "<!-- saved from url=(0014)about:internet -->";
    result := result + "<!DOCTYPE html>";
    result := result + "<html>";
    result := result + head;
    result := result + "<body>";
    result := result + HeaderSection(automationHeader);
    result := result + RunInfoSection(elapsedTime);
    var summary := ConcatReportSummary(allResults, countPassed, countFailed, countSkipped);
    result := result + summary;
    var specResults := ConcatSpecResults(testArray, browsers, encode);
    ghost var bs := Sort(browserArrayUnique);
    assert specResults == TablesHtml(FeatureTables(Collect(Records(jsonstr)), bs), bs, encode);
    result := result + specResults;
    result := result + "</body>";
    result := result + "</html>";
  }

  /** The loop of `generateReport` over the raw results: `allResults` and `testArray`. */
  method BuildRecords(jsonstr: seq<RawResult>) returns (allResults: seq<Status>, testArray: seq<TestRecord>)
    ensures allResults == Statuses(jsonstr)
    ensures testArray == Records(jsonstr)
  {
    allResults := [];
    testArray := [];
    var q := 0;
    while q < |jsonstr|
      invariant 0 <= q <= |jsonstr|
      invariant allResults == Statuses(jsonstr[..q])
      invariant testArray == Records(jsonstr[..q])
    {
      var raw := jsonstr[q];
      var stack := ConsolidateAllStackTraces(raw.assertions);
      allResults := allResults + [raw.status];
      testArray := testArray + [TestRecord(raw.testName, raw.browserName, raw.status, raw.duration, stack)];
      assert jsonstr[..q + 1][..q] == jsonstr[..q];
      q := q + 1;
    }
    assert jsonstr[..|jsonstr|] == jsonstr;
  }

  /**
   * The report shows every raw result that no later result overrides: the run stored under its
   * feature, its test name and its browser carries its duration, its status and its
   * consolidated stack trace.
   */
  lemma LastResultIsShown(js: seq<RawResult>, q: nat)
    requires q < |js|
    requires forall j :: q < j < |js| ==>
      !(ExtractFeature(js[j].testName) == ExtractFeature(js[q].testName) && js[j].testName == js[q].testName
        && js[j].browserName == js[q].browserName)
    ensures Find(Collect(Records(js)), ExtractFeature(js[q].testName), js[q].testName, js[q].browserName)
            == Some(Run(js[q].browserName, js[q].duration, js[q].status, Consolidated(js[q].assertions)))
  {
    var rs := Records(js);
    var f, t, b := ExtractFeature(js[q].testName), js[q].testName, js[q].browserName;
    CollectFind(rs, f, t, b);
    var i := LastMatch(rs, f, t, b);
    assert Matches(rs[q], f, t, b);
    assert i == q;
  }
}
