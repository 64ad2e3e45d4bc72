# HTML screenshot reporter: the report-building core

This project models the report-building logic of `src/js/html-reporter.js`, a Protractor/Jasmine
reporter that turns a flat list of per-test, per-browser results into one HTML page. It proves
properties of the model. The model covers these steps:

- the composite test name that `specStarted` writes, and the feature name that
  `copyResultsToFeatureCollection` reads back out of it (`TestNames`);
- `sanitizeFilename`, `runId` and `linkToScreenshot`, which build the screenshot ids and links
  (`Filenames`);
- `consolidateAllStackTraces`, which flattens the failed assertions of a run into lines
  (`StackTraces`);
- `copyResultsToFeatureCollection`, which folds the records into the nested dictionary
  feature → test name → browser → run (`Grouping`). The JavaScript objects are modelled as
  insertion-ordered association lists (`AssocLists`);
- `concatSpecResults`, `concatSpecTableHeader` and `concatStackTrace`, which render the feature
  tables. They are modelled at two levels:
  - the numbered rows and their cells (`Tables`);
  - the exact HTML text, built by methods that follow the source's loops (`Rendering`).
  Browser names are sorted in place with JavaScript's default string order (`Sorting`);
- `concatReportSummary` and `calculatePassPercentage`, which build the summary table (`Summary`);
- `elapsedTime`, which formats the run's duration (`Elapsed`);
- `generateReport`: the loop that builds `testArray` and `allResults`, and the order of the
  page's sections (`Report`).

The JavaScript built-ins the core uses are modelled in `Text`, with their JavaScript behaviour:
- `indexOf` returns -1 when there is no match;
- `substr` with a negative length returns `""`;
- `replace` with a string pattern replaces only the first occurrence;
- `split` always returns at least one piece;
- a number concatenated to a string prints as decimal.

Several inputs come from `./reporter.js`, which is not part of this model. They are parameters:
- `getUniqueBrowserNames`: the list `browserArrayUnique`;
- `getBrowserNameFromResult`, `getTestNameFromResult` and `determineTestStatus`: the fields of
  `Report.RawResult`;
- `countPassed`, `countFailed` and `countSkipped`: functions of type `Summary.Counter`;
- `encodeEntities`: a function of type `Rendering.Encoder`.

The global `browser` handle's name and version are parameters of `TestNames.EncodeTestName`.

In these places the model follows the code, whose behaviour may be unexpected:
- A test name without `" - Scenario: "` is not an error. It falls into the feature with the empty
  name (`TestNames.NoDelimiterEmptyFeature`).
- The cells of a scenario row follow the insertion order of the stored runs, not the sorted browser
  order. The outer loop is over runs and the inner loop over browsers (`Tables.ScenarioCellsInRunOrder`).
- Only the lines of a stack-trace block pass through `encodeEntities`. Those lines are the error
  messages and the stack-trace lines of the failed assertions. Feature, scenario and browser names
  are written as they are.
- With no executed test, the Pass% cell shows `NaN`, which is what the JavaScript prints
  (`Summary.PassPercentage`, `Summary.SummaryValues`).

## Model

| member | source | states |
|---|---|---|
| TestNames.FeatureNameOf | src/js/html-reporter.js:24 | Deleting the description from the full name: unchanged when the description does not occur; otherwise the text before and after its first occurrence, shorter by its length |
| TestNames.EncodeTestName | src/js/html-reporter.js:24-25 | The composite name starts with `"Feature: "`, and reading the feature back out of it gives the feature name it was built from exactly when that name creates no earlier `" - Scenario: "` |
| TestNames.ExtractFeature | src/js/html-reporter.js:218-219 | The feature is the text between the 9-character prefix and the first `" - Scenario: "`. It is `""` when the delimiter is missing or starts inside the prefix |
| TestNames.ExtractFeatureOfEncoded | src/js/html-reporter.js:10-11 | Extraction gives back feature `F` from `"Feature: " + F + " - Scenario: " + rest` exactly when `F` creates no earlier delimiter, whatever `rest` is |
| TestNames.DashFreeFeatureRoundTrip | src/js/html-reporter.js:218-219 | A feature name without `-` always survives the round trip |
| TestNames.NoEarlyDelimiterAroundEmpty | src/js/html-reporter.js:10-11 | The empty feature name creates no early delimiter |
| TestNames.NoDelimiterEmptyFeature | src/js/html-reporter.js:219 | A name without the delimiter gives the empty feature name and no error |
| Text.IndexOf | src/js/html-reporter.js:219 | `indexOf`: the first position where the pattern occurs, or -1 when it occurs nowhere |
| Text.Substr | src/js/html-reporter.js:219 | `substr(start, length)`: the result holds the characters of `s` from `start` on; its length is 0 for a non-positive length or a start past the end, otherwise the smaller of `length` and what is left of `s` |
| Text.ReplaceFirst | src/js/html-reporter.js:24 | `replace` with a string pattern: no change when the pattern occurs nowhere; otherwise the first occurrence, and nothing else, is replaced |
| Text.Split | src/js/html-reporter.js:115 | `split('\n')`: at least one piece, and no piece contains the separator |
| Text.JoinSplit | src/js/html-reporter.js:115 | Joining the pieces of a split with the separator gives back the text |
| Text.SplitJoin | src/js/html-reporter.js:115 | Splitting the join of separator-free pieces gives back the pieces |
| Text.NatToString | src/js/html-reporter.js:144 | A number prints as a non-empty string of digits without a leading zero |
| Text.ParseNatToString | src/js/html-reporter.js:405 | The printed number reads back as the number |
| Text.NatToStringInjective | src/js/html-reporter.js:405 | Different numbers print differently |
| Filenames.SanitizeFilename | src/js/html-reporter.js:50-53 | The result contains only `[0-9a-zA-Z-]` and is never longer than the name |
| Filenames.SanitizeIdempotent | src/js/html-reporter.js:50-53 | Sanitising twice is the same as sanitising once |
| Filenames.SanitizeSpaceRun | src/js/html-reporter.js:51 | A maximal run of whitespace becomes exactly one `-` |
| Filenames.SanitizeKeeps | src/js/html-reporter.js:52 | An allowed character is kept, in place |
| Filenames.SanitizeDeletes | src/js/html-reporter.js:52 | A character that is neither allowed nor whitespace is deleted |
| Filenames.SanitizeKeepsPrefix | src/js/html-reporter.js:50-53 | A prefix of allowed characters is kept as it is, in order |
| Filenames.SanitizeDeletesPrefix | src/js/html-reporter.js:52 | A prefix of disallowed non-space characters disappears |
| Filenames.DropSpaceRun | src/js/html-reporter.js:51 | The whitespace run before a non-space is consumed whole |
| Filenames.CollapseWhitespace | src/js/html-reporter.js:51 | After the first replacement no whitespace is left, and the text is no longer than before |
| Filenames.StripDisallowed | src/js/html-reporter.js:52 | After the second replacement only allowed characters are left |
| Filenames.StripAppend | src/js/html-reporter.js:52 | Stripping works character by character: it distributes over concatenation |
| Filenames.StripKeepsFilenameChars | src/js/html-reporter.js:52 | Stripping leaves a text of allowed characters unchanged |
| Filenames.CollapseKeepsSpaceFree | src/js/html-reporter.js:51 | Collapsing leaves a text without whitespace unchanged |
| Filenames.RunId | src/js/html-reporter.js:211-213 | The id of a scenario in a browser contains only `[0-9a-zA-Z-]` and is no longer than the two names together |
| Filenames.LinkToScreenshot | src/js/html-reporter.js:207-209 | The anchor's `href` reads back as the screenshots directory, the run's id and `.png` |
| Filenames.LinkToScreenshotDeterminesId | src/js/html-reporter.js:207-209 | Two equal links point at the same screenshot id |
| StackTraces.ConsolidateAllStackTraces | src/js/html-reporter.js:97-124 | The nested loops return the lines of all assertions, in assertion order |
| StackTraces.PushFailedAssertion | src/js/html-reporter.js:104-120 | A failed assertion adds its message, if it has one, then its trace lines, if it has a trace |
| StackTraces.PushTraceLines | src/js/html-reporter.js:115-118 | The inner loop appends the trace's lines one by one |
| StackTraces.ConsolidatedEmpty | src/js/html-reporter.js:102-121 | The result is empty exactly when no failed assertion has a message or a trace, in particular when none failed |
| StackTraces.ConsolidatedProvenance | src/js/html-reporter.js:102-121 | Every line is the message of a failed assertion or a line of its trace |
| StackTraces.ConsolidatedAppend | src/js/html-reporter.js:102-121 | Flattening two lists one after the other gives the two results one after the other |
| StackTraces.ConsolidatedSnoc | src/js/html-reporter.js:102-121 | One more assertion adds its own lines at the end |
| StackTraces.TraceLinesJoinBack | src/js/html-reporter.js:112-118 | A failed assertion's lines after its message, joined with newlines, give back its trace |
| AssocLists.Lookup | src/js/html-reporter.js:220 | A key has a value exactly when it is among the keys |
| AssocLists.Put | src/js/html-reporter.js:232 | After assigning, the key holds the new value and every other key holds what it held |
| AssocLists.PutKeys | src/js/html-reporter.js:221 | A new key goes at the end of the key order; an existing key keeps its position |
| AssocLists.PutDistinct | src/js/html-reporter.js:221 | Assigning keeps the keys free of duplicates |
| AssocLists.PutTwice | src/js/html-reporter.js:229-232 | Assigning the same key twice leaves only the second value |
| Grouping.CopyResultsToFeatureCollection | src/js/html-reporter.js:215-240 | The loop builds the collection folded from the records in input order |
| Grouping.StoreRecord | src/js/html-reporter.js:218-237 | One iteration stores the record's run under its feature, test name and browser, creating what is missing, replacing what was there |
| Grouping.CopyStepIsStore | src/js/html-reporter.js:220-237 | The three "create if missing" steps and the assignment amount to one nested assignment |
| Grouping.StoreFind | src/js/html-reporter.js:232-237 | After storing, the record is found under its own keys with its name, duration, status and trace; every other entry is unchanged |
| Grouping.CollectFind | src/js/html-reporter.js:215-240 | The entry under feature, test name and browser is the run of the last record with those keys; with no such record there is no entry |
| Grouping.LastMatch | src/js/html-reporter.js:217-238 | The last record with the given keys, or -1 when there is none |
| Grouping.CollectWellFormed | src/js/html-reporter.js:215-240 | Every stored test has at least one run, its browsers are distinct, and each run is named after its browser |
| Grouping.StoreWellFormed | src/js/html-reporter.js:218-237 | One iteration keeps the collection well formed |
| Grouping.CollectFeatureOrder | src/js/html-reporter.js:220-222 | The features appear in the order in which they are first seen |
| Grouping.CollectScenarioOrder | src/js/html-reporter.js:224-226 | Within a feature, the test names appear in the order in which they are first seen |
| Grouping.CollectRunOrder | src/js/html-reporter.js:228-232 | Under a test name, the browsers appear in the order in which their first record is seen |
| Grouping.FirstSeen | src/js/html-reporter.js:220-226 | First-seen order lists each name exactly once, and only names that occur |
| Grouping.FirstSeenSnoc | src/js/html-reporter.js:220-226 | A name seen again leaves the order unchanged; a new name goes at the end |
| Sorting.Sort | src/js/html-reporter.js:131 | The sorted browser list is sorted and a permutation of the list |
| Sorting.SortIsTheSortedPermutation | src/js/html-reporter.js:131 | Any sorted permutation of the list is the sorted list |
| Sorting.SortedUnique | src/js/html-reporter.js:131 | Two sorted lists with the same elements are equal |
| Sorting.SortInPlace | src/js/html-reporter.js:131 | `browsers.sort()` leaves the array holding the sorted list |
| Sorting.Insert | src/js/html-reporter.js:131 | Inserting into a sorted list keeps it sorted and adds exactly that element |
| Sorting.StrLeTotal | src/js/html-reporter.js:131 | The default string order is total |
| Sorting.StrLeTransitive | src/js/html-reporter.js:131 | The default string order is transitive |
| Sorting.StrLeAntisymmetric | src/js/html-reporter.js:131 | The default string order is antisymmetric |
| Sorting.StrLeReflexive | src/js/html-reporter.js:131 | The default string order is reflexive |
| Tables.CellOf | src/js/html-reporter.js:152-161 | A run gives at most one cell, and none exactly when its status is none of `"true"`, `"false"`, `"Skipped"` |
| Tables.RunCellsDistinct | src/js/html-reporter.js:147-163 | With distinct browser names, a run gives its cell exactly when its browser is listed; a run of an unknown browser gives none |
| Tables.RunCells | src/js/html-reporter.js:148-163 | The inner loop over the browser list gives no cell for a run whose browser is not listed, and every cell it gives is the run's own cell |
| Tables.ScenarioCellsAppend | src/js/html-reporter.js:147-164 | The cells of consecutive runs are written one after the other |
| Tables.ScenarioCellsInRunOrder | src/js/html-reporter.js:147-164 | With distinct browser names, the cell of run `i` comes after those of the earlier runs and before those of the later ones, whatever the browser order |
| Tables.Rows | src/js/html-reporter.js:138-144 | Row `k` of a feature is numbered `base + k + 1` and shows the `k`-th scenario and its cells |
| Tables.TablesShape | src/js/html-reporter.js:133-144 | Table `i` belongs to feature `i`; its rows are numbered on from the scenarios of the features before it |
| Tables.RowsNumbered | src/js/html-reporter.js:129-141 | Over the whole report the rows are numbered 1, 2, 3 and so on, one per scenario |
| Tables.FeatureTables | src/js/html-reporter.js:133-176 | One table per feature |
| Rendering.ConcatSpecResults | src/js/html-reporter.js:126-178 | The browser array ends up sorted, and the result is the tables of the collected records, rendered over the sorted browsers |
| Rendering.ConcatFeatureTable | src/js/html-reporter.js:134-175 | One feature's table: opening, header, rows, closing; the counter advances by the number of scenarios |
| Rendering.ConcatScenarioRows | src/js/html-reporter.js:138-173 | The counter is incremented before each scenario's row, and the rows follow one another |
| Rendering.ConcatScenarioRow | src/js/html-reporter.js:144-171 | A row is its opening with number and name, the cells of all runs, `</tr>`, then the queued trace blocks in order |
| Rendering.ConcatRunCells | src/js/html-reporter.js:148-163 | The inner loop over browsers writes the run's cells and queues a trace block for each fail cell |
| Rendering.ConcatBrowserCell | src/js/html-reporter.js:149-161 | For one browser: the cell for the run's status when the browser is the run's, otherwise nothing |
| Rendering.CellOfHtml | src/js/html-reporter.js:152-161 | The pass, fail and skip texts for the three statuses; only a fail cell queues a trace block, with colspan `browsers.length + 2` |
| Rendering.TraceBlocks | src/js/html-reporter.js:157 | One trace block per fail cell, in cell order, identified by `runId(scen, browser)` |
| Rendering.FailedCells | src/js/html-reporter.js:155-158 | Only fail cells are kept, and every fail cell of the row is kept |
| Rendering.FailedCellsCount | src/js/html-reporter.js:155-158 | Each fail cell is kept as many times as it occurs in the row |
| Rendering.FailedCellsAppend | src/js/html-reporter.js:146-164 | Fail cells are picked out cell by cell: the fail cells of two cell lists are those of each, in order |
| Rendering.FailedCellsOne | src/js/html-reporter.js:155-158 | A single cell is kept exactly when it is a fail cell |
| Rendering.TraceBlocksAppend | src/js/html-reporter.js:146-164 | The blocks queued by two runs are the blocks of each, one after the other |
| Rendering.CellsHtmlAppend | src/js/html-reporter.js:147-164 | The cells of two runs are written one after the other |
| Rendering.ConcatStackTrace | src/js/html-reporter.js:180-196 | The trace block of a run: empty for an empty trace; otherwise the hidden row, the first line as the error, and the rest |
| Rendering.StackTraceHtml | src/js/html-reporter.js:183-193 | A trace block is empty exactly when the trace has no lines |
| Rendering.PushTraceLines | src/js/html-reporter.js:188-191 | The first line goes in `td.error`, every later line in a plain cell, each through `encodeEntities` |
| Rendering.ConcatSpecTableHeader | src/js/html-reporter.js:198-205 | The header row: `Test#`, the feature name, then every browser in array order |
| Summary.PassPercentage | src/js/html-reporter.js:416-418 | The floor of 100·pass/(pass+fail): `p·n <= 100·pass < (p+1)·n`, at most 100; none when nothing was executed |
| Summary.SummaryLabels | src/js/html-reporter.js:400-411 | Executed and Pending appear exactly when a test was skipped; the headings are Total, (Executed, Pending,) Pass, Fail, Pass% |
| Summary.SummaryValues | src/js/html-reporter.js:399-412 | Total is pass + fail + skipped; Pass% shows `NaN` exactly when pass + fail is zero |
| Summary.ConcatReportSummary | src/js/html-reporter.js:394-414 | The source's text is the two-row table of headings over numbers, for the columns of the case at hand |
| Summary.ConcatSummaryNumbers | src/js/html-reporter.js:405-412 | The numbers follow the headings one to one, each closing its cell |
| Summary.ColumnsListed | src/js/html-reporter.js:400-412 | The columns with their numbers, for either case |
| Elapsed.Decompose | src/js/html-reporter.js:421-429 | Seconds under 60, minutes under 60, hours under 24, and the parts add back up to the total |
| Elapsed.DecomposeUnique | src/js/html-reporter.js:421-429 | That split is the only one with those bounds |
| Elapsed.ElapsedTime | src/js/html-reporter.js:420-436 | The source's text shows every unit from the largest non-zero one down to the seconds |
| Elapsed.ShownFromLead | src/js/html-reporter.js:431-434 | The three conditions of the source select exactly the units from the leading one down |
| Elapsed.Lead | src/js/html-reporter.js:431-433 | The leading unit: all larger units are zero, and it is non-zero unless it is the seconds |
| Elapsed.UnitsShown | src/js/html-reporter.js:431-434 | Days show when there are days; hours when there are days or hours; minutes when any of these or minutes; seconds always |
| Elapsed.NinetySeconds | src/js/html-reporter.js:420-436 | 90 seconds show as `1 mins. 30 secs.` |
| Report.GenerateReport | src/js/html-reporter.js:59-95 | The page is the comment, doctype, head, title, run information, summary of the statuses and the feature tables over the sorted browsers, in that order |
| Report.BuildRecords | src/js/html-reporter.js:64-80 | The loop builds one record and one status per raw result, in order, with the consolidated trace |
| Report.Records | src/js/html-reporter.js:73-79 | Record `q` is raw result `q`'s name, browser, status, duration and consolidated trace |
| Report.Statuses | src/js/html-reporter.js:72 | Status `q` is raw result `q`'s status |
| Report.LastResultIsShown | src/js/html-reporter.js:59-95 | A raw result that no later result with the same feature, test name and browser overrides is stored with its duration, status and consolidated trace |
| Report.SectionsReadBack | src/js/html-reporter.js:386-392 | The title and the elapsed time can be read back out of their sections |

## Left out

- The static head section, CSS and script text (`concatHeadSection`): a constant string with no logic, passed to `Report.GenerateReport` as `head`.
- Screenshot capture and writing, `filewrite`, and loading the results file in `generateHtmlReport`: file I/O and an asynchronous promise on the global browser handle.
- The link between the screenshot file name written by `specDone` and the link the report renders: it depends on `reporter.js`, which is not part of this model.
- `Date` handling (`tsStart`, `Date.now()`): `Elapsed.ElapsedTime` takes the elapsed whole seconds.
- Elapsed.ElapsedTime: works on whole seconds. The source divides milliseconds by 1000 and rounds with `Math.round`, which can print `60 secs.` for a remainder of 59.5 seconds or more; that is not modelled.
- Summary.ConcatReportSummary: writes the table's opening as `SummaryPrefix` of the heading list, which builds each `<th>` cell from the list. The source writes the same text as one literal (lines 401 and 403). Their equality character by character is not proved, because the solver cannot afford it.
- Summary.PassPercentage: the exact floor of the rational number. The source computes in floating point, where the result can be one lower (29 of 100 gives 28 in JavaScript).
- `reporter.js` (`getUniqueBrowserNames`, `getBrowserNameFromResult`, `getTestNameFromResult`, `determineTestStatus`, `countPassed`, `countFailed`, `countSkipped`, `encodeEntities`): not part of this model; its results are parameters.
- The loose comparison of a status with `"true"`, `"false"` and `"Skipped"`: modelled as the four tags of `Grouping.Status`. Which values `determineTestStatus` returns, and so which tag a test gets, is not modelled.
- JavaScript `for…in` enumeration quirks: integer-like keys come first, and inherited names such as `constructor` make a missing key look present. The model uses plain insertion order and own keys only.
- Sorting.StrLe: compares strings by character code points, while `Array.prototype.sort` compares UTF-16 code units. The two orders differ only for characters outside the Basic Multilingual Plane.
- Grouping.StoreRecord: the empty placeholder that the source stores under the browser key is overwritten by the run right away, so the model stores only the run.
- Durations are whole non-negative numbers (`nat`); a fractional or missing duration in the results file is not modelled.
- The empty Jasmine callbacks (`jasmineStarted`, `suiteStarted`, `suiteDone`, `jasmineDone`): no behaviour.
