/**
 * `copyResultsToFeatureCollection`: the flat list of per-test, per-browser records folded
 * into the nested dictionary feature → test name → browser → run that the report renders.
 */
module Grouping {
  import opened Wrappers
  import opened Text
  import opened AssocLists
  import opened TestNames

  /** The value of `reporter.determineTestStatus`, as the report compares it (loosely) against
      the strings "true", "false" and "Skipped"; any other value is `Unrecognised`. */
  datatype Status = Passed | Failed | Skipped | Unrecognised

  /** One entry of `testArray`, built by `generateReport`. */
  datatype TestRecord = TestRecord(testName: string, browser: string, res: Status,
                                   duration: nat, stackTrace: seq<string>)

  /** What the collection stores under a browser: `{name, duration, status, stackTrace}`. */
  datatype Run = Run(name: string, duration: nat, status: Status, stackTrace: seq<string>)

  /** browser → run */
  type Runs = seq<(string, Run)>
  /** test name → runs */
  type Scenarios = seq<(string, Runs)>
  /** feature name → scenarios */
  type Features = seq<(string, Scenarios)>

  function FeatureOf(r: TestRecord): string
  {
    ExtractFeature(r.testName)
  }

  function RunOf(r: TestRecord): Run
  {
    Run(r.browser, r.duration, r.res, r.stackTrace)
  }

  /** The effect of one iteration of the loop: the record's run, stored under its feature, its
      test name and its browser, replacing whatever was there. */
  function Store(fs: Features, r: TestRecord): Features
  {
    var f := FeatureOf(r);
    var scenarios := GetOr(fs, f, []);
    Put(fs, f, Put(scenarios, r.testName, Put(GetOr(scenarios, r.testName, []), r.browser, RunOf(r))))
  }

  /** The collection built from a list of records. */
  function Collect(rs: seq<TestRecord>): Features
  {
    if rs == [] then [] else Store(Collect(rs[..|rs| - 1]), rs[|rs| - 1])
  }

  /** `features[f][t][b]`, or `None` when any of the three keys is missing. */
  function Find(fs: Features, f: string, t: string, b: string): Option<Run>
  {
    Lookup(GetOr(GetOr(fs, f, []), t, []), b)
  }

  predicate Matches(r: TestRecord, f: string, t: string, b: string)
  {
    FeatureOf(r) == f && r.testName == t && r.browser == b
  }

  /** The position of the last record stored under `f`, `t`, `b`, or -1 when there is none. */
  function LastMatch(rs: seq<TestRecord>, f: string, t: string, b: string): (i: int)
    ensures -1 <= i < |rs|
    ensures i >= 0 ==> Matches(rs[i], f, t, b)
    ensures forall j :: i < j < |rs| ==> !Matches(rs[j], f, t, b)
  {
    if rs == [] then -1
    else if Matches(rs[|rs| - 1], f, t, b) then |rs| - 1
    else LastMatch(rs[..|rs| - 1], f, t, b)
  }

  /** `copyResultsToFeatureCollection(resultArray)`. */
  method CopyResultsToFeatureCollection(resultArray: seq<TestRecord>) returns (featuresDummy: Features)
    ensures featuresDummy == Collect(resultArray)
  {
    featuresDummy := [];
    var i := 0;
    while i < |resultArray|
      invariant 0 <= i <= |resultArray|
      invariant featuresDummy == Collect(resultArray[..i])
    {
      featuresDummy := StoreRecord(featuresDummy, resultArray[i]);
      assert resultArray[..i + 1][..i] == resultArray[..i];
      i := i + 1;
    }
    assert resultArray[..|resultArray|] == resultArray;
  }

  /** One iteration of the loop of `copyResultsToFeatureCollection`, on record `r`. */
  method StoreRecord(fs: Features, r: TestRecord) returns (featuresDummy: Features)
    ensures featuresDummy == Store(fs, r)
  {
    featuresDummy := fs;
    var offset := |FeatureDenominator|;
    var featureName := Substr(r.testName, offset, IndexOf(r.testName, ScenarioDenominator) - offset);
    ghost var before := fs;
    if Lookup(featuresDummy, featureName).None? {
      featuresDummy := Put(featuresDummy, featureName, []);
    }
    ghost var withFeature := featuresDummy;
    var scenarios := Lookup(featuresDummy, featureName).value;
    ghost var oldScenarios := scenarios;
    if Lookup(scenarios, r.testName).None? {
      scenarios := Put(scenarios, r.testName, []);
      featuresDummy := Put(featuresDummy, featureName, scenarios);
    }
    var runs := Lookup(scenarios, r.testName).value;
    // The source first stores an empty placeholder under the browser; the assignment that
    // follows replaces it at the same position, so only that assignment is kept here.
    var newScenarios := Put(scenarios, r.testName, Put(runs, r.browser, RunOf(r)));
    ghost var fs2 := featuresDummy;
    featuresDummy := Put(featuresDummy, featureName, newScenarios);
    CopyStepIsStore(before, r, withFeature, oldScenarios, scenarios, runs, fs2, featuresDummy);
  }

  /** The source's three steps (create the feature if missing, create the test if missing,
      assign the run) have the effect of `Store`. */
  lemma CopyStepIsStore(before: Features, r: TestRecord, withFeature: Features,
                        oldScenarios: Scenarios, scenarios: Scenarios, runs: Runs,
                        fs2: Features, after: Features)
    requires withFeature == if Lookup(before, FeatureOf(r)).None?
                            then Put(before, FeatureOf(r), []) else before
    requires Lookup(withFeature, FeatureOf(r)) == Some(oldScenarios)
    requires scenarios == if Lookup(oldScenarios, r.testName).None?
                          then Put(oldScenarios, r.testName, []) else oldScenarios
    requires fs2 == if Lookup(oldScenarios, r.testName).None?
                    then Put(withFeature, FeatureOf(r), scenarios) else withFeature
    requires Lookup(scenarios, r.testName) == Some(runs)
    requires after == Put(fs2, FeatureOf(r), Put(scenarios, r.testName, Put(runs, r.browser, RunOf(r))))
    ensures after == Store(before, r)
  {
    var f, t := FeatureOf(r), r.testName;
    assert oldScenarios == GetOr(before, f, []);
    assert runs == GetOr(oldScenarios, t, []);
    var x := Put(runs, r.browser, RunOf(r));
    if Lookup(oldScenarios, t).None? {
      PutTwice(oldScenarios, t, [], x);
      PutTwice(withFeature, f, scenarios, Put(scenarios, t, x));
    }
    if Lookup(before, f).None? {
      PutTwice(before, f, [], Put(scenarios, t, x));
    }
  }

  /** Storing a record changes exactly the entry under its own three keys. */
  lemma StoreFind(fs: Features, r: TestRecord, f: string, t: string, b: string)
    ensures Find(Store(fs, r), f, t, b) ==
            if Matches(r, f, t, b) then Some(RunOf(r)) else Find(fs, f, t, b)
  {
    var sc := GetOr(fs, FeatureOf(r), []);
    var runs := GetOr(sc, r.testName, []);
    var sc' := Put(sc, r.testName, Put(runs, r.browser, RunOf(r)));
    if f == FeatureOf(r) {
      assert GetOr(Store(fs, r), f, []) == sc';
      if t == r.testName {
        assert GetOr(sc', t, []) == Put(runs, r.browser, RunOf(r));
      } else {
        assert GetOr(sc', t, []) == GetOr(sc, t, []);
      }
    } else {
      assert GetOr(Store(fs, r), f, []) == GetOr(fs, f, []);
    }
  }

  /**
   * After the fold, the entry under `f`, `t`, `b` is the run of the LAST record with that
   * feature, test name and browser; when no record has them there is no entry.
   */
  lemma {:induction false} CollectFind(rs: seq<TestRecord>, f: string, t: string, b: string)
    ensures var i := LastMatch(rs, f, t, b);
            Find(Collect(rs), f, t, b) == if i < 0 then None else Some(RunOf(rs[i]))
  {
    if rs != [] {
      var init := rs[..|rs| - 1];
      CollectFind(init, f, t, b);
      StoreFind(Collect(init), rs[|rs| - 1], f, t, b);
      if !Matches(rs[|rs| - 1], f, t, b) {
        var i := LastMatch(init, f, t, b);
        assert i >= 0 ==> init[i] == rs[i];
      }
    }
  }

  /** The runs stored under a test name: keyed by distinct browsers, never empty, each run
      named after its key. */
  predicate RunsOk(runs: Runs)
  {
    runs != [] && Distinct(Keys(runs)) &&
    forall b :: b in Keys(runs) ==> Lookup(runs, b).value.name == b
  }

  predicate ScenariosOk(sc: Scenarios)
  {
    sc != [] && Distinct(Keys(sc)) &&
    forall t :: t in Keys(sc) ==> RunsOk(GetOr(sc, t, []))
  }

  /** Every level of the collection has distinct keys and no empty dictionary, so every entry
      is reached by some feature, test name and browser. */
  predicate WellFormed(fs: Features)
  {
    Distinct(Keys(fs)) &&
    forall f :: f in Keys(fs) ==> ScenariosOk(GetOr(fs, f, []))
  }

  lemma StoreWellFormed(fs: Features, r: TestRecord)
    requires WellFormed(fs)
    ensures WellFormed(Store(fs, r))
  {
    var f := FeatureOf(r);
    var sc := GetOr(fs, f, []);
    var runs := GetOr(sc, r.testName, []);
    var runs' := Put(runs, r.browser, RunOf(r));
    var sc' := Put(sc, r.testName, runs');
    PutDistinct(fs, f, sc');
    PutDistinct(sc, r.testName, runs');
    PutDistinct(runs, r.browser, RunOf(r));
    assert RunsOk(runs') by {
      forall b | b in Keys(runs')
        ensures Lookup(runs', b).value.name == b
      {
        if b != r.browser {
          assert Lookup(runs', b) == Lookup(runs, b);
        }
      }
    }
    assert ScenariosOk(sc') by {
      forall t | t in Keys(sc')
        ensures RunsOk(GetOr(sc', t, []))
      {
        if t != r.testName {
          assert Lookup(sc', t) == Lookup(sc, t);
        }
      }
    }
    forall g | g in Keys(Store(fs, r))
      ensures ScenariosOk(GetOr(Store(fs, r), g, []))
    {
      if g != f {
        assert Lookup(Store(fs, r), g) == Lookup(fs, g);
      }
    }
  }

  lemma {:induction false} CollectWellFormed(rs: seq<TestRecord>)
    ensures WellFormed(Collect(rs))
  {
    if rs != [] {
      CollectWellFormed(rs[..|rs| - 1]);
      StoreWellFormed(Collect(rs[..|rs| - 1]), rs[|rs| - 1]);
    }
  }

  /** The distinct elements of `s`, each at the position of its first occurrence. */
  function FirstSeen(s: seq<string>): (r: seq<string>)
    ensures Distinct(r)
    ensures forall x :: x in r <==> x in s
  {
    if s == [] then []
    else
      var p := FirstSeen(s[..|s| - 1]);
      assert forall x :: x in s <==> x in s[..|s| - 1] || x == s[|s| - 1];
      if s[|s| - 1] in p then p else p + [s[|s| - 1]]
  }

  function FeatureNames(rs: seq<TestRecord>): seq<string>
  {
    if rs == [] then [] else FeatureNames(rs[..|rs| - 1]) + [FeatureOf(rs[|rs| - 1])]
  }

  /** The test names of the records with feature `f`, in record order. */
  function TestNamesIn(rs: seq<TestRecord>, f: string): seq<string>
  {
    if rs == [] then []
    else TestNamesIn(rs[..|rs| - 1], f)
         + (if FeatureOf(rs[|rs| - 1]) == f then [rs[|rs| - 1].testName] else [])
  }

  lemma FirstSeenSnoc(s: seq<string>, x: string)
    ensures FirstSeen(s + [x]) == if x in s then FirstSeen(s) else FirstSeen(s) + [x]
  {
    assert (s + [x])[..|s|] == s;
  }

  /** Features are enumerated in the order in which their first record appears. */
  lemma {:induction false} CollectFeatureOrder(rs: seq<TestRecord>)
    ensures Keys(Collect(rs)) == FirstSeen(FeatureNames(rs))
  {
    if rs != [] {
      var init, r := rs[..|rs| - 1], rs[|rs| - 1];
      CollectFeatureOrder(init);
      var fs := Collect(init);
      var f := FeatureOf(r);
      var sc := GetOr(fs, f, []);
      PutKeys(fs, f, Put(sc, r.testName, Put(GetOr(sc, r.testName, []), r.browser, RunOf(r))));
      assert Keys(Collect(rs)) == if f in Keys(fs) then Keys(fs) else Keys(fs) + [f];
      FirstSeenSnoc(FeatureNames(init), f);
      assert f in Keys(fs) <==> f in FeatureNames(init);
    }
  }

  /** Within a feature, test names are enumerated in the order in which their first record
      appears. */
  lemma {:induction false} CollectScenarioOrder(rs: seq<TestRecord>, f: string)
    ensures Keys(GetOr(Collect(rs), f, [])) == FirstSeen(TestNamesIn(rs, f))
  {
    if rs != [] {
      var init, r := rs[..|rs| - 1], rs[|rs| - 1];
      CollectScenarioOrder(init, f);
      var fs := Collect(init);
      var sc := GetOr(fs, FeatureOf(r), []);
      var runs' := Put(GetOr(sc, r.testName, []), r.browser, RunOf(r));
      if FeatureOf(r) == f {
        PutKeys(sc, r.testName, runs');
        assert GetOr(Collect(rs), f, []) == Put(sc, r.testName, runs');
        assert TestNamesIn(rs, f) == TestNamesIn(init, f) + [r.testName];
        FirstSeenSnoc(TestNamesIn(init, f), r.testName);
        assert r.testName in Keys(sc) <==> r.testName in TestNamesIn(init, f);
      } else {
        assert GetOr(Collect(rs), f, []) == GetOr(fs, f, []);
        assert TestNamesIn(rs, f) == TestNamesIn(init, f);
      }
    }
  }

  /** The browser names of the records with feature `f` and test name `t`, in record order. */
  function BrowsersIn(rs: seq<TestRecord>, f: string, t: string): seq<string>
  {
    if rs == [] then []
    else
      var r := rs[|rs| - 1];
      BrowsersIn(rs[..|rs| - 1], f, t) + (if FeatureOf(r) == f && r.testName == t then [r.browser] else [])
  }

  /** Within a test name, the runs are enumerated in the order in which the first record of each
      browser appears. */
  lemma {:induction false} CollectRunOrder(rs: seq<TestRecord>, f: string, t: string)
    ensures Keys(GetOr(GetOr(Collect(rs), f, []), t, [])) == FirstSeen(BrowsersIn(rs, f, t))
  {
    if rs != [] {
      var init, r := rs[..|rs| - 1], rs[|rs| - 1];
      CollectRunOrder(init, f, t);
      var fs := Collect(init);
      var sc := GetOr(fs, FeatureOf(r), []);
      var runs := GetOr(sc, r.testName, []);
      var runs' := Put(runs, r.browser, RunOf(r));
      var sc' := Put(sc, r.testName, runs');
      assert Collect(rs) == Put(fs, FeatureOf(r), sc');
      if FeatureOf(r) == f {
        assert GetOr(Collect(rs), f, []) == sc';
        if r.testName == t {
          PutKeys(runs, r.browser, RunOf(r));
          assert GetOr(sc', t, []) == runs';
          assert BrowsersIn(rs, f, t) == BrowsersIn(init, f, t) + [r.browser];
          FirstSeenSnoc(BrowsersIn(init, f, t), r.browser);
          assert r.browser in Keys(runs) <==> r.browser in BrowsersIn(init, f, t);
        } else {
          assert GetOr(sc', t, []) == GetOr(sc, t, []);
          assert BrowsersIn(rs, f, t) == BrowsersIn(init, f, t);
        }
      } else {
        assert GetOr(Collect(rs), f, []) == GetOr(fs, f, []);
        assert BrowsersIn(rs, f, t) == BrowsersIn(init, f, t);
      }
    }
  }
}
