/**
 * The composite test name written by `specStarted` and the feature name that
 * `copyResultsToFeatureCollection` reads back out of it.
 */
module TestNames {
  import opened Text

  const FeatureDenominator := "Feature: "
  const ScenarioDenominator := " - Scenario: "

  /** `spec.fullName.replace(spec.description, '')`: the full name with the first occurrence of
      the description deleted. */
  function FeatureNameOf(fullName: string, description: string): (f: string)
    ensures IndexOf(fullName, description) < 0 ==> f == fullName
    ensures IndexOf(fullName, description) >= 0 ==>
      var i := IndexOf(fullName, description);
      |f| == |fullName| - |description| && f == fullName[..i] + fullName[i + |description|..]
  {
    ReplaceFirst(fullName, description, "")
  }

  /** The new `spec.description` that `specStarted` stores; browser name and version are
      the properties of the global browser handle. The name starts with `"Feature: "`, and
      reading the feature back out of it gives the feature name exactly when that name creates
      no earlier delimiter. */
  function EncodeTestName(fullName: string, description: string, browserName: string, version: string): (t: string)
    ensures |t| >= |FeatureDenominator| && t[..|FeatureDenominator|] == FeatureDenominator
    ensures ExtractFeature(t) == FeatureNameOf(fullName, description)
            <==> DelimiterFirstAfter(FeatureNameOf(fullName, description))
  {
    var f := FeatureNameOf(fullName, description);
    var rest := description + "|" + browserName + "-" + version;
    ExtractFeatureOfEncoded(f, rest);
    FeatureDenominator + f + ScenarioDenominator + rest
  }

  /** `testName.substr(offset, testName.indexOf(' - Scenario: ') - offset)` with the offset
      the length of `"Feature: "`. */
  function ExtractFeature(testName: string): (f: string)
    ensures IndexOf(testName, ScenarioDenominator) < |FeatureDenominator| ==> f == ""
    ensures IndexOf(testName, ScenarioDenominator) >= |FeatureDenominator| ==>
      f == testName[|FeatureDenominator|..IndexOf(testName, ScenarioDenominator)]
  {
    var offset := |FeatureDenominator|;
    Substr(testName, offset, IndexOf(testName, ScenarioDenominator) - offset)
  }

  /** The delimiter first occurs in `"Feature: " + f + " - Scenario: "` right after `f`: `f`
      does not create an earlier occurrence, on its own or together with the text around it. */
  predicate DelimiterFirstAfter(f: string)
  {
    forall k :: 0 <= k < |FeatureDenominator| + |f| ==>
      !OccursAt(FeatureDenominator + f + ScenarioDenominator, ScenarioDenominator, k)
  }

  /**
   * Feature extraction undoes the encoding exactly when the feature name creates no earlier
   * delimiter; whatever follows the delimiter does not matter.
   */
  lemma ExtractFeatureOfEncoded(f: string, rest: string)
    ensures ExtractFeature(FeatureDenominator + f + ScenarioDenominator + rest) == f
            <==> DelimiterFirstAfter(f)
  {
    var u := FeatureDenominator + f + ScenarioDenominator;
    var t := u + rest;
    var d := ScenarioDenominator;
    var n := |FeatureDenominator| + |f|;
    forall k | 0 <= k <= n
      ensures OccursAt(t, d, k) == OccursAt(u, d, k)
    {
      assert k + |d| <= |u|;
      assert t[k..k + |d|] == u[k..k + |d|];
    }
    assert u[n..n + |d|] == d;
    assert OccursAt(t, d, n);
    var i := IndexOf(t, d);
    assert 0 <= i <= n;
    if DelimiterFirstAfter(f) {
      assert i == n;
      assert t[|FeatureDenominator|..n] == f;
    } else {
      assert i < n;
      if i >= |FeatureDenominator| {
        assert |ExtractFeature(t)| == i - |FeatureDenominator| < |f|;
      } else {
        NoEarlyDelimiterAroundEmpty(f);
      }
    }
  }

  /** With the empty feature name the first delimiter is the one written after it: the text
      `"Feature: "` contains no dash. */
  lemma NoEarlyDelimiterAroundEmpty(f: string)
    ensures f == "" ==> DelimiterFirstAfter(f)
  {
    if f == "" {
      var u := FeatureDenominator + f + ScenarioDenominator;
      assert u == "Feature:  - Scenario: ";
      forall k | 0 <= k < |FeatureDenominator| ensures !OccursAt(u, ScenarioDenominator, k) {
        assert u[k + 1] != ScenarioDenominator[1];
      }
    }
  }

  /** A feature name without a dash always survives the round trip. */
  lemma DashFreeFeatureRoundTrip(f: string, rest: string)
    requires '-' !in f
    ensures ExtractFeature(FeatureDenominator + f + ScenarioDenominator + rest) == f
  {
    var u := FeatureDenominator + f + ScenarioDenominator;
    var n := |FeatureDenominator|;
    assert ScenarioDenominator[1] == '-';
    assert forall i :: 0 <= i < n ==> FeatureDenominator[i] != '-';
    forall k | 0 <= k < n + |f|
      ensures !OccursAt(u, ScenarioDenominator, k)
    {
      CharOfThree(FeatureDenominator, f, ScenarioDenominator, k + 1);
    }
    ExtractFeatureOfEncoded(f, rest);
  }

  /** Indexing into three strings written one after the other. */
  lemma CharOfThree(a: string, b: string, c: string, i: nat)
    requires i < |a| + |b| + |c|
    ensures (a + b + c)[i] == if i < |a| then a[i] else if i < |a| + |b| then b[i - |a|] else c[i - |a| - |b|]
  {
  }

  /** A name without the delimiter falls into the feature with the empty name; nothing fails. */
  lemma NoDelimiterEmptyFeature(testName: string)
    requires forall k :: 0 <= k <= |testName| ==> !OccursAt(testName, ScenarioDenominator, k)
    ensures ExtractFeature(testName) == ""
  {
  }
}
