/**
 * `consolidateAllStackTraces`: the lines shown in a run's collapsible stack-trace row.
 */
module StackTraces {
  import opened Text

  /** One assertion outcome of a run. A missing `errorMsg` or `stackTrace` is the empty
      string: both are falsy, so both contribute nothing. */
  datatype Assertion = Assertion(passed: bool, errorMsg: string, stackTrace: string)

  /** What one assertion adds: nothing when it passed; otherwise its message, if any, and then
      the lines of its trace, if any. */
  function Contribution(a: Assertion): seq<string>
  {
    if a.passed then []
    else MessageLines(a) + TraceLines(a)
  }

  function MessageLines(a: Assertion): seq<string>
  {
    if a.errorMsg != "" then [a.errorMsg] else []
  }

  function TraceLines(a: Assertion): seq<string>
  {
    if a.stackTrace != "" then Split(a.stackTrace, '\n') else []
  }

  /** A failed assertion's lines after its message join back, with newlines, into its trace. */
  lemma TraceLinesJoinBack(a: Assertion)
    requires !a.passed
    ensures |Contribution(a)| >= |MessageLines(a)|
    ensures Join(Contribution(a)[|MessageLines(a)|..], '\n') == a.stackTrace
  {
    assert Contribution(a)[|MessageLines(a)|..] == TraceLines(a);
    JoinSplit(a.stackTrace, '\n');
  }

  /** The lines of all assertions, in assertion order. */
  function Consolidated(assertions: seq<Assertion>): seq<string>
  {
    if assertions == [] then []
    else Contribution(assertions[0]) + Consolidated(assertions[1..])
  }

  lemma ConsolidatedSnoc(s: seq<Assertion>, a: Assertion)
    ensures Consolidated(s + [a]) == Consolidated(s) + Contribution(a)
  {
    ConsolidatedAppend(s, [a]);
    assert [a][1..] == [];
  }

  /** `consolidateAllStackTraces(run)`, over `run.assertions`. */
  method ConsolidateAllStackTraces(assertions: seq<Assertion>) returns (stk: seq<string>)
    ensures stk == Consolidated(assertions)
  {
    stk := [];
    var i := 0;
    while i < |assertions|
      invariant 0 <= i <= |assertions|
      invariant stk == Consolidated(assertions[..i])
    {
      var a := assertions[i];
      if !a.passed {
        stk := PushFailedAssertion(stk, a);
      }
      assert assertions[..i + 1] == assertions[..i] + [a];
      ConsolidatedSnoc(assertions[..i], a);
      i := i + 1;
    }
    assert assertions[..|assertions|] == assertions;
  }

  /** The body of the outer loop for a failed assertion: its message, then its trace lines. */
  method PushFailedAssertion(stk: seq<string>, a: Assertion) returns (r: seq<string>)
    requires !a.passed
    ensures r == stk + Contribution(a)
  {
    r := stk;
    if a.errorMsg != "" {
      r := r + [a.errorMsg];
    }
    assert r == stk + MessageLines(a);
    if a.stackTrace != "" {
      r := PushTraceLines(r, a.stackTrace);
    }
    assert r == stk + MessageLines(a) + TraceLines(a);
  }

  /** The inner loop of `consolidateAllStackTraces`: pushes the trace's lines one by one. */
  method PushTraceLines(stk: seq<string>, stackTrace: string) returns (r: seq<string>)
    ensures r == stk + Split(stackTrace, '\n')
  {
    var stckTrc := Split(stackTrace, '\n');
    r := stk;
    var j := 0;
    while j < |stckTrc|
      invariant 0 <= j <= |stckTrc|
      invariant r == stk + stckTrc[..j]
    {
      assert stckTrc[..j + 1] == stckTrc[..j] + [stckTrc[j]];
      r := r + [stckTrc[j]];
      j := j + 1;
    }
    assert stckTrc[..|stckTrc|] == stckTrc;
  }

  /** Flattening two lists of assertions one after the other gives the two results one after
      the other. */
  lemma {:induction false} ConsolidatedAppend(a: seq<Assertion>, b: seq<Assertion>)
    ensures Consolidated(a + b) == Consolidated(a) + Consolidated(b)
    decreases |a|
  {
    if a == [] {
      assert a + b == b;
    } else {
      assert (a + b)[0] == a[0];
      assert (a + b)[1..] == a[1..] + b;
      ConsolidatedAppend(a[1..], b);
    }
  }

  /** The result is empty exactly when every failed assertion has neither a message nor a
      trace; in particular it is empty when no assertion failed. */
  lemma {:induction false} ConsolidatedEmpty(assertions: seq<Assertion>)
    ensures Consolidated(assertions) == [] <==>
      forall i :: 0 <= i < |assertions| && !assertions[i].passed ==>
        assertions[i].errorMsg == "" && assertions[i].stackTrace == ""
  {
    if assertions != [] {
      var rest := assertions[1..];
      ConsolidatedEmpty(rest);
      assert forall i :: 0 <= i < |rest| ==> rest[i] == assertions[i + 1];
    }
  }

  /** Every line comes from a failed assertion: it is its message or a line of its trace. */
  lemma {:induction false} ConsolidatedProvenance(assertions: seq<Assertion>, n: nat)
    requires n < |Consolidated(assertions)|
    ensures exists i :: 0 <= i < |assertions| && !assertions[i].passed &&
                        (Consolidated(assertions)[n] == assertions[i].errorMsg
                         || Consolidated(assertions)[n] in TraceLines(assertions[i]))
    decreases |assertions|
  {
    var first, rest := assertions[0], assertions[1..];
    var lines := Consolidated(assertions);
    if n < |Contribution(first)| {
      assert lines[n] == Contribution(first)[n];
      assert !first.passed;
      assert lines[n] == first.errorMsg || lines[n] in TraceLines(first);
      assert assertions[0] == first;
    } else {
      var k := n - |Contribution(first)|;
      assert lines[n] == Consolidated(rest)[k];
      ConsolidatedProvenance(rest, k);
      var i :| 0 <= i < |rest| && !rest[i].passed &&
               (Consolidated(rest)[k] == rest[i].errorMsg || Consolidated(rest)[k] in TraceLines(rest[i]));
      assert rest[i] == assertions[i + 1];
    }
  }
}
