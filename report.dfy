/** Running the configurations and reporting: every case of `conf_list` is
    run once, in order; the failures are counted, the totals reported, and
    the exit status is nonzero exactly when a case failed. Running one case
    (`app_tests.runTest`) is left to the test library; here it is a
    parameter that tells, for a configuration, whether its run passed. */
module Report {
  import opened TestSuite

  /** The outcome of each case, in order. */
  function Outcomes(confs: seq<TestConf>, runTest: TestConf -> bool): (rs: seq<bool>)
    ensures |rs| == |confs|
    ensures forall i :: 0 <= i < |confs| ==> rs[i] == runTest(confs[i])
    decreases |confs|
  {
    if confs == [] then []
    else Outcomes(confs[..|confs| - 1], runTest) + [runTest(confs[|confs| - 1])]
  }

  /** Number of failed runs. */
  function Failures(results: seq<bool>): (n: nat)
    ensures n <= |results|
    decreases |results|
  {
    if results == [] then 0
    else Failures(results[..|results| - 1]) + (if results[|results| - 1] then 0 else 1)
  }

  /** The failure count is the number of `false` outcomes. */
  lemma {:induction false} FailuresCountsFalse(results: seq<bool>)
    ensures Failures(results) == multiset(results)[false]
    decreases |results|
  {
    if results != [] {
      var m := |results| - 1;
      assert results == results[..m] + [results[m]];
      FailuresCountsFalse(results[..m]);
    }
  }

  /** What is left over once the failures are taken away are the `true`
      outcomes: the successful tests. */
  lemma {:induction false} SuccessesCountTrue(results: seq<bool>)
    ensures |results| - Failures(results) == multiset(results)[true]
    decreases |results|
  {
    if results != [] {
      var m := |results| - 1;
      assert results == results[..m] + [results[m]];
      SuccessesCountTrue(results[..m]);
    }
  }

  /** No failure was counted exactly when every run passed. */
  lemma {:induction false} NoFailuresIffAllPass(results: seq<bool>)
    ensures Failures(results) == 0 <==> forall i :: 0 <= i < |results| ==> results[i]
  {
    FailuresCountsFalse(results);
    if Failures(results) == 0 {
      forall i | 0 <= i < |results| ensures results[i] {
        assert multiset(results)[results[i]] > 0;
      }
    } else {
      assert false in multiset(results);
      var i :| 0 <= i < |results| && results[i] == false;
    }
  }

  /** Counting is order-independent and additive over a split list. */
  lemma {:induction false} FailuresAppend(a: seq<bool>, b: seq<bool>)
    ensures Failures(a + b) == Failures(a) + Failures(b)
  {
    FailuresCountsFalse(a + b);
    FailuresCountsFalse(a);
    FailuresCountsFalse(b);
    assert multiset(a + b) == multiset(a) + multiset(b);
  }

  /** Turning one passing run into a failing one adds exactly one failure. */
  lemma {:induction false} FailingOneMore(results: seq<bool>, i: nat)
    requires i < |results| && results[i]
    ensures Failures(results[i := false]) == Failures(results) + 1
  {
    FailuresCountsFalse(results);
    FailuresCountsFalse(results[i := false]);
    assert results == results[..i] + [true] + results[i + 1..];
    assert results[i := false] == results[..i] + [false] + results[i + 1..];
  }

  /** The execution loop: each case is run once, in order, and every
      failed run adds one to the count. */
  method CountFailures(confList: seq<TestConf>, runTest: TestConf -> bool) returns (failures: nat)
    ensures failures == Failures(Outcomes(confList, runTest))
  {
    failures := 0;
    for i := 0 to |confList|
      invariant failures == Failures(Outcomes(confList[..i], runTest))
    {
      var res := runTest(confList[i]);
      assert confList[..i + 1][..i] == confList[..i];
      if !res {
        failures := failures + 1;
      }
    }
    assert confList[..|confList|] == confList;
  }

  /** The whole run and the summary. Returns the three reported numbers and
      the return code of the harness (true when it reports failure). */
  method RunTests(program: string, runTest: TestConf -> bool)
    returns (total: nat, failures: nat, successful: nat, failed: bool)
    ensures total == |Suite(program)| == CaseCount
    ensures failures == Failures(Outcomes(Suite(program), runTest))
    ensures failures == multiset(Outcomes(Suite(program), runTest))[false]
    ensures successful == multiset(Outcomes(Suite(program), runTest))[true]
    ensures total == failures + successful
    ensures failed <==> exists i :: 0 <= i < |Suite(program)| && !runTest(Suite(program)[i])
  {
    var confList := BuildConfList(program);
    failures := CountFailures(confList, runTest);
    ghost var results := Outcomes(confList, runTest);
    FailuresCountsFalse(results);
    SuccessesCountTrue(results);
    NoFailuresIffAllPass(results);
    total := |confList|;
    successful := total - failures;
    failed := failures != 0;
  }
}
