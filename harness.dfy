/** The Python test harness's run_test: print a start banner, call the test
    function once, print exactly one verdict banner for how it finished, and
    always print a closing banner. What happens is recorded as a sequence of
    events, printed banners and the one call of the test function. */
module Harness {

  /** How the test function finished. Interrupted stands for a
      BaseException that is not an Exception (KeyboardInterrupt, SystemExit):
      neither except clause catches it. */
  datatype Outcome =
    | Returned
    | AssertionFailed(message: string)
    | Raised(message: string)
    | Interrupted

  datatype Banner =
    | Starting(description: string)
    | Passed(description: string)
    | Failed(description: string, message: string)
    | Errored(description: string, message: string)
    | MovingOn

  datatype Event = Show(banner: Banner) | Invoke

  /** The events of a run, and whether a failure escaped it. */
  datatype Run = Run(events: seq<Event>, propagates: bool)

  /** The printed text of a banner (without the colour prefix and without
      the newline print adds; the closing banner carries one of its own). */
  function Render(b: Banner): (line: string)
    ensures |line| > 4 && line[..4] == "--- "
    ensures IsVerdict(b) ==> |line| > 4 + |b.description| && line[4..4 + |b.description|] == b.description
  {
    match b
    case Starting(d) => "--- Starting: " + d + " ---"
    case Passed(d) => "--- " + d + ": Passed ---"
    case Failed(d, m) => "--- " + d + ": Failed - " + m + " ---"
    case Errored(d, m) => "--- " + d + ": Encountered an Error - " + m + " ---"
    case MovingOn => "--- Moving to the next test ---\n"
  }

  predicate IsVerdict(b: Banner) {
    b.Passed? || b.Failed? || b.Errored?
  }

  /** The verdict banners among the events, in order. */
  function Verdicts(events: seq<Event>): (vs: seq<Banner>)
    ensures |vs| <= |events|
    ensures forall v :: v in vs ==> IsVerdict(v)
  {
    if events == [] then []
    else
      var e := events[|events| - 1];
      Verdicts(events[..|events| - 1]) + (if e.Show? && IsVerdict(e.banner) then [e.banner] else [])
  }

  /** How many times the test function was called. */
  function Invocations(events: seq<Event>): (n: nat)
    ensures n <= |events|
  {
    if events == [] then 0
    else Invocations(events[..|events| - 1]) + (if events[|events| - 1].Invoke? then 1 else 0)
  }

  lemma {:induction false} VerdictsAppend(a: seq<Event>, b: seq<Event>)
    ensures Verdicts(a + b) == Verdicts(a) + Verdicts(b)
    ensures Invocations(a + b) == Invocations(a) + Invocations(b)
    decreases |b|
  {
    if b == [] {
      assert a + b == a;
    } else {
      var init := b[..|b| - 1];
      assert (a + b)[..|a + b| - 1] == a + init;
      VerdictsAppend(a, init);
    }
  }

  /** The verdict the harness reaches for a test that did not escape it:
      Passed for a normal return, Failed with the assertion's message, or an
      error with the exception's message. */
  function Verdict(description: string, outcome: Outcome): (b: Banner)
    requires !outcome.Interrupted?
    ensures IsVerdict(b) && b.description == description
    ensures b.Passed? <==> outcome.Returned?
    ensures b.Failed? <==> outcome.AssertionFailed?
    ensures !b.Passed? ==> b.message == outcome.message
  {
    match outcome
    case Returned => Passed(description)
    case AssertionFailed(m) => Failed(description, m)
    case Raised(m) => Errored(description, m)
  }

  /** run_test(description, test_function), given how the test function
      finishes: the start banner comes first and the call right after it,
      the closing banner comes last, and only an interrupt escapes. */
  function RunTest(description: string, outcome: Outcome): (r: Run)
    ensures |r.events| >= 3
    ensures r.events[0] == Show(Starting(description)) && r.events[1] == Invoke
    ensures r.events[|r.events| - 1] == Show(MovingOn)
    ensures r.propagates <==> outcome.Interrupted?
  {
    var start := [Show(Starting(description)), Invoke];
    match outcome
    case Interrupted => Run(start + [Show(MovingOn)], true)
    case _ => Run(start + [Show(Verdict(description, outcome)), Show(MovingOn)], false)
  }

  /** run_test calls the test function exactly once and prints exactly one
      verdict, the one for how the test finished; an interrupt prints none. */
  lemma RunTestVerdict(description: string, outcome: Outcome)
    ensures Invocations(RunTest(description, outcome).events) == 1
    ensures !outcome.Interrupted? ==> Verdicts(RunTest(description, outcome).events) == [Verdict(description, outcome)]
    ensures outcome.Interrupted? ==> Verdicts(RunTest(description, outcome).events) == []
  {
    var starting, verdictless := Show(Starting(description)), [Show(Starting(description)), Invoke];
    assert verdictless[..1] == [starting] && [starting][..0] == [];
    assert Verdicts([starting]) == [] && Invocations([starting]) == 0;
    assert Verdicts(verdictless) == [] && Invocations(verdictless) == 1;
    var events := RunTest(description, outcome).events;
    if outcome.Interrupted? {
      assert events[..2] == verdictless;
    } else {
      var verdict := Verdict(description, outcome);
      assert events[..3] == verdictless + [Show(verdict)];
      assert events[..3][..2] == verdictless;
    }
  }

  /** A script that calls run_test for each test in turn. A failure that
      escapes one call ends the script there. */
  function RunSuite(tests: seq<(string, Outcome)>): (r: Run)
    ensures !r.propagates ==> Invocations(r.events) == |tests|
  {
    if tests == [] then Run([], false)
    else
      var first := RunTest(tests[0].0, tests[0].1);
      if first.propagates then first
      else
        var rest := RunSuite(tests[1..]);
        RunTestVerdict(tests[0].0, tests[0].1);
        VerdictsAppend(first.events, rest.events);
        Run(first.events + rest.events, rest.propagates)
  }

  /** Test independence: when no test escapes the harness, every test runs
      once and the verdicts appear in test order, one per test. */
  lemma {:induction false} SuiteIndependence(tests: seq<(string, Outcome)>)
    requires forall i :: 0 <= i < |tests| ==> !tests[i].1.Interrupted?
    ensures !RunSuite(tests).propagates
    ensures Invocations(RunSuite(tests).events) == |tests|
    ensures |Verdicts(RunSuite(tests).events)| == |tests|
    ensures forall i :: 0 <= i < |tests| ==> Verdicts(RunSuite(tests).events)[i] == Verdict(tests[i].0, tests[i].1)
  {
    if tests != [] {
      SuiteIndependence(tests[1..]);
      var first := RunTest(tests[0].0, tests[0].1);
      RunTestVerdict(tests[0].0, tests[0].1);
      VerdictsAppend(first.events, RunSuite(tests[1..]).events);
    }
  }

  /** A test that escapes the harness stops the script: the tests before it
      have run with their verdicts, and no later test is called. */
  lemma {:induction false} SuiteStopsAtInterrupt(tests: seq<(string, Outcome)>, j: nat)
    requires j < |tests| && tests[j].1.Interrupted?
    requires forall i :: 0 <= i < j ==> !tests[i].1.Interrupted?
    ensures RunSuite(tests).propagates
    ensures Invocations(RunSuite(tests).events) == j + 1
    ensures |Verdicts(RunSuite(tests).events)| == j
    ensures forall i :: 0 <= i < j ==> Verdicts(RunSuite(tests).events)[i] == Verdict(tests[i].0, tests[i].1)
  {
    RunTestVerdict(tests[0].0, tests[0].1);
    if j > 0 {
      SuiteStopsAtInterrupt(tests[1..], j - 1);
      VerdictsAppend(RunTest(tests[0].0, tests[0].1).events, RunSuite(tests[1..]).events);
    }
  }

  /** The three verdict banners of one test print differently, so the
      console output tells which one was reached. */
  lemma VerdictLinesDiffer(description: string, m1: string, m2: string)
    ensures Render(Passed(description)) != Render(Failed(description, m1))
    ensures Render(Passed(description)) != Render(Errored(description, m2))
    ensures Render(Failed(description, m1)) != Render(Errored(description, m2))
  {
    var k := 4 + |description| + 2;
    assert Render(Passed(description))[k] == 'P';
    assert Render(Failed(description, m1))[k] == 'F';
    var errored := "--- " + description + ": Encountered an Error - ";
    assert Render(Errored(description, m2)) == errored + m2 + " ---";
    assert errored[k] == 'E';
  }
}
