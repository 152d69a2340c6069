# test-executor scheduler and test harness, modelled in Dafny

The repository runs browser end-to-end tests on a small controller/worker
system. The controller loads the `.py` test scripts of its `tests` directory.
Workers register with it by a handshake and then ask for tasks. The controller
hands out one script per request. It chooses the script round-robin, with a
counter. The same counter also picks a worker from the join order. That worker
is only named in the controller's log line. The reply goes to whichever worker
made the request. Each test script runs its checks through
`run_test`. That helper prints a start banner, calls the test function, prints
one verdict (Passed, Failed or Error), and then prints a closing banner.

This project models the following, in four modules:

- `Results` (`results.dfy`): the error-or-value result of Go's `(T, error)` returns.
- `Paths` (`paths.dfy`): `strings.HasSuffix`, `filepath.Join` and
  `filepath.Base` on slash-separated paths, with the proof that `Base`
  recovers an entry name that was joined onto a directory.
- `Scheduler` (`scheduler.dfy`): the controller's state as a class `Server`
  with the fields `workers`, `workerList`, `nextWorker` and `testCases`.
  - The handlers `StartHandshake` and `ReceiveTask` are methods that state
    the whole new state. Each handler holds the server mutex for its whole
    body, so each one is modelled as a single atomic call.
  - The object invariant `Valid()` says two things. The worker table and the
    join-order list name the same IDs. The counter stays below the number of
    test cases. The constructor establishes it and both handlers keep it, so
    `requires Valid()` excludes no state the controller can reach.
  - `loadTestCases` is a method with a loop, proved against a filter function.
  - Runs of successful requests are described by `Dispatched` and `Assigned`.
    Lemmas about them prove that the scripts go out in rotation, once per
    round. They also prove that the counter, because it wraps at the number
    of test cases, never names in the log a worker that joined after the
    first `len(testCases)`.
  - `ServeRequests` calls `ReceiveTask` k times in a row, with no handshake
    in between and every script readable. Its contract proves that the real
    calls send exactly the scripts `Dispatched` describes and log exactly the
    workers `Assigned` describes.
- `Harness` (`harness.dfy`): `run_test` as a function from the test's outcome
  to the sequence of events it causes. An event is a printed banner or the
  one call of the test function. `RunSuite` models a script that calls
  `run_test` for each test in turn.

The directory listing and the file contents are inputs. A listing is a
`Result` of entries. The files are a map from path to bytes, and a path
missing from the map is a read error.

`run_test` catches only `AssertionError` and `Exception`
(helpers.py:10-13). A `BaseException` that is not an `Exception`
(`KeyboardInterrupt`, `SystemExit`) still gets the closing banner from
`finally` (helpers.py:14-15). It then escapes and ends the script. That is the
`Interrupted` outcome.

## Model

| member | source | states |
|---|---|---|
| `Paths.SuffixMeansAppended` | controller/controller.go:58 | `HasSuffix(s, suffix)` holds exactly when s is some prefix followed by suffix |
| `Paths.Join` | controller/controller.go:59 | the joined path starts with the directory and ends with the entry name; a non-empty directory without a trailing slash is followed by exactly one '/', otherwise nothing is added |
| `Paths.Base` | controller/controller.go:98 | the base name is never empty and holds no separator (unless it is "/") |
| `Paths.BaseOfJoin` | controller/controller.go:59 | the base name of a path joined from a directory and an entry name is that entry name |
| `Paths.JoinKeepsSuffix` | controller/controller.go:58-59 | a name ending in ".py" still ends in ".py" after it is joined onto the directory |
| `Scheduler.Scripts` | controller/controller.go:57-61 | the filter never yields more entries than the listing has |
| `Scheduler.ScriptsMembers` | controller/controller.go:58 | an entry is kept if and only if it is in the listing, is not a directory and its name ends in ".py" |
| `Scheduler.ScriptsAppend` | controller/controller.go:57-61 | filtering distributes over concatenation of listings, so listing order is kept |
| `Scheduler.LoadTestCases` | controller/controller.go:50-63 | a listing error gives the error "failed to read tests directory: ..." and nothing else; otherwise the i-th result is the i-th test-script entry joined onto the directory, and there are no others |
| `Scheduler.LoadedPath` | controller/controller.go:57-61 | every loaded path ends in ".py" and its base name is the listed entry's name, so the Filename a worker receives is the script's own name |
| `Scheduler.Pick` | controller/controller.go:81 | modular indexing always lands in the list, and a counter below its length picks that position |
| `Scheduler.Advance` | controller/controller.go:94 | the new counter is below the number of test cases: one step on, or 0 after the last test case |
| `Scheduler.ListCoversTable` | controller/controller.go:43-44 | when table and join-order list name the same workers, the list is at least as long as the table, so a non-empty table makes `workerList[nextWorker % len(workerList)]` safe |
| `Scheduler.Server.constructor` | controller/controller.go:126-131 | the server starts with no workers, an empty join order, counter 0 and the loaded test cases, and the invariant holds |
| `Scheduler.Server.StartHandshake` | controller/controller.go:35-48 | the worker is stored under its ID (overwriting any earlier entry) and the ID is appended to the join order even when already present; counter and test cases are unchanged; the reply is "handshake acknowledged"; the invariant is kept |
| `Scheduler.Server.ReceiveTask` | controller/controller.go:66-102 | no workers gives "no workers available" and no test cases gives "no test cases available"; a file that cannot be read gives a read error; none of these changes any state; on success the worker and the script are the ones the old counter selects, the reply carries the script's base name, its content and "run the test script", and the counter advances modulo the number of test cases; worker table, join order and test cases never change |
| `Scheduler.Dispatched` | controller/controller.go:85-94 | k consecutive successful requests dispatch k scripts |
| `Scheduler.Assigned` | controller/controller.go:81-94 | k consecutive successful requests choose k workers |
| `Scheduler.DispatchedAt` | controller/controller.go:85-94 | the i-th request of a run starting at counter s dispatches test case (s + i) mod n |
| `Scheduler.RoundIsRotation` | controller/controller.go:85-94 | n requests from any counter value dispatch the test cases rotated to start there, so each test case exactly once |
| `Scheduler.FirstRound` | controller/controller.go:129 | from the initial counter 0, the first n requests dispatch the test cases in list order |
| `Scheduler.CycleRepeats` | controller/controller.go:85-94 | request i + n dispatches the same script as request i |
| `Scheduler.AssignedAt` | controller/controller.go:81-94 | the i-th request goes to join-order position ((s + i) mod n) mod len(workerList): the worker index wraps at the number of test cases |
| `Scheduler.LateWorkersStarve` | controller/controller.go:81-94 | with at least as many joined workers as test cases, only the first n entries of the join order are ever named in the "sending task" log line as the chosen worker |
| `Scheduler.ServeRequests` | controller/controller.go:66-102 | k requests in a row, with no handshake between them and every script readable, all succeed; the scripts sent are Dispatched from the old counter and the workers logged are Assigned from it; the counter ends at (old + k) mod n; the worker table, join order and test cases are unchanged |
| `Harness.Render` | controller/insider_py_wrapper/helpers.py:7-15 | every banner starts with "--- ", and a verdict banner names its test right after that |
| `Harness.Verdict` | controller/insider_py_wrapper/helpers.py:9-13 | a normal return is Passed, and only a normal return is; an assertion failure is Failed, and only an assertion failure is; Failed and Error carry the exception's message; the verdict names the test |
| `Harness.RunTest` | controller/insider_py_wrapper/helpers.py:5-15 | the start banner is first and the test-function call comes right after it; "Moving to the next test" is always last; a failure escapes only for an outcome outside `Exception` |
| `Harness.RunTestVerdict` | controller/insider_py_wrapper/helpers.py:8-13 | the test function is called exactly once; exactly the verdict for the outcome is printed, and none for an escaping interrupt |
| `Harness.RunSuite` | controller/tests/main.py:183-186 | when nothing escapes, every test of the script has been called |
| `Harness.SuiteIndependence` | controller/insider_py_wrapper/helpers.py:10-15 | when no test escapes, every test runs once, nothing escapes the script, and the verdicts appear one per test in test order |
| `Harness.SuiteStopsAtInterrupt` | controller/insider_py_wrapper/helpers.py:12-15 | a test that raises outside `Exception` ends the script: the earlier tests have their verdicts and no later test is called |
| `Harness.VerdictLinesDiffer` | controller/insider_py_wrapper/helpers.py:9-13 | the Passed, Failed and Error lines of one test are different texts, so the console tells them apart |

## Left out

- `main` in controller/controller.go (lines 104-138) is not modelled. It listens on TCP port 50051, registers the gRPC service, serves, and lists the loaded cases on the console. The initial server state it builds is the `Server` constructor.
- The real `os.ReadDir` and `os.ReadFile` calls are not modelled. The listing and the file contents are parameters. `os.ReadDir` sorts its entries by name; the model keeps whatever order the listing has.
- The server mutex is not modelled. Each handler is one atomic method call, because each holds the lock for its whole body.
- The console log lines are not modelled: "a new worker joined ..." and "sending task ...". The worker the controller logs is returned as `Dispatch.worker`. The round-robin worker choice only labels that log line. It does not decide who receives the reply, which goes to the caller.
- Paths.Join: does not model `filepath.Clean`'s lexical clean-up of the directory part (`.`/`..` elements, doubled separators).
- The text of `ReceiveTask`'s three error messages is not modelled. `NoWorkers` stands for "no workers available", `NoTestCases` for "no test cases available", and `ReadFailed(path)` for "failed to read test file: ..." (controller.go:72, 77, 88).
- `WorkerInfo.Address` is never set by the controller. It is always the empty string.
- worker/worker.go is not part of this model. It is a gRPC client that starts a subprocess and streams its pipes.
- controller/test-full-definition/insider_py_wrapper/generic_page.py is not part of this model. It forwards calls to the Selenium library and logs them.
- controller/tests/main.py and controller/tests/test_homepage_navigation.py are not part of this model, apart from their sequence of `run_test` calls (`RunSuite`). They are site-specific browser steps, including the ten-attempt dropdown retry.
- The colorama colour prefixes of the banners are not modelled. They are presentation only.
- `str(e)` of an exception is taken as given: the outcome carries the message text.
