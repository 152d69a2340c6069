/** The controller's task scheduler: workers register by handshake, and each
    task request is answered with the next test script, chosen round-robin
    by a counter that also picks the worker. The test directory listing and
    the file contents are inputs; the gRPC transport and the mutex that makes
    each handler atomic are not modelled (each handler is one method call). */
module Scheduler {
  import opened Results
  import opened Paths

  newtype byte = x: int | 0 <= x < 256

  /** What the controller records about a worker; only the ID is ever set. */
  datatype WorkerInfo = WorkerInfo(id: string, address: string)

  /** One entry of a directory listing. */
  datatype DirEntry = DirEntry(name: string, isDir: bool)

  /** The reply to a task request. */
  datatype Task = Task(filename: string, content: seq<byte>, message: string)

  /** A successful task request: the worker the round-robin chose (the one the
      controller logs), the full path of the script, and the reply. */
  datatype Dispatch = Dispatch(worker: string, path: string, task: Task)

  datatype ScheduleError = NoWorkers | NoTestCases | ReadFailed(path: string)

  const HandshakeAck: string := "handshake acknowledged"
  const RunInstruction: string := "run the test script"
  const ScriptSuffix: string := ".py"
  const ReadDirFailure: string := "failed to read tests directory: "

  // ---------------------------------------------------------------------
  // Loading the test cases
  // ---------------------------------------------------------------------

  /** A listing entry the controller treats as a test case. */
  predicate IsTestScript(e: DirEntry) {
    !e.isDir && HasSuffix(e.name, ScriptSuffix)
  }

  /** The test-script entries of a listing, in listing order. */
  function Scripts(entries: seq<DirEntry>): (s: seq<DirEntry>)
    ensures |s| <= |entries|
  {
    if entries == [] then []
    else (if IsTestScript(entries[0]) then [entries[0]] else []) + Scripts(entries[1..])
  }

  /** Filtering a listing keeps exactly its test scripts. */
  lemma {:induction false} ScriptsMembers(entries: seq<DirEntry>, e: DirEntry)
    ensures e in Scripts(entries) <==> e in entries && IsTestScript(e)
  {
    if entries != [] {
      ScriptsMembers(entries[1..], e);
      assert entries == [entries[0]] + entries[1..];
    }
  }

  /** Filtering distributes over concatenation, so the order of the listing
      is kept: what comes first in the listing comes first in the result. */
  lemma {:induction false} ScriptsAppend(a: seq<DirEntry>, b: seq<DirEntry>)
    ensures Scripts(a + b) == Scripts(a) + Scripts(b)
  {
    if a == [] {
      assert a + b == b;
    } else {
      var head := if IsTestScript(a[0]) then [a[0]] else [];
      assert (a + b)[0] == a[0];
      assert (a + b)[1..] == a[1..] + b;
      assert Scripts(a + b) == head + Scripts(a[1..] + b);
      ScriptsAppend(a[1..], b);
      assert Scripts(a) == head + Scripts(a[1..]);
      assert head + (Scripts(a[1..]) + Scripts(b)) == (head + Scripts(a[1..])) + Scripts(b);
    }
  }

  /** loadTestCases: the listing of testDir (or the error reading it) is the
      input. Every entry that is not a directory and whose name ends in ".py"
      is joined onto the directory, in listing order. */
  method LoadTestCases(testDir: string, listing: Result<seq<DirEntry>, string>)
    returns (r: Result<seq<string>, string>)
    ensures r.Failure? <==> listing.Failure?
    ensures listing.Failure? ==> r.error == ReadDirFailure + listing.error
    ensures listing.Success? ==>
      var scripts := Scripts(listing.value);
      |r.value| == |scripts| &&
      forall i :: 0 <= i < |r.value| ==> r.value[i] == Join(testDir, scripts[i].name)
  {
    if listing.Failure? {
      return Failure(ReadDirFailure + listing.error);
    }
    var files := listing.value;
    var testCases: seq<string> := [];
    var i := 0;
    while i < |files|
      invariant 0 <= i <= |files|
      invariant |testCases| == |Scripts(files[..i])|
      invariant forall j :: 0 <= j < |testCases| ==> testCases[j] == Join(testDir, Scripts(files[..i])[j].name)
    {
      var file := files[i];
      ScriptsAppend(files[..i], [file]);
      assert files[..i + 1] == files[..i] + [file];
      assert Scripts([file]) == if IsTestScript(file) then [file] else [] by {
        assert [file][1..] == [];
      }
      if !file.isDir && HasSuffix(file.name, ScriptSuffix) {
        testCases := testCases + [Join(testDir, file.name)];
      }
      i := i + 1;
    }
    assert files[..i] == files;
    return Success(testCases);
  }

  /** Every loaded path is a ".py" path whose base name is the listed entry's
      name: the Filename a worker receives is the script's own name. */
  lemma LoadedPath(testDir: string, entries: seq<DirEntry>, i: nat)
    requires forall e :: e in entries ==> IsElement(e.name)
    requires i < |Scripts(entries)|
    ensures var s := Scripts(entries)[i];
      Base(Join(testDir, s.name)) == s.name && HasSuffix(Join(testDir, s.name), ScriptSuffix)
  {
    var s := Scripts(entries)[i];
    ScriptsMembers(entries, s);
    BaseOfJoin(testDir, s.name);
    JoinKeepsSuffix(testDir, s.name, ScriptSuffix);
  }

  // ---------------------------------------------------------------------
  // The round-robin choice
  // ---------------------------------------------------------------------

  /** The element a counter value selects, by modular indexing. */
  function Pick(list: seq<string>, counter: nat): (x: string)
    requires list != []
    ensures x in list
    ensures counter < |list| ==> x == list[counter]
  {
    list[counter % |list|]
  }

  /** The counter after a successful request: one step on, wrapping to 0 at
      the number of test cases. */
  function Advance(counter: nat, testCount: nat): (c: nat)
    requires testCount > 0
    ensures c < testCount
    ensures counter + 1 < testCount ==> c == counter + 1
    ensures counter + 1 == testCount ==> c == 0
  {
    (counter + 1) % testCount
  }

  /** The counter never leaves the test-case range (it is 0 while there are
      no test cases). */
  predicate CounterInRange(counter: nat, testCount: nat) {
    if testCount == 0 then counter == 0 else counter < testCount
  }

  /** The worker table and the join-order list name the same workers, and
      each table entry records its own ID. The list may repeat an ID. */
  predicate Registered(workers: map<string, WorkerInfo>, workerList: seq<string>) {
    (forall id :: id in workerList ==> id in workers) &&
    (forall id :: id in workers ==> id in workerList && workers[id] == WorkerInfo(id, ""))
  }

  lemma {:induction false} ElementCountBound(s: seq<string>)
    ensures |set x | x in s| <= |s|
  {
    if s != [] {
      var init := s[..|s| - 1];
      ElementCountBound(init);
      assert s == init + [s[|s| - 1]];
      assert (set x | x in s) == (set x | x in init) + {s[|s| - 1]};
    }
  }

  /** The join-order list is at least as long as the table, so a non-empty
      table makes the modular index into the list safe. */
  lemma ListCoversTable(workers: map<string, WorkerInfo>, workerList: seq<string>)
    requires Registered(workers, workerList)
    ensures |workerList| >= |workers|
    ensures |workers| > 0 ==> workerList != []
  {
    assert workers.Keys == set x | x in workerList;
    ElementCountBound(workerList);
  }

  /** The controller's state, as the gRPC server struct holds it. */
  class Server {
    var workers: map<string, WorkerInfo>
    var workerList: seq<string>
    var nextWorker: nat
    var testCases: seq<string>

    ghost predicate Valid()
      reads this
    {
      Registered(workers, workerList) && CounterInRange(nextWorker, |testCases|)
    }

    /** The server as the controller starts it: no workers, counter at 0, the
        loaded test cases. */
    constructor (testCases: seq<string>)
      ensures Valid()
      ensures workers == map[] && workerList == [] && nextWorker == 0
      ensures this.testCases == testCases
    {
      workers := map[];
      workerList := [];
      nextWorker := 0;
      this.testCases := testCases;
    }

    /** StartHandshake: record the worker under its ID (overwriting an
        existing entry) and append the ID to the join order, even when it is
        already there. The handshake always succeeds. */
    method StartHandshake(workerId: string) returns (response: string)
      requires Valid()
      modifies this
      ensures Valid()
      ensures workers == old(workers)[workerId := WorkerInfo(workerId, "")]
      ensures workerList == old(workerList) + [workerId]
      ensures nextWorker == old(nextWorker) && testCases == old(testCases)
      ensures response == HandshakeAck
    {
      workers := workers[workerId := WorkerInfo(workerId, "")];
      workerList := workerList + [workerId];
      response := HandshakeAck;
    }

    /** ReceiveTask: with files giving the contents of every readable path,
        choose the script selected by the counter and the worker it names in
        its log (the reply goes to the caller), and advance
        the counter modulo the number of test cases. Every error leaves the
        state as it was. */
    method ReceiveTask(files: map<string, seq<byte>>) returns (r: Result<Dispatch, ScheduleError>)
      requires Valid()
      modifies this
      ensures Valid()
      ensures workers == old(workers) && workerList == old(workerList) && testCases == old(testCases)
      ensures r.Failure? ==> nextWorker == old(nextWorker)
      ensures |workers| == 0 ==> r == Failure(NoWorkers)
      ensures |workers| > 0 && testCases == [] ==> r == Failure(NoTestCases)
      ensures |workers| > 0 && testCases != [] ==>
        workerList != [] &&
        var path := Pick(testCases, old(nextWorker));
        if path in files then
          r == Success(Dispatch(Pick(workerList, old(nextWorker)), path,
                                Task(Base(path), files[path], RunInstruction))) &&
          nextWorker == Advance(old(nextWorker), |testCases|)
        else
          r == Failure(ReadFailed(path))
    {
      if |workers| == 0 {
        return Failure(NoWorkers);
      }
      if |testCases| == 0 {
        return Failure(NoTestCases);
      }
      ListCoversTable(workers, workerList);
      var workerId := workerList[nextWorker % |workerList|];
      var worker := workers[workerId];
      var testFile := testCases[nextWorker % |testCases|];
      if testFile !in files {
        return Failure(ReadFailed(testFile));
      }
      var content := files[testFile];
      nextWorker := (nextWorker + 1) % |testCases|;
      return Success(Dispatch(worker.id, testFile, Task(Base(testFile), content, RunInstruction)));
    }
  }

  // ---------------------------------------------------------------------
  // Runs of successful requests
  // ---------------------------------------------------------------------

  /** The scripts dispatched by k consecutive successful requests when the
      counter starts at start. */
  function Dispatched(testCases: seq<string>, start: nat, k: nat): (s: seq<string>)
    requires testCases != []
    ensures |s| == k
    decreases k
  {
    if k == 0 then []
    else [Pick(testCases, start)] + Dispatched(testCases, Advance(start, |testCases|), k - 1)
  }

  /** The workers the controller names in its log for the same k requests,
      given the join-order list, when no worker joins between them. (The
      reply itself goes to whichever worker made the request.) */
  function Assigned(workerList: seq<string>, testCount: nat, start: nat, k: nat): (s: seq<string>)
    requires workerList != [] && testCount > 0
    ensures |s| == k
    decreases k
  {
    if k == 0 then []
    else [Pick(workerList, start)] + Assigned(workerList, testCount, Advance(start, testCount), k - 1)
  }

  lemma MulAtLeast(a: int, n: int)
    requires a >= 1 && n > 0
    ensures a * n >= n
  {
  }

  /** The remainder is determined by any quotient-remainder decomposition. */
  lemma ModUnique(y: int, n: int, q: int, r: int)
    requires n > 0 && 0 <= r < n && y == q * n + r
    ensures y % n == r
  {
    var q', r' := y / n, y % n;
    assert y == q' * n + r';
    if q > q' {
      assert (q - q') * n == r' - r by {
        assert (q - q') * n == q * n - q' * n;
      }
      MulAtLeast(q - q', n);
    } else if q < q' {
      assert (q' - q) * n == r - r' by {
        assert (q' - q) * n == q' * n - q * n;
      }
      MulAtLeast(q' - q, n);
    }
  }

  lemma ModAddPeriod(x: nat, n: nat)
    requires n > 0
    ensures (x + n) % n == x % n
  {
    var q, r := x / n, x % n;
    assert x == q * n + r;
    assert x + n == (q + 1) * n + r by {
      assert (q + 1) * n == q * n + n;
    }
    ModUnique(x + n, n, q + 1, r);
  }

  /** One step of the counter from x mod n lands on (x + 1) mod n. */
  lemma AdvanceMod(x: nat, n: nat)
    requires n > 0
    ensures Advance(x % n, n) == (x + 1) % n
  {
    var q, c := x / n, x % n;
    assert x == q * n + c;
    if c + 1 < n {
      ModUnique(x + 1, n, q, c + 1);
    } else {
      assert x + 1 == (q + 1) * n + 0 by {
        assert (q + 1) * n == q * n + n;
      }
      ModUnique(x + 1, n, q + 1, 0);
    }
  }

  /** The counter after i further steps from start is (start + i) mod n. */
  lemma AdvanceShift(start: nat, n: nat, i: nat)
    requires start < n && i > 0
    ensures (Advance(start, n) + (i - 1)) % n == (start + i) % n
  {
    if start + 1 == n {
      ModAddPeriod(i - 1, n);
      assert start + i == (i - 1) + n;
    }
  }

  /** The i-th request of a run dispatches the script at (start + i) mod n. */
  lemma {:induction false} DispatchedAt(testCases: seq<string>, start: nat, k: nat, i: nat)
    requires testCases != [] && start < |testCases| && i < k
    ensures Dispatched(testCases, start, k)[i] == testCases[(start + i) % |testCases|]
    decreases k
  {
    if i > 0 {
      var n := |testCases|;
      DispatchedAt(testCases, Advance(start, n), k - 1, i - 1);
      AdvanceShift(start, n, i);
    }
  }

  /** From any counter value, |testCases| successful requests dispatch the
      list rotated to start at the counter: every test case once. */
  lemma RoundIsRotation(testCases: seq<string>, start: nat)
    requires testCases != [] && start < |testCases|
    ensures Dispatched(testCases, start, |testCases|) == testCases[start..] + testCases[..start]
    ensures multiset(Dispatched(testCases, start, |testCases|)) == multiset(testCases)
  {
    var n := |testCases|;
    var d := Dispatched(testCases, start, n);
    var rot := testCases[start..] + testCases[..start];
    forall i | 0 <= i < n
      ensures d[i] == rot[i]
    {
      DispatchedAt(testCases, start, n, i);
      if start + i < n {
        ModUnique(start + i, n, 0, start + i);
        assert rot[i] == testCases[start + i];
      } else {
        ModUnique(start + i, n, 1, start + i - n);
        assert rot[i] == testCases[..start][i - (n - start)];
      }
    }
    assert d == rot;
    assert testCases == testCases[..start] + testCases[start..];
  }

  /** From the initial counter 0, the first |testCases| requests dispatch the
      test cases exactly in list order. */
  lemma FirstRound(testCases: seq<string>)
    requires testCases != []
    ensures Dispatched(testCases, 0, |testCases|) == testCases
  {
    RoundIsRotation(testCases, 0);
    assert testCases[0..] == testCases && testCases[..0] == [];
  }

  /** After a full round the cycle repeats: request i + n dispatches what
      request i did. */
  lemma CycleRepeats(testCases: seq<string>, start: nat, k: nat, i: nat)
    requires testCases != [] && start < |testCases| && i + |testCases| < k
    ensures Dispatched(testCases, start, k)[i + |testCases|] == Dispatched(testCases, start, k)[i]
  {
    var n := |testCases|;
    DispatchedAt(testCases, start, k, i);
    DispatchedAt(testCases, start, k, i + n);
    ModAddPeriod(start + i, n);
    assert start + (i + n) == (start + i) + n;
  }

  /** The i-th request of a run goes to the worker at ((start + i) mod n) mod
      |workerList|: the counter that picks the worker wraps at the number of
      test cases, not at the number of workers. */
  lemma {:induction false} AssignedAt(workerList: seq<string>, testCount: nat, start: nat, k: nat, i: nat)
    requires workerList != [] && testCount > 0 && start < testCount && i < k
    ensures Assigned(workerList, testCount, start, k)[i] == workerList[((start + i) % testCount) % |workerList|]
    decreases k
  {
    if i > 0 {
      var next := Advance(start, testCount);
      var rest := Assigned(workerList, testCount, next, k - 1);
      assert Assigned(workerList, testCount, start, k)[i] == rest[i - 1];
      AssignedAt(workerList, testCount, next, k - 1, i - 1);
      AdvanceShift(start, testCount, i);
      assert rest[i - 1] == workerList[((next + (i - 1)) % testCount) % |workerList|];
    } else {
      ModUnique(start, testCount, 0, start);
      assert Assigned(workerList, testCount, start, k)[0] == Pick(workerList, start);
    }
  }

  /** With more joined workers than test cases, only the first |testCases|
      entries of the join order are ever named in the controller's log as the
      worker a task is sent to, however many requests are made. */
  lemma LateWorkersStarve(workerList: seq<string>, testCount: nat, start: nat, k: nat)
    requires 0 < testCount <= |workerList| && start < testCount
    ensures forall i :: 0 <= i < k ==> Assigned(workerList, testCount, start, k)[i] in workerList[..testCount]
  {
    forall i | 0 <= i < k
      ensures Assigned(workerList, testCount, start, k)[i] in workerList[..testCount]
    {
      AssignedAt(workerList, testCount, start, k, i);
      var c := (start + i) % testCount;
      ModUnique(c, |workerList|, 0, c);
      assert workerList[..testCount][c] == workerList[c];
    }
  }

  /** k task requests in a row, answered while no worker joins and every
      test script can be read: each request succeeds, the scripts sent and
      the workers named in the log are the runs Dispatched and Assigned
      describe, and the counter ends k steps on. */
  method ServeRequests(s: Server, files: map<string, seq<byte>>, k: nat)
    returns (paths: seq<string>, logged: seq<string>)
    requires s.Valid() && |s.workers| > 0 && s.testCases != []
    requires forall p :: p in s.testCases ==> p in files
    modifies s
    ensures s.Valid()
    ensures s.workers == old(s.workers) && s.workerList == old(s.workerList) && s.testCases == old(s.testCases)
    ensures s.workerList != []
    ensures paths == Dispatched(s.testCases, old(s.nextWorker), k)
    ensures logged == Assigned(s.workerList, |s.testCases|, old(s.nextWorker), k)
    ensures s.nextWorker == (old(s.nextWorker) + k) % |s.testCases|
  {
    ListCoversTable(s.workers, s.workerList);
    ghost var start := s.nextWorker;
    var n := |s.testCases|;
    ModUnique(start, n, 0, start);
    paths, logged := [], [];
    var i := 0;
    while i < k
      invariant 0 <= i <= k
      invariant s.Valid()
      invariant s.workers == old(s.workers) && s.workerList == old(s.workerList) && s.testCases == old(s.testCases)
      invariant s.nextWorker == (start + i) % n
      invariant paths + Dispatched(s.testCases, s.nextWorker, k - i) == Dispatched(s.testCases, start, k)
      invariant logged + Assigned(s.workerList, n, s.nextWorker, k - i) == Assigned(s.workerList, n, start, k)
    {
      ghost var counter := s.nextWorker;
      var r := s.ReceiveTask(files);
      assert r.Success?;
      AdvanceMod(start + i, n);
      assert paths + [r.value.path] + Dispatched(s.testCases, s.nextWorker, k - i - 1)
          == paths + Dispatched(s.testCases, counter, k - i);
      assert logged + [r.value.worker] + Assigned(s.workerList, n, s.nextWorker, k - i - 1)
          == logged + Assigned(s.workerList, n, counter, k - i);
      paths := paths + [r.value.path];
      logged := logged + [r.value.worker];
      i := i + 1;
    }
  }
}
