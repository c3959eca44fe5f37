// The controller branch of hog.c's main, run in place: the `workers` array and
// `workerCount` are updated exactly as the bootstrap loop, the replacement loop
// and the poll loop update them. Each method is proved to produce the table
// that the matching function of module Tracking describes.

module Supervisor {
  import opened Tracking
  import TrackingProofs

  class Controller {
    /** `PROCESS_INFORMATION workers[maxTracked]`. */
    var workers: array<Slot>
    /** `workerCount`: records appended so far; never decreases. */
    var workerCount: nat
    /** CreateProcessA calls made so far; the n-th call's result is `spawn(n)`. */
    var spawnAttempts: nat
    /** One entry per CloseHandle on a record's process handle, by slot index. */
    ghost var procClosed: multiset<nat>
    /** One entry per CloseHandle on a record's thread handle, by slot index. */
    ghost var threadClosed: multiset<nat>

    ghost function State(): Table
      reads this, workers
    {
      Table(workers[..], workerCount, spawnAttempts, procClosed, threadClosed)
    }

    ghost predicate Valid()
      reads this, workers
    {
      Tracking.Valid(State())
    }

    /** The table main declares: no record tracked yet. */
    constructor ()
      ensures Valid() && fresh(workers)
      ensures State() == Empty()
    {
      var table := new Slot[MaxTracked](_ => Zeroed);
      assert table[..] == Empty().slots;
      workers := table;
      workerCount, spawnAttempts := 0, 0;
      procClosed, threadClosed := multiset{}, multiset{};
    }

    /** `if (spawn_worker(exePath, &workers[workerCount])) workerCount++;` */
    method TrySpawnWorker(spawn: nat -> SpawnOutcome)
      requires Valid() && workerCount < MaxTracked
      modifies this, workers
      ensures workers == old(workers) && Valid()
      ensures State() == TrySpawn(old(State()), spawn(old(spawnAttempts)))
    {
      ghost var before := State();
      var o := spawn(spawnAttempts);
      TrackingProofs.TrySpawnValid(before, o);
      spawnAttempts := spawnAttempts + 1;
      match o
      case Spawned(hProcess, hThread, pid) =>
        workers[workerCount] := Slot(hProcess, hThread, pid);
        assert workers[..] == before.slots[before.count := RecordOf(o)];
        workerCount := workerCount + 1;
      case SpawnFailed =>
        workers[workerCount] := Zeroed;
        assert workers[..] == before.slots[before.count := Zeroed];
    }

    /** `for (k = 0; k < n && workerCount < maxTracked; ++k) <TrySpawnWorker>`. */
    method SpawnBatch(n: nat, spawn: nat -> SpawnOutcome)
      requires Valid()
      modifies this, workers
      ensures workers == old(workers) && Valid()
      ensures State() == SpawnLoop(old(State()), 0, n, spawn)
    {
      var k := 0;
      while k < n && workerCount < MaxTracked
        invariant workers == old(workers) && Valid()
        invariant SpawnLoop(State(), k, n, spawn) == SpawnLoop(old(State()), 0, n, spawn)
        decreases n - k
      {
        TrySpawnWorker(spawn);
        k := k + 1;
      }
    }

    /** The bootstrap loop: up to `initialWorkers` spawns while there is room. */
    method Bootstrap(spawn: nat -> SpawnOutcome)
      requires Valid()
      modifies this, workers
      ensures workers == old(workers) && Valid()
      ensures State() == Tracking.Bootstrap(old(State()), spawn)
    {
      SpawnBatch(InitialWorkers, spawn);
    }

    /** The body of the poll loop for record i. */
    method Poll(i: nat, query: nat -> QueryOutcome, spawn: nat -> SpawnOutcome)
      requires Valid() && i < workerCount
      modifies this, workers
      ensures workers == old(workers) && Valid()
      ensures State() == Visit(old(State()), i, query, spawn)
    {
      ghost var before := State();
      TrackingProofs.VisitValid(before, i, query, spawn);
      var hProc := workers[i].hProcess;
      if hProc == Null {
        return;
      }
      TrackingProofs.ClearValid(before, i);
      match query(i)
      case QueryFailed =>
        // Can't query: release the process handle only and clear the record.
        procClosed := procClosed + multiset{i};
        workers[i] := workers[i].Cleared();
        assert workers[..] == before.slots[i := before.slots[i].Cleared()];
        assert State() == Abandon(before, i);
      case ExitCode(code) =>
        if code != StillActive {
          // Confirmed death: release both handles, clear the record, spawn two more.
          procClosed := procClosed + multiset{i};
          threadClosed := threadClosed + multiset{i};
          workers[i] := workers[i].Cleared();
          assert workers[..] == before.slots[i := before.slots[i].Cleared()];
          assert State() == Reap(before, i);
          SpawnBatch(Replacements, spawn);
        }
    }

    /**
     * One pass of the monitor loop over indices 0 .. workerCount - 1, re-reading
     * workerCount on every iteration; `query(i)` is GetExitCodeProcess's answer for record i.
     */
    method Sweep(query: nat -> QueryOutcome, spawn: nat -> SpawnOutcome)
      requires Valid()
      modifies this, workers
      ensures workers == old(workers) && Valid()
      ensures State() == Tracking.Sweep(old(State()), query, spawn)
    {
      var i: nat := 0;
      while i < workerCount
        invariant workers == old(workers) && Valid()
        invariant SweepFrom(State(), i, query, spawn) == SweepFrom(old(State()), 0, query, spawn)
        decreases MaxTracked - i
      {
        Poll(i, query, spawn);
        i := i + 1;
      }
    }

    /** The monitor loop for as many passes as `rounds` holds query oracles. */
    method Monitor(rounds: seq<nat -> QueryOutcome>, spawn: nat -> SpawnOutcome)
      requires Valid()
      modifies this, workers
      ensures workers == old(workers) && Valid()
      ensures State() == Tracking.Monitor(old(State()), rounds, spawn)
    {
      var n := 0;
      while n < |rounds|
        invariant n <= |rounds|
        invariant workers == old(workers) && Valid()
        invariant Tracking.Monitor(State(), rounds[n..], spawn) == Tracking.Monitor(old(State()), rounds, spawn)
      {
        assert rounds[n..][1..] == rounds[n + 1..];
        Sweep(rounds[n], spawn);
        n := n + 1;
      }
    }
  }

  /**
   * main's controller branch for a finite run: declare the table, bootstrap, then
   * `|rounds|` passes of the monitor loop.
   */
  method RunController(rounds: seq<nat -> QueryOutcome>, spawn: nat -> SpawnOutcome) returns (c: Controller)
    ensures fresh(c) && c.Valid()
    ensures c.State() == Tracking.Monitor(Tracking.Bootstrap(Empty(), spawn), rounds, spawn)
  {
    c := new Controller();
    c.Bootstrap(spawn);
    c.Monitor(rounds, spawn);
  }
}
