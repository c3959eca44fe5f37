// The controller's record table in hog.c's main, as a value: the fixed array
// `workers[maxTracked]` of PROCESS_INFORMATION records, the append-only
// `workerCount`, and the handles released so far. The operations below follow
// the bootstrap loop, the replacement loop and one poll sweep step by step;
// controller.dfy performs the same steps in place and is proved equal to them.

module Tracking {

  /** `initialWorkers` in main. */
  const InitialWorkers: nat := 10
  /** `maxTracked` in main: the length of `workers`. */
  const MaxTracked: nat := 512
  /** Replacement spawns attempted per confirmed death. */
  const Replacements: nat := 2
  /** STILL_ACTIVE, the exit code GetExitCodeProcess reports for a running process. */
  const StillActive: nat := 259

  type DWord = x: nat | x < 0x1_0000_0000

  /** A HANDLE value; 0 is NULL. */
  type Handle = nat
  const Null: Handle := 0
  type OpenHandle = h: nat | h != Null witness 1

  /** One PROCESS_INFORMATION record (the thread id is never read and is left out). */
  datatype Slot = Slot(hProcess: Handle, hThread: Handle, pid: DWord)
  {
    /** The poll loop skips a record whose process handle is NULL. */
    predicate Occupied()
    {
      hProcess != Null
    }

    /** The record with both handle fields set to NULL. */
    function Cleared(): (s: Slot)
      ensures !s.Occupied() && s.hThread == Null && s.pid == pid
    {
      this.(hProcess := Null, hThread := Null)
    }
  }

  /** What spawn_worker's ZeroMemory leaves in the record when CreateProcessA fails. */
  const Zeroed: Slot := Slot(Null, Null, 0)

  /** The result of one CreateProcessA call. */
  datatype SpawnOutcome =
    | Spawned(hProcess: OpenHandle, hThread: OpenHandle, pid: DWord)
    | SpawnFailed

  /** The result of one GetExitCodeProcess call. */
  datatype QueryOutcome = QueryFailed | ExitCode(code: DWord)

  const Alive: QueryOutcome := ExitCode(StillActive)

  /** The query confirmed the process has exited: it succeeded with a code other than STILL_ACTIVE. */
  predicate Died(q: QueryOutcome)
  {
    q.ExitCode? && q.code != StillActive
  }

  /**
   * The controller's bookkeeping. `attempts` counts the CreateProcessA calls made so far
   * (the n-th call's result is `spawn(n)`); `procClosed` and `threadClosed` hold, per slot
   * index, one entry for every CloseHandle on that record's process or thread handle.
   */
  datatype Table = Table(slots: seq<Slot>, count: nat, attempts: nat,
                         procClosed: multiset<nat>, threadClosed: multiset<nat>)

  /** The array has its fixed length and the count stays within it. */
  predicate WellFormed(t: Table)
  {
    |t.slots| == MaxTracked && t.count <= MaxTracked
  }

  /**
   * The table's invariant: capacity, tracked records occupied exactly until their
   * process handle is released, both handles NULLed together, and every handle
   * released at most once.
   */
  ghost predicate Valid(t: Table)
  {
    && WellFormed(t)
    && (forall i :: 0 <= i < t.count ==> (t.slots[i].Occupied() <==> i !in t.procClosed))
    && (forall i :: 0 <= i < t.count ==> (t.slots[i].Occupied() <==> t.slots[i].hThread != Null))
    && (forall i :: i in t.procClosed ==> i < t.count && t.procClosed[i] == 1)
    && (forall i :: i in t.threadClosed ==> i in t.procClosed && t.threadClosed[i] == 1)
  }

  /** The table main starts with: nothing tracked, nothing spawned, nothing released. */
  function Empty(): (t: Table)
    ensures Valid(t)
    ensures t.count == 0 && t.attempts == 0 && t.procClosed == multiset{} && t.threadClosed == multiset{}
  {
    Table(seq(MaxTracked, _ => Zeroed), 0, 0, multiset{}, multiset{})
  }

  /** The record a successful spawn fills in. */
  function RecordOf(o: SpawnOutcome): (s: Slot)
    requires o.Spawned?
    ensures s.Occupied() && s.hThread != Null
  {
    Slot(o.hProcess, o.hThread, o.pid)
  }

  // ---------------------------------------------------------------------
  // Spawning

  /** `if (spawn_worker(exePath, &workers[workerCount])) workerCount++;` */
  function TrySpawn(t: Table, o: SpawnOutcome): (r: Table)
    requires WellFormed(t) && t.count < MaxTracked
    ensures WellFormed(r)
  {
    match o
    case Spawned(_, _, _) =>
      t.(slots := t.slots[t.count := RecordOf(o)], count := t.count + 1, attempts := t.attempts + 1)
    case SpawnFailed =>
      t.(slots := t.slots[t.count := Zeroed], attempts := t.attempts + 1)
  }

  /** The records that the spawn attempts numbered lo..hi-1 produce, in order. */
  function Granted(spawn: nat -> SpawnOutcome, lo: nat, hi: nat): (g: seq<Slot>)
    requires lo <= hi
    ensures |g| <= hi - lo
    ensures forall j :: 0 <= j < |g| ==> g[j].Occupied()
    decreases hi - lo
  {
    if lo == hi then []
    else (if spawn(lo).Spawned? then [RecordOf(spawn(lo))] else []) + Granted(spawn, lo + 1, hi)
  }

  /** `for (k; k < n && workerCount < maxTracked; ++k) <TrySpawn>`, as in both spawn loops. */
  function SpawnLoop(t: Table, k: nat, n: nat, spawn: nat -> SpawnOutcome): (r: Table)
    requires WellFormed(t)
    ensures WellFormed(r)
    ensures t.count <= r.count && t.attempts <= r.attempts
    ensures k <= n ==> r.attempts - t.attempts <= n - k
    decreases n - k
  {
    if k < n && t.count < MaxTracked then SpawnLoop(TrySpawn(t, spawn(t.attempts)), k + 1, n, spawn)
    else t
  }

  /** The bootstrap loop: up to `initialWorkers` spawns. */
  function Bootstrap(t: Table, spawn: nat -> SpawnOutcome): (r: Table)
    requires WellFormed(t)
    ensures WellFormed(r) && t.count <= r.count && r.attempts - t.attempts <= InitialWorkers
  {
    SpawnLoop(t, 0, InitialWorkers, spawn)
  }

  /** The replacement loop after a confirmed death: up to two spawns. */
  function Replace(t: Table, spawn: nat -> SpawnOutcome): (r: Table)
    requires WellFormed(t)
    ensures WellFormed(r) && t.count <= r.count && r.attempts - t.attempts <= Replacements
  {
    SpawnLoop(t, 0, Replacements, spawn)
  }

  // ---------------------------------------------------------------------
  // Polling

  /** Query failure: CloseHandle(hProcess) only, then both handle fields NULLed. */
  function Abandon(t: Table, i: nat): (r: Table)
    requires WellFormed(t) && i < t.count
    ensures WellFormed(r)
  {
    t.(slots := t.slots[i := t.slots[i].Cleared()], procClosed := t.procClosed + multiset{i})
  }

  /** Confirmed death: CloseHandle on both handles, then both handle fields NULLed. */
  function Reap(t: Table, i: nat): (r: Table)
    requires WellFormed(t) && i < t.count
    ensures WellFormed(r)
  {
    t.(slots := t.slots[i := t.slots[i].Cleared()],
       procClosed := t.procClosed + multiset{i},
       threadClosed := t.threadClosed + multiset{i})
  }

  /** One iteration of the poll loop, for index i; `query(i)` is what GetExitCodeProcess says. */
  function Visit(t: Table, i: nat, query: nat -> QueryOutcome, spawn: nat -> SpawnOutcome): (r: Table)
    requires WellFormed(t) && i < t.count
    ensures WellFormed(r) && t.count <= r.count
  {
    if !t.slots[i].Occupied() then t
    else
      match query(i)
      case QueryFailed => Abandon(t, i)
      case ExitCode(code) => if code != StillActive then Replace(Reap(t, i), spawn) else t
  }

  /** The poll loop from index i on; the bound `workerCount` is re-read every iteration. */
  function SweepFrom(t: Table, i: nat, query: nat -> QueryOutcome, spawn: nat -> SpawnOutcome): (r: Table)
    requires WellFormed(t)
    ensures WellFormed(r) && t.count <= r.count && t.attempts <= r.attempts
    decreases MaxTracked - i
  {
    if i < t.count then SweepFrom(Visit(t, i, query, spawn), i + 1, query, spawn) else t
  }

  /** One pass of the monitor loop over the whole table. */
  function Sweep(t: Table, query: nat -> QueryOutcome, spawn: nat -> SpawnOutcome): (r: Table)
    requires WellFormed(t)
    ensures WellFormed(r) && t.count <= r.count && t.attempts <= r.attempts
  {
    SweepFrom(t, 0, query, spawn)
  }

  /** A record after it has been polled: cleared unless it was empty or still running. */
  function AfterPoll(s: Slot, q: QueryOutcome): (after: Slot)
    ensures after.pid == s.pid
    ensures after.Occupied() <==> s.Occupied() && q == Alive
  {
    if s.Occupied() && q != Alive then s.Cleared() else s
  }

  /** The monitor loop for a finite number of passes, one query oracle per pass. */
  function Monitor(t: Table, rounds: seq<nat -> QueryOutcome>, spawn: nat -> SpawnOutcome): (r: Table)
    requires WellFormed(t)
    ensures WellFormed(r) && t.count <= r.count
    decreases |rounds|
  {
    if rounds == [] then t else Monitor(Sweep(t, rounds[0], spawn), rounds[1..], spawn)
  }
}
