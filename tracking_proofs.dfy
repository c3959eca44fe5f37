// What the controller's bookkeeping guarantees: capacity, the append-only
// count, 2-for-1 versus 0-for-1 replacement, release of each handle at most
// once, and cleared records never queried or refilled.

module TrackingProofs {
  import opened Tracking

  // ---------------------------------------------------------------------
  // Spawn loops

  lemma {:induction false} GrantedSplit(spawn: nat -> SpawnOutcome, lo: nat, mid: nat, hi: nat)
    requires lo <= mid <= hi
    ensures Granted(spawn, lo, hi) == Granted(spawn, lo, mid) + Granted(spawn, mid, hi)
    decreases mid - lo
  {
    if lo < mid {
      GrantedSplit(spawn, lo + 1, mid, hi);
    }
  }

  /** A window of attempts that all succeed yields one record per attempt. */
  lemma {:induction false} GrantedAll(spawn: nat -> SpawnOutcome, lo: nat, hi: nat)
    requires lo <= hi
    requires forall a :: lo <= a < hi ==> spawn(a).Spawned?
    ensures |Granted(spawn, lo, hi)| == hi - lo
    decreases hi - lo
  {
    if lo < hi {
      GrantedAll(spawn, lo + 1, hi);
    }
  }

  /** One spawn attempt: the tracked records stay, a success is appended, nothing is released. */
  lemma TrySpawnEffect(t: Table, o: SpawnOutcome)
    requires WellFormed(t) && t.count < MaxTracked
    ensures var r := TrySpawn(t, o);
            && r.attempts == t.attempts + 1
            && r.slots[..t.count] == t.slots[..t.count]
            && r.count == (if o.Spawned? then t.count + 1 else t.count)
            && (o.Spawned? ==> r.slots[t.count] == RecordOf(o))
            && r.procClosed == t.procClosed && r.threadClosed == t.threadClosed
  {
  }

  /**
   * A spawn loop makes at most n - k attempts and stops short only at capacity; the
   * tracked records are untouched, the new ones are the successful spawns in order,
   * and no handle is released.
   */
  lemma {:induction false} SpawnLoopEffect(t: Table, k: nat, n: nat, spawn: nat -> SpawnOutcome)
    requires WellFormed(t) && k <= n
    ensures var r := SpawnLoop(t, k, n, spawn);
            && r.attempts - t.attempts <= n - k
            && (r.attempts - t.attempts < n - k ==> r.count == MaxTracked)
            && r.slots[..t.count] == t.slots[..t.count]
            && r.slots[t.count..r.count] == Granted(spawn, t.attempts, r.attempts)
            && r.procClosed == t.procClosed && r.threadClosed == t.threadClosed
    decreases n - k
  {
    var r := SpawnLoop(t, k, n, spawn);
    if k < n && t.count < MaxTracked {
      var o := spawn(t.attempts);
      var t1 := TrySpawn(t, o);
      TrySpawnEffect(t, o);
      SpawnLoopEffect(t1, k + 1, n, spawn);
      assert r == SpawnLoop(t1, k + 1, n, spawn);
      GrantedSplit(spawn, t.attempts, t1.attempts, r.attempts);
      SlicesAppend(t.slots, t1.slots, r.slots, t.count, t1.count, r.count);
      if o.Spawned? {
        assert Granted(spawn, t.attempts, t1.attempts) == [RecordOf(o)];
      } else {
        assert Granted(spawn, t.attempts, t1.attempts) == [];
      }
    }
  }

  /** Prefix and tail bookkeeping for a table that grows from c0 to c1 and then to c2 records. */
  lemma SlicesAppend(s0: seq<Slot>, s1: seq<Slot>, s2: seq<Slot>, c0: nat, c1: nat, c2: nat)
    requires c0 <= c1 <= c2 <= |s0| == |s1| == |s2|
    requires s1[..c0] == s0[..c0] && s2[..c1] == s1[..c1]
    ensures s2[..c0] == s0[..c0]
    ensures s2[c0..c2] == s1[c0..c1] + s2[c1..c2]
  {
    assert s2[..c0] == s2[..c1][..c0];
    assert s1[c0..c1] == s2[..c1][c0..];
  }

  /** Far enough from capacity, a loop of n makes exactly n attempts. */
  lemma SpawnLoopExact(t: Table, n: nat, spawn: nat -> SpawnOutcome)
    requires WellFormed(t) && t.count + n <= MaxTracked
    ensures SpawnLoop(t, 0, n, spawn).attempts == t.attempts + n
    ensures SpawnLoop(t, 0, n, spawn).count == t.count + |Granted(spawn, t.attempts, t.attempts + n)|
  {
    var r := SpawnLoop(t, 0, n, spawn);
    SpawnLoopEffect(t, 0, n, spawn);
    assert |r.slots[t.count..r.count]| == r.count - t.count;
  }

  /** When every attempt succeeds, a loop of n makes min(n, room) attempts and fills them all. */
  lemma SpawnLoopAllSucceed(t: Table, n: nat, spawn: nat -> SpawnOutcome)
    requires WellFormed(t)
    requires forall a :: t.attempts <= a < t.attempts + n ==> spawn(a).Spawned?
    ensures var room := MaxTracked - t.count;
            var made := if n <= room then n else room;
            SpawnLoop(t, 0, n, spawn).attempts == t.attempts + made &&
            SpawnLoop(t, 0, n, spawn).count == t.count + made
  {
    var r := SpawnLoop(t, 0, n, spawn);
    SpawnLoopEffect(t, 0, n, spawn);
    GrantedAll(spawn, t.attempts, r.attempts);
    assert |r.slots[t.count..r.count]| == r.count - t.count;
  }

  /**
   * Bootstrap on main's empty table: exactly ten attempts, every success recorded in
   * order from index 0, ten records when all succeed, nothing released.
   */
  lemma BootstrapFromEmpty(spawn: nat -> SpawnOutcome)
    ensures Bootstrap(Empty(), spawn).attempts == InitialWorkers
    ensures Bootstrap(Empty(), spawn).slots[..Bootstrap(Empty(), spawn).count]
              == Granted(spawn, 0, InitialWorkers)
    ensures Bootstrap(Empty(), spawn).count <= InitialWorkers
    ensures (forall a :: 0 <= a < InitialWorkers ==> spawn(a).Spawned?) ==>
              Bootstrap(Empty(), spawn).count == InitialWorkers
    ensures Bootstrap(Empty(), spawn).procClosed == multiset{}
    ensures Bootstrap(Empty(), spawn).threadClosed == multiset{}
  {
    var t := Empty();
    var r := Bootstrap(t, spawn);
    SpawnLoopEffect(t, 0, InitialWorkers, spawn);
    SpawnLoopExact(t, InitialWorkers, spawn);
    assert r.slots[0..r.count] == r.slots[..r.count];
    if forall a :: 0 <= a < InitialWorkers ==> spawn(a).Spawned? {
      GrantedAll(spawn, 0, InitialWorkers);
    }
  }

  // ---------------------------------------------------------------------
  // One poll step

  /** An empty record, or a process still running, leaves the table as it was. */
  lemma VisitNoChange(t: Table, i: nat, query: nat -> QueryOutcome, spawn: nat -> SpawnOutcome)
    requires WellFormed(t) && i < t.count
    requires !t.slots[i].Occupied() || query(i) == Alive
    ensures Visit(t, i, query, spawn) == t
  {
  }

  /**
   * A failed exit-code query: the record is cleared, only its process handle is
   * released, no spawn is attempted and nothing else changes.
   */
  lemma VisitQueryFailure(t: Table, i: nat, query: nat -> QueryOutcome, spawn: nat -> SpawnOutcome)
    requires WellFormed(t) && i < t.count && t.slots[i].Occupied()
    requires query(i) == QueryFailed
    ensures Visit(t, i, query, spawn).slots == t.slots[i := t.slots[i].Cleared()]
    ensures Visit(t, i, query, spawn).count == t.count
    ensures Visit(t, i, query, spawn).attempts == t.attempts
    ensures Visit(t, i, query, spawn).procClosed == t.procClosed + multiset{i}
    ensures Visit(t, i, query, spawn).threadClosed == t.threadClosed
  {
  }

  /**
   * A confirmed death: the record is cleared, both its handles are released, up to two
   * replacements are attempted (fewer only at capacity, exactly two with room for two),
   * the replacements are appended, and no other tracked record changes.
   */
  lemma VisitDeath(t: Table, i: nat, query: nat -> QueryOutcome, spawn: nat -> SpawnOutcome)
    requires WellFormed(t) && i < t.count && t.slots[i].Occupied()
    requires Died(query(i))
    ensures var r := Visit(t, i, query, spawn);
            && r.slots[..t.count] == t.slots[..t.count][i := t.slots[i].Cleared()]
            && r.slots[t.count..r.count] == Granted(spawn, t.attempts, r.attempts)
            && r.procClosed == t.procClosed + multiset{i}
            && r.threadClosed == t.threadClosed + multiset{i}
            && r.attempts - t.attempts <= Replacements
            && (r.attempts - t.attempts < Replacements ==> r.count == MaxTracked)
            && (t.count + Replacements <= MaxTracked ==> r.attempts == t.attempts + Replacements)
  {
    var t1 := Reap(t, i);
    SpawnLoopEffect(t1, 0, Replacements, spawn);
    if t.count + Replacements <= MaxTracked {
      SpawnLoopExact(t1, Replacements, spawn);
    }
  }

  /**
   * A death with 511 records tracked: a successful first replacement fills the last
   * slot and the second is not attempted; a failed first one is followed by a second.
   */
  lemma DeathWith511Tracked(t: Table, i: nat, query: nat -> QueryOutcome, spawn: nat -> SpawnOutcome)
    requires WellFormed(t) && t.count == MaxTracked - 1 && i < t.count && t.slots[i].Occupied()
    requires Died(query(i))
    ensures spawn(t.attempts).Spawned? ==>
              Visit(t, i, query, spawn).attempts == t.attempts + 1 &&
              Visit(t, i, query, spawn).count == MaxTracked
    ensures spawn(t.attempts).SpawnFailed? ==>
              Visit(t, i, query, spawn).attempts == t.attempts + 2 &&
              (Visit(t, i, query, spawn).count == MaxTracked <==> spawn(t.attempts + 1).Spawned?)
  {
  }

  /**
   * The 2-for-1 policy: with room for two and both spawns succeeding, a death clears
   * one record and appends two, so the number of occupied records grows by one.
   */
  lemma TwoForOne(t: Table, i: nat, query: nat -> QueryOutcome, spawn: nat -> SpawnOutcome)
    requires WellFormed(t) && t.count + Replacements <= MaxTracked && i < t.count && t.slots[i].Occupied()
    requires Died(query(i)) && spawn(t.attempts).Spawned? && spawn(t.attempts + 1).Spawned?
    ensures Visit(t, i, query, spawn).count == t.count + 2
    ensures Visit(t, i, query, spawn).slots[t.count] == RecordOf(spawn(t.attempts))
    ensures Visit(t, i, query, spawn).slots[t.count + 1] == RecordOf(spawn(t.attempts + 1))
  {
    var r := Visit(t, i, query, spawn);
    VisitDeath(t, i, query, spawn);
    assert Granted(spawn, t.attempts, t.attempts + 2) == [RecordOf(spawn(t.attempts)), RecordOf(spawn(t.attempts + 1))];
    assert r.slots[t.count] == r.slots[t.count..r.count][0];
    assert r.slots[t.count + 1] == r.slots[t.count..r.count][1];
  }

  /** With the capacity used up, a death releases the record and spawns nothing. */
  lemma DeathAtCapacity(t: Table, i: nat, query: nat -> QueryOutcome, spawn: nat -> SpawnOutcome)
    requires WellFormed(t) && t.count == MaxTracked && i < t.count && t.slots[i].Occupied()
    requires Died(query(i))
    ensures Visit(t, i, query, spawn) == Reap(t, i)
    ensures Visit(t, i, query, spawn).attempts == t.attempts
  {
  }

  /** Everything a poll step does, record by record, for the sweep proofs. */
  lemma VisitEffect(t: Table, i: nat, query: nat -> QueryOutcome, spawn: nat -> SpawnOutcome)
    requires WellFormed(t) && i < t.count
    ensures var r := Visit(t, i, query, spawn);
            var g := Granted(spawn, t.attempts, r.attempts);
            && r.count == t.count + |g|
            && (forall j :: 0 <= j < t.count ==>
                  r.slots[j] == if j == i then AfterPoll(t.slots[i], query(i)) else t.slots[j])
            && (forall j :: t.count <= j < r.count ==> r.slots[j] == g[j - t.count])
            && r.threadClosed == t.threadClosed +
                 (if t.slots[i].Occupied() && Died(query(i)) then multiset{i} else multiset{})
  {
    var r := Visit(t, i, query, spawn);
    if !t.slots[i].Occupied() || query(i) == Alive {
      VisitNoChange(t, i, query, spawn);
    } else if query(i) == QueryFailed {
      VisitQueryFailure(t, i, query, spawn);
    } else {
      VisitDeath(t, i, query, spawn);
      var g := Granted(spawn, t.attempts, r.attempts);
      assert |r.slots[t.count..r.count]| == r.count - t.count;
      forall j | 0 <= j < t.count
        ensures r.slots[j] == if j == i then AfterPoll(t.slots[i], query(i)) else t.slots[j]
      {
        assert r.slots[j] == r.slots[..t.count][j];
      }
      forall j | t.count <= j < r.count
        ensures r.slots[j] == g[j - t.count]
      {
        assert r.slots[j] == r.slots[t.count..r.count][j - t.count];
      }
    }
  }

  // ---------------------------------------------------------------------
  // The table invariant

  /** A spawn attempt keeps the invariant: the new record is occupied and released nowhere. */
  lemma TrySpawnValid(t: Table, o: SpawnOutcome)
    requires Valid(t) && t.count < MaxTracked
    ensures Valid(TrySpawn(t, o))
  {
    var r := TrySpawn(t, o);
    assert t.count !in t.procClosed;
    forall i | 0 <= i < r.count
      ensures (r.slots[i].Occupied() <==> i !in r.procClosed)
      ensures (r.slots[i].Occupied() <==> r.slots[i].hThread != Null)
    {
      if i < t.count {
        assert r.slots[i] == t.slots[i];
      }
    }
  }

  /** Both spawn loops keep the invariant, so the capacity bound holds after every spawn. */
  lemma {:induction false} SpawnLoopValid(t: Table, k: nat, n: nat, spawn: nat -> SpawnOutcome)
    requires Valid(t)
    ensures Valid(SpawnLoop(t, k, n, spawn))
    decreases n - k
  {
    if k < n && t.count < MaxTracked {
      TrySpawnValid(t, spawn(t.attempts));
      SpawnLoopValid(TrySpawn(t, spawn(t.attempts)), k + 1, n, spawn);
    }
  }

  /** Clearing an occupied record and releasing its handles keeps the invariant. */
  lemma ClearValid(t: Table, i: nat)
    requires Valid(t) && i < t.count && t.slots[i].Occupied()
    ensures Valid(Abandon(t, i)) && Valid(Reap(t, i))
  {
    assert i !in t.procClosed && i !in t.threadClosed;
  }

  /** A poll step keeps the invariant. */
  lemma VisitValid(t: Table, i: nat, query: nat -> QueryOutcome, spawn: nat -> SpawnOutcome)
    requires Valid(t) && i < t.count
    ensures Valid(Visit(t, i, query, spawn))
  {
    if t.slots[i].Occupied() {
      ClearValid(t, i);
      if Died(query(i)) {
        SpawnLoopValid(Reap(t, i), 0, Replacements, spawn);
      }
    }
  }

  /** The poll loop keeps the invariant. */
  lemma {:induction false} SweepFromValid(t: Table, i: nat, query: nat -> QueryOutcome, spawn: nat -> SpawnOutcome)
    requires Valid(t)
    ensures Valid(SweepFrom(t, i, query, spawn))
    decreases MaxTracked - i
  {
    if i < t.count {
      VisitValid(t, i, query, spawn);
      SweepFromValid(Visit(t, i, query, spawn), i + 1, query, spawn);
    }
  }

  /** Any finite run of the monitor loop keeps the invariant. */
  lemma {:induction false} MonitorValid(t: Table, rounds: seq<nat -> QueryOutcome>, spawn: nat -> SpawnOutcome)
    requires Valid(t)
    ensures Valid(Monitor(t, rounds, spawn))
    decreases |rounds|
  {
    if rounds != [] {
      SweepFromValid(t, 0, rounds[0], spawn);
      MonitorValid(Sweep(t, rounds[0], spawn), rounds[1..], spawn);
    }
  }

  // ---------------------------------------------------------------------
  // A sweep

  /**
   * The exact effect of the poll loop from index i: earlier records untouched, every
   * record from i on polled once (the ones appended during the sweep included), and the
   * appended ones are the sweep's successful spawns in order.
   */
  lemma {:induction false} SweepFromSlots(t: Table, i: nat, query: nat -> QueryOutcome, spawn: nat -> SpawnOutcome)
    requires WellFormed(t) && i <= t.count
    ensures var r := SweepFrom(t, i, query, spawn);
            var g := Granted(spawn, t.attempts, r.attempts);
            && r.count == t.count + |g|
            && (forall j :: 0 <= j < i ==> r.slots[j] == t.slots[j])
            && (forall j :: i <= j < t.count ==> r.slots[j] == AfterPoll(t.slots[j], query(j)))
            && (forall j :: t.count <= j < r.count ==> r.slots[j] == AfterPoll(g[j - t.count], query(j)))
    decreases MaxTracked - i
  {
    var r := SweepFrom(t, i, query, spawn);
    if i < t.count {
      var t1 := Visit(t, i, query, spawn);
      VisitEffect(t, i, query, spawn);
      SweepFromSlots(t1, i + 1, query, spawn);
      GrantedSplit(spawn, t.attempts, t1.attempts, r.attempts);
      var g0 := Granted(spawn, t.attempts, t1.attempts);
      var g1 := Granted(spawn, t1.attempts, r.attempts);
      var g := Granted(spawn, t.attempts, r.attempts);
      assert g == g0 + g1;
      forall j | t.count <= j < r.count
        ensures r.slots[j] == AfterPoll(g[j - t.count], query(j))
      {
        if j < t1.count {
          assert g[j - t.count] == g0[j - t.count];
        } else {
          assert g[j - t.count] == g1[j - t1.count];
        }
      }
    } else {
      assert Granted(spawn, t.attempts, r.attempts) == [];
    }
  }

  /** 1 when the condition holds, 0 otherwise. */
  function Indicator(b: bool): (n: nat)
    ensures n <= 1 && (n == 1 <==> b)
  {
    if b then 1 else 0
  }

  /**
   * Which thread handles the poll loop from index i releases: one for every record it
   * confirms dead, the appended ones included, and none elsewhere.
   */
  lemma {:induction false} SweepFromThreads(t: Table, i: nat, query: nat -> QueryOutcome, spawn: nat -> SpawnOutcome)
    requires WellFormed(t) && i <= t.count
    ensures var r := SweepFrom(t, i, query, spawn);
            && (forall j :: i <= j < t.count ==>
                  r.threadClosed[j] == t.threadClosed[j] + Indicator(t.slots[j].Occupied() && Died(query(j))))
            && (forall j :: t.count <= j < r.count ==>
                  r.threadClosed[j] == t.threadClosed[j] + Indicator(Died(query(j))))
            && (forall j :: j < i || j >= r.count ==> r.threadClosed[j] == t.threadClosed[j])
    decreases MaxTracked - i
  {
    var r := SweepFrom(t, i, query, spawn);
    if i < t.count {
      var t1 := Visit(t, i, query, spawn);
      VisitEffect(t, i, query, spawn);
      SweepFromThreads(t1, i + 1, query, spawn);
      forall j | t.count <= j < t1.count
        ensures t1.slots[j].Occupied()
      {
        var g0 := Granted(spawn, t.attempts, t1.attempts);
        assert t1.slots[j] == g0[j - t.count];
      }
    }
  }

  /**
   * One pass of the monitor loop, exactly: a tracked record stays as it was if it was
   * empty or its process is still running and is cleared otherwise; the records
   * appended during the pass are its successful spawns, and are polled in the same pass.
   */
  lemma SweepEffect(t: Table, query: nat -> QueryOutcome, spawn: nat -> SpawnOutcome)
    requires WellFormed(t)
    ensures var r := Sweep(t, query, spawn);
            var g := Granted(spawn, t.attempts, r.attempts);
            && r.count == t.count + |g|
            && (forall j :: 0 <= j < t.count ==> r.slots[j] == AfterPoll(t.slots[j], query(j)))
            && (forall j :: t.count <= j < r.count ==> r.slots[j] == AfterPoll(g[j - t.count], query(j)))
  {
    SweepFromSlots(t, 0, query, spawn);
  }

  /**
   * The 2-for-1 policy over a pass: the poll loop from index i makes at most two spawn
   * attempts per confirmed death (one thread handle released each), and exactly two per
   * death while the table still has room for two more records at the end.
   */
  lemma {:induction false} SweepFromAttempts(t: Table, i: nat, query: nat -> QueryOutcome, spawn: nat -> SpawnOutcome)
    requires WellFormed(t) && i <= t.count
    ensures var r := SweepFrom(t, i, query, spawn);
            && |t.threadClosed| <= |r.threadClosed|
            && r.attempts - t.attempts <= Replacements * (|r.threadClosed| - |t.threadClosed|)
            && (r.count + Replacements <= MaxTracked ==>
                  r.attempts - t.attempts == Replacements * (|r.threadClosed| - |t.threadClosed|))
    decreases MaxTracked - i
  {
    if i < t.count {
      var t1 := Visit(t, i, query, spawn);
      SweepFromAttempts(t1, i + 1, query, spawn);
      if t.slots[i].Occupied() && Died(query(i)) {
        VisitDeath(t, i, query, spawn);
      } else if t.slots[i].Occupied() && query(i) == QueryFailed {
        VisitQueryFailure(t, i, query, spawn);
      }
    }
  }

  /** After a pass, every record still occupied was reported STILL_ACTIVE during it. */
  lemma SweepSurvivors(t: Table, query: nat -> QueryOutcome, spawn: nat -> SpawnOutcome)
    requires WellFormed(t)
    ensures forall j :: 0 <= j < Sweep(t, query, spawn).count && Sweep(t, query, spawn).slots[j].Occupied()
              ==> query(j) == Alive
  {
    var r := Sweep(t, query, spawn);
    SweepFromSlots(t, 0, query, spawn);
    forall j | 0 <= j < r.count && r.slots[j].Occupied()
      ensures query(j) == Alive
    {
    }
  }

  /** A cleared record is never refilled: a pass leaves it exactly as it was. */
  lemma SweepNeverRefills(t: Table, query: nat -> QueryOutcome, spawn: nat -> SpawnOutcome)
    requires WellFormed(t)
    ensures forall j :: 0 <= j < t.count && !t.slots[j].Occupied() ==> Sweep(t, query, spawn).slots[j] == t.slots[j]
  {
    SweepFromSlots(t, 0, query, spawn);
  }

  /**
   * A record cleared before index i (or visited already) is not queried again: the poll
   * loop's result does not depend on what the query oracle says about it.
   */
  lemma {:induction false} SweepFromIgnoresCleared(t: Table, i: nat, q1: nat -> QueryOutcome,
                                                   q2: nat -> QueryOutcome, spawn: nat -> SpawnOutcome)
    requires WellFormed(t) && i <= t.count
    requires forall j: nat :: q1(j) != q2(j) ==> j < i || (j < t.count && !t.slots[j].Occupied())
    ensures SweepFrom(t, i, q1, spawn) == SweepFrom(t, i, q2, spawn)
    decreases MaxTracked - i
  {
    if i < t.count {
      var t1 := Visit(t, i, q1, spawn);
      assert t1 == Visit(t, i, q2, spawn);
      VisitEffect(t, i, q1, spawn);
      forall j | 0 <= j < t.count && j != i
        ensures t1.slots[j] == t.slots[j]
      {
        assert t1.slots[j] == t1.slots[..t.count][j];
      }
      SweepFromIgnoresCleared(t1, i + 1, q1, q2, spawn);
    }
  }

  /** A cleared record is skipped by every later sweep: its query result never matters. */
  lemma ClearedNeverQueried(t: Table, q1: nat -> QueryOutcome, q2: nat -> QueryOutcome, spawn: nat -> SpawnOutcome)
    requires WellFormed(t)
    requires forall j: nat :: q1(j) != q2(j) ==> j < t.count && !t.slots[j].Occupied()
    ensures Sweep(t, q1, spawn) == Sweep(t, q2, spawn)
  {
    SweepFromIgnoresCleared(t, 0, q1, q2, spawn);
  }

  /**
   * Handle releases in a pass: a record's process handle is released exactly when the
   * pass clears it, its thread handle exactly when the pass confirms it dead; records
   * released before are released no further.
   */
  lemma SweepReleases(t: Table, query: nat -> QueryOutcome, spawn: nat -> SpawnOutcome)
    requires Valid(t)
    ensures var r := Sweep(t, query, spawn);
            && Valid(r)
            && (forall j :: 0 <= j < t.count && t.slots[j].Occupied() ==>
                  (j in r.procClosed <==> query(j) != Alive) && (j in r.threadClosed <==> Died(query(j))))
            && (forall j :: j in t.procClosed ==>
                  r.procClosed[j] == 1 && r.threadClosed[j] == t.threadClosed[j])
  {
    var r := Sweep(t, query, spawn);
    SweepFromValid(t, 0, query, spawn);
    SweepFromSlots(t, 0, query, spawn);
    SweepFromThreads(t, 0, query, spawn);
    forall j | 0 <= j < t.count && t.slots[j].Occupied()
      ensures (j in r.procClosed <==> query(j) != Alive) && (j in r.threadClosed <==> Died(query(j)))
    {
      assert j !in t.procClosed;
      assert j !in t.threadClosed;
    }
    forall j | j in t.procClosed
      ensures r.procClosed[j] == 1 && r.threadClosed[j] == t.threadClosed[j]
    {
      assert !t.slots[j].Occupied();
      assert r.slots[j] == t.slots[j];
    }
  }

  /**
   * A failed query leaks the thread handle for good: the record's process handle is
   * released, its thread handle is not, and no later pass of the monitor loop releases it.
   */
  lemma {:induction false} QueryFailureLeaksThread(t: Table, j: nat, rounds: seq<nat -> QueryOutcome>,
                                                   spawn: nat -> SpawnOutcome)
    requires Valid(t) && j in t.procClosed && j !in t.threadClosed
    ensures j in Monitor(t, rounds, spawn).procClosed
    ensures j !in Monitor(t, rounds, spawn).threadClosed
    decreases |rounds|
  {
    if rounds != [] {
      SweepReleases(t, rounds[0], spawn);
      QueryFailureLeaksThread(Sweep(t, rounds[0], spawn), j, rounds[1..], spawn);
    }
  }

  /**
   * Over any number of passes a released handle is never released again, and a record
   * cleared once stays cleared.
   */
  lemma {:induction false} MonitorReleasesOnce(t: Table, j: nat, rounds: seq<nat -> QueryOutcome>,
                                               spawn: nat -> SpawnOutcome)
    requires Valid(t) && j in t.procClosed
    ensures Monitor(t, rounds, spawn).procClosed[j] == 1
    ensures Monitor(t, rounds, spawn).threadClosed[j] == t.threadClosed[j]
    ensures Monitor(t, rounds, spawn).slots[j] == t.slots[j]
    decreases |rounds|
  {
    if rounds != [] {
      SweepReleases(t, rounds[0], spawn);
      SweepNeverRefills(t, rounds[0], spawn);
      MonitorReleasesOnce(Sweep(t, rounds[0], spawn), j, rounds[1..], spawn);
    }
  }
}
