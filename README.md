# hog.c — a verified model of the controller's record table and the worker's allocation loop

hog.c runs in one of two roles. A **worker** commits 64 MiB chunks of memory until the
first refusal. It writes one byte on every page of each chunk it gets and then holds the
memory forever. A **controller** launches ten workers. It then polls them. Each confirmed
death is replaced by two new workers, as long as the fixed table of 512 process records
has room.

This project models the bookkeeping of both roles in Dafny. Every operating-system call
becomes an input outcome:

- CreateProcessA succeeds or fails;
- GetExitCodeProcess fails, reports STILL_ACTIVE, or reports another exit code;
- VirtualAlloc grants or refuses a chunk.

What remains is two small sequential state machines, plus the string that spawn_worker
formats.

Files:

- `worker.dfy`, module `Worker`: run_worker. `TouchPages` is the page-touch loop, done in
  place on an `array<Byte>`. `RunWorker` is the allocation loop. It runs over a finite
  prefix of the VirtualAlloc outcomes and returns `total`, `pattern`, the number of
  attempts, the `failed` flag and the chunks it holds.
- `spawn.dfy`, module `Spawn`: the command line that spawn_worker builds with snprintf,
  and how the child reads the path and the role token back from it.
- `tracking.dfy`, module `Tracking`: the controller's table as a value, `Table`. It holds
  the 512 records, `workerCount`, the number of CreateProcessA calls and the CloseHandle
  calls made per record. It also gives the bootstrap loop, the replacement loop, one poll
  step (`Visit`), one pass of the monitor loop (`Sweep`) and a finite run (`Monitor`) as
  functions that follow the C loops step by step.
- `tracking_proofs.dfy`, module `TrackingProofs`: the properties of those functions.
- `controller.dfy`, module `Supervisor`: class `Controller`. It has the `workers` array and
  the `workerCount` field, and its methods update them in place as main does. Each method
  is proved to yield exactly the table that the matching `Tracking` function describes.

Outcome oracles:

- `spawn: nat -> SpawnOutcome` gives the result of the n-th CreateProcessA call of the
  controller's life.
- `query: nat -> QueryOutcome` gives, for one pass, GetExitCodeProcess's answer for
  record i. A pass visits each index at most once.
- A successful spawn always yields non-NULL handles (`OpenHandle`).

The capacity bound is enforced in two ways. Every write into the table goes through a
sequence update or an array store whose index Dafny proves is below 512, so no write can
reach `workers[512]`. `WellFormed`, ensured by every `Tracking` function that returns a table, keeps
`workerCount <= 512`. `Valid` adds that a record is occupied exactly while its process
handle has not been released, that both handles are NULLed together, and that no handle is
released twice. Every operation keeps `Valid`.

## Model

| member | source | states |
|---|---|---|
| `Worker.PatternByte` | hog.c:36 | The byte stored is the pattern's low 8 bits: it differs from the pattern by a multiple of 256, and equals the pattern below 256. |
| `Worker.RunWorker` | hog.c:13-47 | With n leading grants: `pattern == n` and `total == n * 64 MiB`. `failed` holds exactly when a refusal was met. Attempts are n + 1 after a refusal, else n. The worker holds n distinct chunk arrays; chunk j is zero except that its page offsets are `j & 0xFF`. |
| `Worker.TouchPages` | hog.c:34-37 | Stores the pattern byte at exactly the offsets `PageOffsets(chunk length, pageSize)`, in that order, and changes nothing else. |
| `Worker.PageOffsetsFrom` | hog.c:35 | Every offset the loop visits from `off` lies in `[off, n)`. |
| `Worker.PageWrites` | hog.c:35-36 | A buffer of n bytes gets `ceil(n / pageSize)` writes. The j-th write is at `j * pageSize < n`. Offset k is written iff `0 <= k < n` and `k % pageSize == 0`. |
| `Worker.TouchedChunk` | hog.c:34-37 | After the touch, byte k holds the pattern byte iff `k % pageSize == 0`. Every other byte keeps its old value. |
| `Worker.ChunkWritesWith4KiBPages` | hog.c:13 | A 64 MiB chunk with 4096-byte pages takes 16384 writes. |
| `Worker.FrozenAfterRefusal` | hog.c:24-31 | After the first refusal, later outcomes change neither the chunk count nor the total. |
| `Worker.HoggedMonotone` | hog.c:39 | The total for any prefix of the outcomes is at most the total for the whole sequence. |
| `Worker.HoggedGrows` | hog.c:39-45 | Before any refusal, a grant adds exactly one chunk to the total and a refusal adds nothing. |
| `Worker.ThreeChunksThenRefusal` | hog.c:20-47 | Grant, grant, grant, refusal, then anything: 3 chunks, 192 MiB. |
| `Spawn.CommandLine` | hog.c:55-56 | snprintf into 512 bytes: the result is a prefix of `"<path>" worker` of length min(full length, 511). |
| `Spawn.NoTruncation` | hog.c:55-56 | A path shorter than MAX_PATH, which is all GetModuleFileNameA can return, is never truncated. |
| `Spawn.TruncationThreshold` | hog.c:55-56 | The expansion is the path plus 9 characters. snprintf leaves it whole exactly when the path has fewer than 503 characters. |
| `Spawn.LongPathTruncated` | hog.c:55-56 | From 510 characters on, the cut reaches into the path itself. The line is `"` plus the path's first 510 characters, and the child can no longer recover the path and `worker`. |
| `Spawn.CommandLineRoundTrip` | hog.c:56 | For a path of fewer than MAX_PATH characters with no quote in it, splitting the command line gives back the path and the token `worker`. |
| `Tracking.Empty` | hog.c:100-101 | The table main declares satisfies the invariant, tracks nothing, has made no spawn attempt and has released no handle. |
| `Tracking.TrySpawn` | hog.c:106-108 | One spawn into index workerCount keeps the table within capacity. |
| `Tracking.SpawnLoop` | hog.c:105-109 | The bounded spawn loop keeps the table within capacity. The count and the number of attempts never decrease. Iteration k of n makes at most n − k more attempts. |
| `Tracking.Bootstrap` | hog.c:105-109 | The bootstrap loop keeps the table within capacity, never lowers workerCount and makes at most 10 attempts. |
| `Tracking.Replace` | hog.c:140-143 | The replacement loop keeps the table within capacity, never lowers workerCount and makes at most 2 attempts. |
| `Tracking.Abandon` | hog.c:121-126 | Clearing a record after a failed query keeps the table within capacity. |
| `Tracking.Reap` | hog.c:134-137 | Clearing a record after a confirmed death keeps the table within capacity. |
| `Tracking.Visit` | hog.c:117-145 | One poll step keeps the table within capacity and never lowers workerCount. |
| `Tracking.SweepFrom` | hog.c:116-146 | The poll loop, with its bound re-read on every iteration, keeps the table within capacity. workerCount and the attempts never decrease. |
| `Tracking.Sweep` | hog.c:116-146 | One pass of the monitor loop keeps the table within capacity. workerCount and the attempts never decrease. |
| `Tracking.Monitor` | hog.c:113-147 | Any finite number of monitor passes keeps the table within capacity and never lowers workerCount. |
| `TrackingProofs.TrySpawnEffect` | hog.c:106-108 | One attempt leaves every tracked record and every released handle alone. A success appends its record at workerCount and adds 1 to the count. A failure leaves the count unchanged. |
| `TrackingProofs.SpawnLoopEffect` | hog.c:140-143 | A loop of n makes at most n attempts and stops short only at 512. Tracked records stay the same. The new records are the successful spawns, in attempt order. Nothing is released. |
| `TrackingProofs.SpawnLoopExact` | hog.c:105 | With room for n more records, a loop of n makes exactly n attempts. The count grows by the number of successes. |
| `TrackingProofs.SpawnLoopAllSucceed` | hog.c:140-143 | When every attempt succeeds, a loop of n makes min(n, 512 − count) attempts and appends that many records. |
| `TrackingProofs.BootstrapFromEmpty` | hog.c:97-109 | Bootstrap on the empty table makes exactly 10 attempts. Records 0 .. count−1 are the successes in order. The count is at most 10, and exactly 10 when all succeed. Nothing is released. |
| `TrackingProofs.VisitNoChange` | hog.c:118 | An empty record, or a process still running, leaves the table unchanged. |
| `TrackingProofs.VisitQueryFailure` | hog.c:121-127 | A failed query clears exactly record i. Only its process handle is released. No spawn is attempted, the count stays, and no other record changes. |
| `TrackingProofs.VisitDeath` | hog.c:129-144 | A death clears record i and releases both of its handles. No other tracked record changes. At most 2 replacements are attempted, fewer only at 512, and exactly 2 with room for 2. They are appended at workerCount. |
| `TrackingProofs.DeathWith511Tracked` | hog.c:140-143 | With 511 tracked: a successful first replacement fills slot 512 and no second attempt is made. A failed first replacement is followed by a second attempt. |
| `TrackingProofs.TwoForOne` | hog.c:139-144 | With room for two and both spawns succeeding, a death appends the two new records at workerCount and workerCount+1. |
| `TrackingProofs.DeathAtCapacity` | hog.c:140 | With 512 tracked, a death releases the record and attempts no spawn. |
| `TrackingProofs.VisitEffect` | hog.c:117-145 | A poll step changes record i (cleared or kept) and no other tracked record. It appends the successful replacements and releases a thread handle only on a confirmed death. |
| `TrackingProofs.TrySpawnValid` | hog.c:106-108 | A spawn attempt keeps the table invariant. |
| `TrackingProofs.SpawnLoopValid` | hog.c:140-143 | Both spawn loops keep the table invariant. |
| `TrackingProofs.ClearValid` | hog.c:121-137 | Clearing an occupied record on either path keeps the invariant, so neither handle is released twice. |
| `TrackingProofs.VisitValid` | hog.c:117-145 | A poll step keeps the invariant. |
| `TrackingProofs.SweepFromValid` | hog.c:116-146 | The poll loop keeps the invariant. |
| `TrackingProofs.MonitorValid` | hog.c:113-147 | Any finite run of the monitor loop keeps the invariant. |
| `TrackingProofs.SweepFromSlots` | hog.c:116-146 | The poll loop from index i leaves records before i alone. It polls every record from i once, including records appended during the loop. The appended records are the loop's successful spawns, in order. |
| `TrackingProofs.SweepFromThreads` | hog.c:129-137 | The poll loop from index i releases one thread handle for each record it confirms dead, including appended ones, and none elsewhere. |
| `TrackingProofs.SweepEffect` | hog.c:116-146 | A full pass gives each record its polled state: cleared unless it was empty or reported STILL_ACTIVE. The count grows by the pass's successful spawns, and those records are polled in the same pass. New records only ever go to index workerCount. |
| `TrackingProofs.SweepFromAttempts` | hog.c:129-144 | The 2-for-1 policy over a pass: the poll loop from i makes at most 2 spawn attempts per confirmed death (counted by thread-handle releases). With room for 2 more records at the end, it makes exactly 2 per death. |
| `TrackingProofs.SweepSurvivors` | hog.c:116-129 | After a pass, every occupied record, appended ones included, was reported STILL_ACTIVE in that pass. |
| `TrackingProofs.SweepNeverRefills` | hog.c:118 | A pass never changes a record that was already cleared. |
| `TrackingProofs.SweepFromIgnoresCleared` | hog.c:116-118 | The result of the poll loop from i does not depend on the query answers for records before i or for cleared records. |
| `TrackingProofs.ClearedNeverQueried` | hog.c:117-118 | A pass gives the same result whatever the query says about records that are already cleared. A cleared handle is never queried again. |
| `TrackingProofs.SweepReleases` | hog.c:121-137 | In a pass, an occupied record's process handle is released iff it was not reported STILL_ACTIVE. Its thread handle is released iff it was confirmed dead. A handle released earlier is not released again. |
| `TrackingProofs.QueryFailureLeaksThread` | hog.c:121-126 | A record whose process handle was released without its thread handle never has the thread handle released, over any number of later passes. |
| `TrackingProofs.MonitorReleasesOnce` | hog.c:113-147 | Over any number of passes, a released record stays cleared. Its process handle is released exactly once, and its thread-handle count never changes again. |
| `Supervisor.Controller.constructor` | hog.c:100-101 | The new table is `Tracking.Empty()` and satisfies the invariant. |
| `Supervisor.Controller.TrySpawnWorker` | hog.c:106-108 | The array and count after one spawn attempt are `Tracking.TrySpawn` of the old table. |
| `Supervisor.Controller.SpawnBatch` | hog.c:140-143 | The array and count after the bounded spawn loop are `Tracking.SpawnLoop` of the old table. |
| `Supervisor.Controller.Bootstrap` | hog.c:105-109 | The state after the bootstrap loop is `Tracking.Bootstrap` of the old table. |
| `Supervisor.Controller.Poll` | hog.c:117-145 | The state after the loop body for index i is `Tracking.Visit` of the old table. |
| `Supervisor.Controller.Sweep` | hog.c:116-146 | The state after the in-place poll loop is `Tracking.Sweep` of the old table. |
| `Supervisor.Controller.Monitor` | hog.c:113-147 | The state after n passes is `Tracking.Monitor` of the old table. |
| `Supervisor.RunController` | hog.c:97-147 | The controller branch, bootstrap and then a finite number of passes, ends in `Monitor(Bootstrap(Empty()))` and satisfies the invariant. |

## Behaviour of hog.c worth knowing

- **Spawn attempts near capacity.** With 511 records tracked, a failed first replacement
  is followed by a second attempt (hog.c:140), because a failed spawn does not raise
  `workerCount`. A death makes exactly min(2, 512 − workerCount) attempts, except when
  511 records are tracked and the first replacement fails: then it makes two
  (`TrackingProofs.VisitDeath`, `TrackingProofs.DeathAtCapacity`,
  `TrackingProofs.DeathWith511Tracked`).
- **Query failure.** Only the process handle is closed. The thread handle is overwritten
  with NULL without being closed, so it is never released (`QueryFailureLeaksThread`). No
  handle is closed when the controller stops, because it never stops on its own.
- **Exit code 259.** A process that exits with code 259 (STILL_ACTIVE) looks alive to the
  comparison at hog.c:129. The model compares exit codes the same way.

## Left out

- The Win32 calls (VirtualAlloc, CreateProcessA, GetExitCodeProcess, CloseHandle, GetSystemInfo, GetCurrentProcessId, GetModuleFileNameA): foreign behaviour. They appear only as outcome oracles and parameters. CloseHandle's return value is ignored, as in the source.
- Sleep, the 2-second poll interval, the 10 ms pause and the endless idle loop after the worker stops (hog.c:46, 50-51, 114): timing and liveness. The model covers finite prefixes: `RunWorker` over a finite outcome sequence and `Monitor` over finitely many passes.
- printf/fflush progress output and its floating-point MB conversion (hog.c:18, 26-30, 40-43, 49, 76-79, 103, 111, 130-132): console formatting only.
- Role dispatch with `_stricmp(argv[1], "worker")`, and the exit when GetModuleFileNameA fails (hog.c:85-95): entry-point glue. The executable path is a parameter of `Spawn.CommandLine`.
- Many workers running at once, and processes killed by the OS: represented only through the query outcomes fed to each pass.
- `volatile` stores and real page commitment: the model records which offsets are written and with what value.
- The `dwThreadId` field of PROCESS_INFORMATION: never read by the source.
- The records beyond `workerCount` are uninitialised stack memory in the source. The model starts them as zeroed records. The source never reads them.
- Spawn.CommandLine: each `char` of the path stands for one byte of the ANSI path that GetModuleFileNameA returns. MAX_PATH and the 512-byte buffer count bytes, and multi-byte code pages are not modelled.
- Windows command-line parsing is reduced to `Spawn.SplitCommandLine`: a quoted program path, one space, then the rest of the line.
- Worker.RunWorker: `total` and `pattern` are unbounded integers. The source's 64-bit `total` would wrap only after 2^38 chunks, and its `int pattern` would overflow only after 2^31 chunks. Both are far beyond any address space. The pattern byte is `pattern % 256`, which equals `pattern & 0xFF` for the non-negative values the loop produces.
- Worker.RunWorker: the page size is a parameter required to be positive, as GetSystemInfo always reports it. With a zero page size the source loop would never end.
