# Verified models of the benchmark drivers' state machines

The repository holds database benchmark drivers. This project models the small
state machines inside them and proves, for every input, every run or every
interleaving, what they keep. Each module follows one component and keeps its
form: step systems over any number of threads for the concurrent code, classes
over arrays and linked items for the code that works in place, functions for
the code that only computes. A method of a class is tied by its contract to a
specification function, and the theorems are about that function.

| module | component | main results |
|---|---|---|
| `PartitionProtocol`, `PartitionRuns`, `PartitionProgress` | writers and partition deleter of the partitioned insert benchmark | row accounting, how the run ends, the exact greatest number of rows, exactly when a drop finds no partition, document ids never repeat |
| `RateLimit` | one writer's rate limit | the exact greatest number of inserts by any time |
| `BulkSpec`, `BulkInsert` | sysbench's multi-row INSERT buffer | conservation of rows iff no COMMIT was refused, buffer contents, commit coverage, fewest INSERTs |
| `CondVar`, `CondVarReopen` | condition variable on Windows events | event set iff gate closed, no thread left behind, exactly when a closed gate can reopen |
| `OnceInit` | `pthread_once` on Windows | the routine runs at most once and before any caller returns |
| `NumberTheory`, `Primality`, `RandUniq` | unique random ids | exactly when a window of draws is a permutation of the range, for every int size and wherever the seed wraps |
| `RandSpecial` | the "special" distribution | exactly when every value lies in the range |
| `Percentile` | response-time histogram | the index found is the bucket of the order statistic, with its one exception |
| `Timers`, `OperLog` | timers, per-thread statistics, checkpoint reports | nothing is lost or counted twice over any sequence of messages and reports |
| `TimeSpecs` | signed nanosecond addition and pacing | exact under C's truncating division, no drift |
| `TextLog` | repeated-message compression | lossless; exactly when a message that allows duplicates spoils it |
| `Lists`, `Options` | circular intrusive list, option registry | the registry behaves as a map whose keys take `-` and `_` as equal, over any sequence of changes |
| `SlidingWindow` | iibench's insert/delete stream and its executor | deletes tile, the table is one interval, exactly when the counters describe it |
| `Common`, `Runs` | counting, divisibility; runs of a step system | |

What comes from outside is a parameter or a free choice of a step: whether the
driver takes a statement, whether an insert succeeds, random draws, clock
readings, which thread moves next.

Where the code and what one would expect of it differ, the code is modelled and
the difference is proved:

- a COMMIT refused by the driver makes the batch stay buffered although its INSERT
  went through, so rows are conserved exactly when no COMMIT was refused
  (`BulkSpec.RowsConservedIff`);
- after a flush the next row is not checked again, so the buffer holds exactly
  when the row fits alone (`BulkSpec.NextFitsIff`);
- a pass of the partition deleter can ask for a partition that is not there;
  `PartitionRuns.FirstDropNeverMisses`, `PartitionRuns.LaterDropMissesIff` and
  `PartitionRuns.NoDropMisses` say when;
- bucket 0 of the histogram is reported as bucket 1 (`Percentile.ReportedNear`);
- iibench's deletes start at id 0 while ids start at 1, so the table holds one row
  more than `table_size` says (`SlidingWindow.WindowLeft`);
- a last waiter of a broadcast that was woken by a signal or by its timeout leaves
  the gate closed for ever; `CondVarReopen.ReopensIff` says which states can still
  reopen it;
- rand_pct above 100 can leave the range; `RandSpecial.SpecialInsideIff` says when;
- a rate limit below one still lets one batch through each second after the first
  (`RateLimit.RateBound`);
- a message that allows duplicates, as the interval reports do, can be taken for
  the one a later count repeats (`TextLog.FlaggedKeepsIff`).

## Model

| member | source | states |
|---|---|---|
| `PartitionProtocol.PartitionAccounting` | tokudb/software/mongodb/iibench-mongodb-partitioning/src/jmongoiibench.java:546-657 | In every reachable state the partition map holds exactly partitions dropPartitionNumber..closedPartitionNumber-1; their rows, the rows being subtracted and the rows dropped are numRowsLastPartition; the next close is due at one partition size for every closed partition and one more, and every closed partition had its rows; rows inserted are those estimated, dropped or about to be published |
| `PartitionProtocol.StepKeepsInv` | tokudb/software/mongodb/iibench-mongodb-partitioning/src/jmongoiibench.java:446-517 | One atomic step of any writer, of the deleter or of the end of the run keeps that accounting and what the deleter's local copies still mean |
| `PartitionProtocol.ExecKeepsInv` | tokudb/software/mongodb/iibench-mongodb-partitioning/src/jmongoiibench.java:446-517 | Every finite interleaving keeps it |
| `PartitionProtocol.BackPressureBound` | tokudb/software/mongodb/iibench-mongodb-partitioning/src/jmongoiibench.java:444-508 | globalEstimatedRows plus a batch for every writer past the size check, or holding a size that passes it, stays within the greatest multiple of the batch size under the pause limit plus one batch a writer |
| `PartitionProtocol.InsertsBounded` | tokudb/software/mongodb/iibench-mongodb-partitioning/src/jmongoiibench.java:439-498 | No run counts more rows than writerThreads times the rounds of a writer times the batch size |
| `PartitionRuns.BackPressureTight` | tokudb/software/mongodb/iibench-mongodb-partitioning/src/jmongoiibench.java:439-508 | For every configuration, round limit included, some run attains the greatest estimate: the batch size times the smaller of limit/batch + writers and writers*rounds |
| `PartitionRuns.MostRowsExact` | tokudb/software/mongodb/iibench-mongodb-partitioning/src/jmongoiibench.java:439-508 | A number bounds globalEstimatedRows in all runs if and only if it is at least that |
| `PartitionRuns.OvershootIff` | tokudb/software/mongodb/iibench-mongodb-partitioning/src/jmongoiibench.java:441-508 | The full overshoot of one batch a writer happens if and only if the writers have rounds enough to fill the limit and one left each |
| `PartitionRuns.FirstDropNeverMisses` | tokudb/software/mongodb/iibench-mongodb-partitioning/src/jmongoiibench.java:611-657 | The first drop of every pass of every run finds its partition if and only if the least multiple of the batch size above deleteAtRows is at least partitionRows, or all rounds of all writers together insert no more than deleteAtRows |
| `PartitionRuns.FirstDropSafe` | tokudb/software/mongodb/iibench-mongodb-partitioning/src/jmongoiibench.java:611-657 | One half, with the writers in any place |
| `PartitionRuns.FirstDropMissRun` | tokudb/software/mongodb/iibench-mongodb-partitioning/src/jmongoiibench.java:611-657 | The other half: a run, within the round limit, whose first drop finds nothing |
| `PartitionRuns.DeleteAtCoversPartition` | tokudb/software/mongodb/iibench-mongodb-partitioning/src/jmongoiibench.java:636 | deleteAtRows of at least partitionRows is enough for every batch size |
| `PartitionRuns.LaterDropMissesIff` | tokudb/software/mongodb/iibench-mongodb-partitioning/src/jmongoiibench.java:636-657 | After a drop the pass goes on to a missing partition if and only if the drop emptied the map and more than deleteAtRows rows were published since the last close |
| `PartitionRuns.DoomedStays` | tokudb/software/mongodb/iibench-mongodb-partitioning/src/jmongoiibench.java:636-645 | Once the deleter has decided to ask for a missing partition, nothing any thread does averts it |
| `PartitionRuns.MissNeedsFastWriters` | tokudb/software/mongodb/iibench-mongodb-partitioning/src/jmongoiibench.java:636-657 | Any miss happens with an empty map and with more than deleteAtRows rows inserted since the last close |
| `PartitionRuns.NoDropMisses` | tokudb/software/mongodb/iibench-mongodb-partitioning/src/jmongoiibench.java:611-657 | If the least multiple of the batch size above deleteAtRows is at least partitionRows, and no run can have more rows than that, no drop at any place of any pass of any run misses |
| `PartitionRuns.LaterDropMissRun` | tokudb/software/mongodb/iibench-mongodb-partitioning/src/jmongoiibench.java:611-657 | If the pause limit and the rounds leave room for a partition that starts dropping and as many rows as start dropping again, a later drop misses in some run |
| `PartitionRuns.LaterDropCanMiss` | tokudb/software/mongodb/iibench-mongodb-partitioning/src/jmongoiibench.java:636-657 | A concrete configuration of that kind whose first drops are safe |
| `PartitionProtocol.IdsNeverRepeat` | tokudb/software/mongodb/iibench-mongodb-partitioning/src/jmongoiibench.java:473-499 | The _id slices of two inserted batches never overlap and lie from documentsPerInsert to globalIdValue, and the batches inserted are those globalInserts counts or is about to count |
| `PartitionProtocol.ExecKeepsIds` | tokudb/software/mongodb/iibench-mongodb-partitioning/src/jmongoiibench.java:473-499 | No slice is handed out twice, nor inserted while another writer still holds it, along every interleaving |
| `PartitionProgress.CountersCount` | tokudb/software/mongodb/iibench-mongodb-partitioning/src/jmongoiibench.java:473-517 | In every reachable state globalWriterThreads counts the writers started and not gone, globalIdValue the slices taken, one a round, and a stopped deleter means the run has ended |
| `PartitionProgress.LastWriterEnds` | tokudb/software/mongodb/iibench-mongodb-partitioning/src/jmongoiibench.java:515-517 | A leaving writer ends the run if and only if no other writer is alive, or it had ended |
| `PartitionProgress.WritersStop` | tokudb/software/mongodb/iibench-mongodb-partitioning/src/jmongoiibench.java:506-508 | After the end of the run every writer finishes at most one more round, whatever the others do |
| `PartitionProgress.DeleterStops` | tokudb/software/mongodb/iibench-mongodb-partitioning/src/jmongoiibench.java:567 | A deleter between two passes at the end of the run closes and drops nothing more, and its next step stops it |
| `PartitionProgress.PausedWriterGoesOn` | tokudb/software/mongodb/iibench-mongodb-partitioning/src/jmongoiibench.java:460-471 | A paused writer reads the size again: within the limit it goes on after at most two steps of its own |
| `PartitionProgress.QuietPass` | tokudb/software/mongodb/iibench-mongodb-partitioning/src/jmongoiibench.java:611-657 | A pass that meets no writer closes one partition with all rows since the last close if it is due, drops oldest first, no more than it must, and ends within deleteAtRows or by asking for a partition that is not there |
| `PartitionProgress.PauseLimitIs` | tokudb/software/mongodb/iibench-mongodb-partitioning/src/jmongoiibench.java:444 | The pause limit is percentOverAllowed percent over deleteAtRows, rounded down |
| `PartitionProgress.LeastOverIs` | tokudb/software/mongodb/iibench-mongodb-partitioning/src/jmongoiibench.java:636 | The least multiple of the batch size above deleteAtRows is what the drop results call it |
| `RateLimit.RateBound` | tokudb/software/mongodb/iibench-mongodb-partitioning/src/jmongoiibench.java:431-458 | By any time T one writer has inserted at most ceil(limit/d) batches of d rows for each of the floor((T-t0)/1000)+1 begun seconds, and at most its rounds, whatever its pauses and whichever inserts fail; hence at most (floor((T-t0)/1000)+1)*(limit+d-1) rows; a limit below 1 lets one batch through a second, after the first |
| `RateLimit.RateAttained` | tokudb/software/mongodb/iibench-mongodb-partitioning/src/jmongoiibench.java:439-498 | For every configuration and every time some run has inserted exactly that many rows |
| `RateLimit.AnySecond` | tokudb/software/mongodb/iibench-mongodb-partitioning/src/jmongoiibench.java:447-458 | In any stretch of less than a second, wherever it begins, the writer inserts at most the batches of two seconds |
| `RateLimit.InsertsTried` | tokudb/software/mongodb/iibench-mongodb-partitioning/src/jmongoiibench.java:446-508 | Along every run the rows counted are those of the inserts that succeeded, and every insert uses up a round |
| `RateLimit.StepKeepsInv` | tokudb/software/mongodb/iibench-mongodb-partitioning/src/jmongoiibench.java:446-497 | What every statement and every passing of time keeps: the share of the running second, of the seconds begun and of the rounds |
| `BulkSpec.RowsConservedIff` | tokudb/software/fast-updates/sysbench-0.5/sysbench/db_driver.c:722-785 | At every point of every run, with INSERTs and COMMITs free to fail, the rows of successful INSERTs followed by the buffered rows are, in order, the rows whose calls returned 0, if and only if no COMMIT was refused |
| `BulkSpec.AllSentAfterDone` | tokudb/software/fast-updates/sysbench-0.5/sysbench/db_driver.c:789-799 | After db_bulk_insert_done every accepted row has been sent, in order, if and only if nothing was buffered or the last INSERT went through |
| `BulkSpec.NextFitsIff` | tokudb/software/fast-updates/sysbench-0.5/sysbench/db_driver.c:740-751 | With rows waiting, the call stays within the buffer whatever the driver answers if and only if the new row fits on its own |
| `BulkSpec.RunFits` | tokudb/software/fast-updates/sysbench-0.5/sysbench/db_driver.c:722-756 | Over every run in which rows fit alone, prefix, rows, commas and terminator stay within bulk_buflen |
| `BulkSpec.CommitCoverage` | tokudb/software/fast-updates/sysbench-0.5/sysbench/db_driver.c:769-799 | With a commit limit, every COMMIT sent between two calls found at least bulk_commit_max rows sent and uncommitted, whichever statements failed; with none refused, fewer are uncommitted between calls; after db_bulk_insert_done every row sent is followed by a COMMIT if and only if nothing was buffered, or both statements of its flush went through, or its INSERT failed with no row uncommitted |
| `BulkSpec.NoCommitUnasked` | tokudb/software/fast-updates/sysbench-0.5/sysbench/db_driver.c:769 | A driver that needs no COMMIT gets none |
| `BulkSpec.RunCommits` | tokudb/software/fast-updates/sysbench-0.5/sysbench/db_driver.c:760-785 | The counter is the number of uncommitted rows, and uncommitted rows never coexist with an empty buffer, so the early return strands none |
| `BulkSpec.FewestInserts` | tokudb/software/fast-updates/sysbench-0.5/sysbench/db_driver.c:722-799 | When every row fits alone and the driver takes everything, the INSERTs sent are an in-order split of the rows into batches that fit, and no such split has fewer |
| `BulkSpec.RunPacks` | tokudb/software/fast-updates/sysbench-0.5/sysbench/db_driver.c:722-799 | The statements the calls send are the batches of the greedy packing, and every call returns 0 |
| `BulkSpec.PackSplits` | tokudb/software/fast-updates/sysbench-0.5/sysbench/db_driver.c:730-751 | The greedy batches are themselves an in-order split whose batches fit |
| `BulkSpec.StaysAhead` | tokudb/software/fast-updates/sysbench-0.5/sysbench/db_driver.c:730-751 | At any place in the rows greedy packing is never behind another split by a batch |
| `BulkSpec.FlushMoves` | tokudb/software/fast-updates/sysbench-0.5/sysbench/db_driver.c:760-785 | A flush moves the buffered rows to the rows sent, or keeps them; after a refused COMMIT they are in both |
| `BulkInsert.Connection.Init` | tokudb/software/fast-updates/sysbench-0.5/sysbench/db_driver.c:680-718 | Fails without a driver that tells its capabilities or when the prefix does not fit; otherwise the buffer is the prefix, terminated |
| `BulkInsert.Connection.Next` | tokudb/software/fast-updates/sysbench-0.5/sysbench/db_driver.c:722-756 | On the character buffer, with unsigned int arithmetic, unless the sum wraps back under the buffer length: the state and the return code are those of the specification, and the buffer holds prefix and rows joined by commas, terminated |
| `BulkInsert.Connection.DoInsert` | tokudb/software/fast-updates/sysbench-0.5/sysbench/db_driver.c:760-785 | Sends the text in the buffer up to its terminator, then at most COMMIT, as the specification has it; position and count go back when it succeeds, and the characters are not touched |
| `BulkInsert.Connection.CopyRow` | tokudb/software/fast-updates/sysbench-0.5/sysbench/db_driver.c:744-753 | Writes comma, row and terminator behind the text and nothing in front of it |
| `BulkInsert.Connection.Done` | tokudb/software/fast-updates/sysbench-0.5/sysbench/db_driver.c:789-799 | Flushes with the last flag, whatever the outcome, and gives up the buffer |
| `BulkInsert.CStringEnds` | tokudb/software/fast-updates/sysbench-0.5/sysbench/db_driver.c:765 | What db_query reads from the buffer ends at the terminator |
| `BulkInsert.JoinAt` | tokudb/software/fast-updates/sysbench-0.5/sysbench/db_driver.c:744-751 | In the text of a statement every row stands behind the rows before it and their commas, with a comma behind it but for the last |
| `CondVar.EventIffGateClosed` | tokudb/software/fast-updates/sysbench-0.5/sysbench/sb_win.c:95-155 | In every reachable state, signals and timed waits included, with lock_waiting free the broadcast event is set if and only if the gate is closed |
| `CondVar.ReleasedBeforeReset` | tokudb/software/fast-updates/sysbench-0.5/sysbench/sb_win.c:103-155 | Every thread counted when a broadcast sets its event stops waiting before that event is reset, in every run |
| `CondVar.OwedUntilUncounted` | tokudb/software/fast-updates/sysbench-0.5/sysbench/sb_win.c:105-118 | A thread leaves the set of those owed a release only by its own decrement of waiting |
| `CondVar.WaitHoldsMutex` | tokudb/software/fast-updates/sysbench-0.5/sysbench/sb_win.c:95-121 | In every reachable state a thread in a wait holds the user mutex until it has been counted, and does not while it sleeps and until its call returns |
| `CondVar.WaitReturnsWithMutex` | tokudb/software/fast-updates/sysbench-0.5/sysbench/sb_win.c:121-123 | A wait returns with the user mutex, which nobody held before |
| `CondVar.WakesRight` | tokudb/software/fast-updates/sysbench-0.5/sysbench/sb_win.c:103 | A signal wakes one sleeper and is used up, a broadcast any number, and a wait times out only if it may and neither event is set |
| `CondVar.StepKeepsInv` | tokudb/software/fast-updates/sysbench-0.5/sysbench/sb_win.c:63-158 | Every statement of wait, signal and broadcast keeps the counter right, one thread in the critical section, and event and gate apart only between their two flips |
| `CondVar.ClosedGateMoves` | tokudb/software/fast-updates/sysbench-0.5/sysbench/sb_win.c:90-118 | With untimed waits and broadcasts a closed gate always leaves an enabled step, whoever holds the user's mutex; with lock_waiting free it is a counted waiter's, and waiting > 0 |
| `CondVar.StepKeepsPlain` | tokudb/software/fast-updates/sysbench-0.5/sysbench/sb_win.c:95-155 | Without signals and timeouts a gate is open, or somebody waits, or the last waiter is about to open it |
| `CondVar.GateReopens` | tokudb/software/fast-updates/sysbench-0.5/sysbench/sb_win.c:103-118 | From any such state the threads already counted or in the critical section reopen the gate on their own, within a stated number of steps |
| `CondVar.ReachableGateReopens` | tokudb/software/fast-updates/sysbench-0.5/sysbench/sb_win.c:95-118 | From every reachable state of untimed waits and broadcasts the gate can be reached open |
| `CondVar.WaveBounded` | tokudb/software/fast-updates/sysbench-0.5/sysbench/sb_win.c:95-106 | While the gate is closed no new thread joins the wave: its threads take at most a fixed number of steps, in every interleaving |
| `CondVarReopen.ReopensIff` | tokudb/software/fast-updates/sysbench-0.5/sysbench/sb_win.c:63-158 | In every reachable state, signals and timed waits included, some continuation opens the gate if and only if it is open, or a thread carries the broadcast result as the last waiter, or two threads are still free to take an event, or one is and no signal takes it away |
| `CondVarReopen.HopeComesTrue` | tokudb/software/fast-updates/sysbench-0.5/sysbench/sb_win.c:90-118 | In such a state the threads inside their calls open the gate on their own, within a stated number of steps |
| `CondVarReopen.HopeFromHope` | tokudb/software/fast-updates/sysbench-0.5/sysbench/sb_win.c:63-158 | No statement of any thread makes such a state out of another |
| `CondVarReopen.HopelessForever` | tokudb/software/fast-updates/sysbench-0.5/sysbench/sb_win.c:63-158 | Otherwise nothing any threads do, broadcasts included, ever opens the gate |
| `CondVarReopen.SignalLeavesGateClosed` | tokudb/software/fast-updates/sysbench-0.5/sysbench/sb_win.c:108-136 | A run with one signal and one broadcast in which the only waiter takes the signal, and the gate stays closed for good |
| `CondVarReopen.TimeoutLeavesGateClosed` | tokudb/software/fast-updates/sysbench-0.5/sysbench/sb_win.c:103-118 | A run with one timed wait that expires before a broadcast, and the gate stays closed for good |
| `OnceInit.RunsAtMostOnce` | tokudb/software/fast-updates/sysbench-0.5/sysbench/sb_win.c:228-253 | For any number of threads and any interleaving init_routine is entered at most once, and no call returns before it has been entered and left |
| `OnceInit.WaitersAreServed` | tokudb/software/fast-updates/sysbench-0.5/sysbench/sb_win.c:241-247 | A waiting thread either returns at its next step or exactly one other thread, never blocked, is on its way to storing the done value |
| `OnceInit.StepKeepsInv` | tokudb/software/fast-updates/sysbench-0.5/sysbench/sb_win.c:231-250 | Every step keeps one initialiser while in progress, none otherwise |
| `RandUniq.DrawsDetermined` | tokudb/software/fast-updates/sysbench-0.5/sysbench/sysbench.c:1163-1173 | Whatever the interleaving, the k-th call through the mutex draws a + ((k+1)*LARGE_PRIME mod 2^64) mod (b-a+1), and every call of every thread returns its own draw, the only one it makes |
| `RandUniq.PermutationIffCoprime` | tokudb/software/fast-updates/sysbench-0.5/sysbench/sysbench.c:1163-1173 | n consecutive draws from a range of size n, by any threads, with no 64-bit wrap between them, give every value exactly once if and only if n is coprime to LARGE_PRIME |
| `RandUniq.PermutationOfInts` | tokudb/software/fast-updates/sysbench-0.5/sysbench/sysbench.c:74-74 | As b-a+1 is an int: if and only if it is not LARGE_PRIME itself |
| `RandUniq.PermutationIff` | tokudb/software/fast-updates/sysbench-0.5/sysbench/sysbench.c:1163-1173 | For every window and every int size n, wherever the 64-bit seed wraps: every value exactly once if and only if n is not LARGE_PRIME and the seed does not wrap between the draws or n divides 2^64 |
| `RandUniq.HarmfulWrap` | tokudb/software/fast-updates/sysbench-0.5/sysbench/sysbench.c:1168-1169 | A wrap between the draws makes one value come twice, for a coprime size that does not divide 2^64 |
| `RandUniq.HarmlessWrap` | tokudb/software/fast-updates/sysbench-0.5/sysbench/sysbench.c:1168-1169 | ... and does no harm for one that does |
| `RandUniq.OffsetDrawn` | tokudb/software/fast-updates/sysbench-0.5/sysbench/sysbench.c:1168-1169 | With a coprime size every offset comes up in every window of n draws, also after a wrap |
| `RandUniq.OffsetsDiffer` | tokudb/software/fast-updates/sysbench-0.5/sysbench/sysbench.c:1168-1169 | ... and no offset twice |
| `RandUniq.MissedValue` | tokudb/software/fast-updates/sysbench-0.5/sysbench/sysbench.c:1168-1169 | With a common factor a or the value after it never comes up |
| `RandUniq.StepKeepsInv` | tokudb/software/fast-updates/sysbench-0.5/sysbench/sysbench.c:1167-1172 | Every statement keeps the seed a function of the number of draws and each draw with its call |
| `Primality.P31Coprime` | tokudb/software/fast-updates/sysbench-0.5/sysbench/sysbench.c:74 | LARGE_PRIME is coprime to every smaller positive number: it is a prime |
| `Primality.CertifiedCoprime` | tokudb/software/fast-updates/sysbench-0.5/sysbench/sysbench.c:74 | So is every number with a base whose order is its predecessor |
| `RandSpecial.Special` | tokudb/software/fast-updates/sysbench-0.5/sysbench/sysbench.c:1116-1157 | For every stream of draws, with rand_res < 100, rand_iter >= 1 and no overflow: the mean of rand_iter draws, which lies in [a, b], or the exact place in the window of special values; in [a, b] under the condition of SpecialInsideIff |
| `RandSpecial.SpecialInsideIff` | tokudb/software/fast-updates/sysbench-0.5/sysbench/sysbench.c:1130-1156 | For every range and every parameters, every special draw stays in the range if and only if no draw is special, or the window is no wider than the range, or the range is doubled and half the window is exactly one and a half ranges |
| `RandSpecial.PercentEnough` | tokudb/software/fast-updates/sysbench-0.5/sysbench/sysbench.c:1148 | rand_pct of at most 100 is enough |
| `RandSpecial.WindowInside` | tokudb/software/fast-updates/sysbench-0.5/sysbench/sysbench.c:1148-1154 | A window no wider than the range lies in it and in its middle, to within one |
| `RandSpecial.SumModBound` | tokudb/software/fast-updates/sysbench-0.5/sysbench/sysbench.c:1139-1141 | The sum of rand_iter draws below t is at most rand_iter*(t-1) |
| `RandSpecial.SumModPlain` | tokudb/software/fast-updates/sysbench-0.5/sysbench/sysbench.c:1139-1141 | Draws below t simply add up |
| `RandSpecial.SumModCongruent` | tokudb/software/fast-updates/sysbench-0.5/sysbench/sysbench.c:1139-1141 | Other draws count as what they leave modulo t |
| `RandSpecial.Mean` | tokudb/software/fast-updates/sysbench-0.5/sysbench/sysbench.c:1139-1141 | The loop over the draws: their reduced sum by their number, below t |
| `RandSpecial.FirstIsRemainder` | tokudb/software/fast-updates/sysbench-0.5/sysbench/sysbench.c:1131-1134 | The first draw counts as what it leaves modulo the widened range |
| `RandSpecial.WiderIs` | tokudb/software/fast-updates/sysbench-0.5/sysbench/sysbench.c:1131 | The range is widened by 100/(100 - rand_res), rounded down |
| `RandSpecial.WindowSizeIs` | tokudb/software/fast-updates/sysbench-0.5/sysbench/sysbench.c:1148-1150 | The window is rand_pct percent of the range, rounded down, and never empty |
| `RandSpecial.MeanBound` | tokudb/software/fast-updates/sysbench-0.5/sysbench/sysbench.c:1139-1141 | The mean of draws below t is below t |
| `RandSpecial.AboveHundredPercent` | tokudb/software/fast-updates/sysbench-0.5/sysbench/sysbench.c:1148-1154 | A witness: 101 percent of a range of 100 values, half of the draws special, yields the value after the range |
| `RandSpecial.HarmlessPercents` | tokudb/software/fast-updates/sysbench-0.5/sysbench/sysbench.c:1148-1154 | Witnesses of the other two cases above 100 percent: a window no wider than a range of two, and one of three times the range |
| `Percentile.PercentileIsOrderStatistic` | tokudb/software/fast-updates/sysbench-0.5/sysbench/sb_percentile.c:97-107 | For every non-empty sample set and percentage the index found is max(1, bucket of q) for the clamped sample q that percent of the samples, rounded to the nearest, reach and no smaller one does; 1 when they round to none; and below size |
| `Percentile.FoundIsOrderStatistic` | tokudb/software/fast-updates/sysbench-0.5/sysbench/sb_percentile.c:101-107 | The same for any rank |
| `Percentile.ReportedNear` | tokudb/software/fast-updates/sysbench-0.5/sysbench/sb_percentile.c:73-109 | The logarithm of the value reported is within half a bucket of the sample's if and only if the sample is not in bucket 0 |
| `Percentile.KthSmallestExists` | tokudb/software/fast-updates/sysbench-0.5/sysbench/sb_percentile.c:97 | Every rank from 1 to the number of samples has its sample |
| `Percentile.KthSmallestUnique` | tokudb/software/fast-updates/sysbench-0.5/sysbench/sb_percentile.c:97 | ... and only one value |
| `Percentile.BucketsAddUp` | tokudb/software/fast-updates/sysbench-0.5/sysbench/sb_percentile.c:76-79 | total is the sum of the buckets |
| `Percentile.BucketRange` | tokudb/software/fast-updates/sysbench-0.5/sysbench/sb_percentile.c:68-74 | The bucket of a clamped value is an index of values[] |
| `Percentile.Histogram.constructor` | tokudb/software/fast-updates/sysbench-0.5/sysbench/sb_percentile.c:38-62 | An empty histogram with the scale of sb_percentile_init |
| `Percentile.Histogram.Update` | tokudb/software/fast-updates/sysbench-0.5/sysbench/sb_percentile.c:64-80 | The value, or the end of the range nearest to it, is added to the samples and to the bucket it belongs to, and to nothing else |
| `Percentile.Scale.Clamp` | tokudb/software/fast-updates/sysbench-0.5/sysbench/sb_percentile.c:68-71 | The value in the range nearest to the one given |
| `Percentile.Histogram.Calculate` | tokudb/software/fast-updates/sysbench-0.5/sysbench/sb_percentile.c:82-110 | The search loop ends below size at the least index from 1 on whose cumulative count reaches nmax: the index of the sample that percent of the samples, rounded to the nearest, reach; 0 when there are no samples |
| `Percentile.Histogram.Reset` | tokudb/software/fast-updates/sysbench-0.5/sysbench/sb_percentile.c:112-118 | No samples are left |
| `TimeSpecs.TimeSpec.AddNs` | tokudb/software/fast-updates/sysbench-0.5/sysbench/sb_timer.c:259-281 | seconds*10^9+nanoseconds moves by exactly delta for every signed delta under truncating division; nanoseconds stay in 0..10^9 and equal 10^9 exactly in the stated cases |
| `TimeSpecs.Pace` | tokudb/software/fast-updates/sysbench-0.5/sysbench/sysbench.c:473-509 | After k passes the target is start + (k+1)*period whatever the clock said, and every pause is what is left to its own target, less half the jitter, plus the draw |
| `Timers.SummaryMerges` | tokudb/software/fast-updates/sysbench-0.5/sysbench/sb_timer.c:231-253 | Merging two timers gives events, sum, min and max of one timer fed both their intervals |
| `Timers.SummaryOrderFree` | tokudb/software/fast-updates/sysbench-0.5/sysbench/sb_timer.c:113-119 | The order of the intervals does not matter |
| `Timers.SummarySums` | tokudb/software/fast-updates/sysbench-0.5/sysbench/sb_timer.c:113-119 | sum_time is the sum of the intervals and events their number |
| `Timers.SummaryBounds` | tokudb/software/fast-updates/sysbench-0.5/sysbench/sb_timer.c:113-119 | min and max are intervals of the timer and min*events <= sum <= max*events |
| `Timers.Timer.constructor` | tokudb/software/fast-updates/sysbench-0.5/sysbench/sb_timer.c:44-51 | An initialised timer with no intervals |
| `Timers.Timer.Reset` | tokudb/software/fast-updates/sysbench-0.5/sysbench/sb_timer.c:55-62 | Clears the counters and leaves state and times alone |
| `Timers.Timer.Start` | tokudb/software/fast-updates/sysbench-0.5/sysbench/sb_timer.c:74-91 | Start and split are the time read |
| `Timers.Timer.Stop` | tokudb/software/fast-updates/sysbench-0.5/sysbench/sb_timer.c:97-122 | Adds the time since the last start to the intervals, in every state |
| `Timers.Timer.Split` | tokudb/software/fast-updates/sysbench-0.5/sysbench/sb_timer.c:156-188 | The time since the last split, or since the start; none for a timer never started |
| `OperLog.StatisticsConserved` | tokudb/software/fast-updates/sysbench-0.5/sysbench/sb_logger.c:518-583 | At any point of any sequence of messages and reports, all reports merged with what the timers hold are events, sum, min and max of one timer fed every stop |
| `OperLog.MergeAllIsSummary` | tokudb/software/fast-updates/sysbench-0.5/sysbench/sb_logger.c:582-583 | A merged report is what one timer fed all threads' intervals would say |
| `OperLog.Log.Process` | tokudb/software/fast-updates/sysbench-0.5/sysbench/sb_logger.c:518-543 | A stop adds the time since the start to the thread's own timer and to the list of stops; a start adds none; other threads' timers keep theirs |
| `OperLog.Log.Report` | tokudb/software/fast-updates/sysbench-0.5/sysbench/sb_logger.c:564-583 | The report is events, sum, min and max of one timer fed all intervals the timers held; the timers are empty afterwards |
| `OperLog.MergeCopies` | tokudb/software/fast-updates/sysbench-0.5/sysbench/sb_logger.c:582-583 | The merging loop over the copies |
| `OperLog.Log.ResetTimers` | tokudb/software/fast-updates/sysbench-0.5/sysbench/sb_logger.c:571-572 | Every timer loses its intervals and keeps its times |
| `TextLog.LogLossless` | tokudb/software/fast-updates/sysbench-0.5/sysbench/sb_logger.c:398-474 | From the start, expanding the repetition counts in the output and adding the pending one gives back exactly the messages that pass the filter, in order, if none allows duplicates; no two equal lines follow each other |
| `TextLog.RunLossless` | tokudb/software/fast-updates/sysbench-0.5/sysbench/sb_logger.c:424-474 | The same from any point at which nothing is lost and the last line printed is the buffered one |
| `TextLog.LinesPrinted` | tokudb/software/fast-updates/sysbench-0.5/sysbench/sb_logger.c:424-471 | The lines printed are the messages with something new to say, flagged ones included, each with its own priority, in order |
| `TextLog.StaysLosslessIff` | tokudb/software/fast-updates/sysbench-0.5/sysbench/sb_logger.c:429-451 | Whatever came before, a log that has lost nothing yet loses nothing in any run of further unflagged messages if and only if the last line printed is the buffered one or nothing is buffered |
| `TextLog.FlaggedKeepsIff` | tokudb/software/fast-updates/sysbench-0.5/sysbench/sb_logger.c:432-471 | A message that allows duplicates leaves a log that stays lossless whatever unflagged messages follow if and only if it repeats the last unflagged one or none has come yet |
| `TextLog.MisreadRun` | tokudb/software/fast-updates/sysbench-0.5/sysbench/sb_logger.c:435-448 | The run that shows the loss otherwise: the buffered message once more, then another one |
| `TextLog.HandleKeeps` | tokudb/software/fast-updates/sysbench-0.5/sysbench/sb_logger.c:429-451 | One unflagged message keeps the log lossless |
| `TextLog.Handler.Process` | tokudb/software/fast-updates/sysbench-0.5/sysbench/sb_logger.c:424-474 | text_buf, text_cnt and the output move as specified, for flagged, filtered, repeated and new messages |
| `TextLog.Handler.constructor` | tokudb/software/fast-updates/sysbench-0.5/sysbench/sb_logger.c:398-418 | An empty buffer and no count |
| `Lists.List.constructor` | tokudb/software/fast-updates/sysbench-0.5/sysbench/sb_list.h:40-44 | An empty ring |
| `Lists.List.IsEmpty` | tokudb/software/fast-updates/sysbench-0.5/sysbench/sb_list.h:79-80 | Tells emptiness from the head alone |
| `Lists.List.AddTail` | tokudb/software/fast-updates/sysbench-0.5/sysbench/sb_list.h:57-63 | The items are the old ones and the new one, and form a ring both ways |
| `Lists.List.Delete` | tokudb/software/fast-updates/sysbench-0.5/sysbench/sb_list.h:65-69 | The items are the old ones without the k-th, and form a ring both ways |
| `Lists.List.LinkFrom` | tokudb/software/fast-updates/sysbench-0.5/sysbench/sb_list.h:103-104 | Following next visits the items in order and comes back to the head |
| `Options.ConvertDashes` | tokudb/software/fast-updates/sysbench-0.5/sysbench/sb_options.c:553-561 | Rewrites the name in its buffer to the converted name, terminator kept |
| `Options.OptNameCmp` | tokudb/software/fast-updates/sysbench-0.5/sysbench/sb_options.c:564-576 | Zero if and only if the converted names are equal; otherwise the difference where they part |
| `Options.SpellingsAgree` | tokudb/software/fast-updates/sysbench-0.5/sysbench/sb_options.c:553-576 | Two names are one if and only if they differ in nothing but - and _ |
| `Options.TokensOfJoined` | tokudb/software/fast-updates/sysbench-0.5/sysbench/sb_options.c:114-119 | A comma-separated list is read back as its values |
| `Options.TokensKeepText` | tokudb/software/fast-updates/sysbench-0.5/sysbench/sb_options.c:114-119 | However many commas there are, the values are all other characters in order |
| `Options.FreeValues` | tokudb/software/fast-updates/sysbench-0.5/sysbench/sb_options.c:412-429 | The loop that remembers the next item empties a well-formed list |
| `Options.AddValue` | tokudb/software/fast-updates/sysbench-0.5/sysbench/sb_options.c:491-509 | One value more at the end |
| `Options.AddTokens` | tokudb/software/fast-updates/sysbench-0.5/sysbench/sb_options.c:115-117 | The values of a list argument, in order, at the end |
| `Options.AddParsed` | tokudb/software/fast-updates/sysbench-0.5/sysbench/sb_options.c:100-125 | Values by type; an unknown type with a non-empty value returns 1 |
| `Options.ParsedMeans` | tokudb/software/fast-updates/sysbench-0.5/sysbench/sb_options.c:100-125 | A flag is on if and only if nothing or "on" is given for it; a number or text has the one value given, or none for an empty one; a list has none if and only if there is nothing but commas |
| `Options.Record.Assign` | tokudb/software/fast-updates/sysbench-0.5/sysbench/sb_options.c:98-125 | The old values go and the new ones come, with the new type |
| `Options.Registry.constructor` | tokudb/software/fast-updates/sysbench-0.5/sysbench/sb_options.c:63-68 | No options |
| `Options.Registry.Find` | tokudb/software/fast-updates/sysbench-0.5/sysbench/sb_options.c:579-595 | Finds the option of any spelling of a set name, with the type and values set for it, and nothing for other names |
| `Options.Record.ToFlag` | tokudb/software/fast-updates/sysbench-0.5/sysbench/sb_options.c:177-180 | On if and only if there is a value |
| `Options.Record.ToText` | tokudb/software/fast-updates/sysbench-0.5/sysbench/sb_options.c:324-336 | The first value, or none |
| `Options.Registry.GetFlag` | tokudb/software/fast-updates/sysbench-0.5/sysbench/sb_options.c:183-192 | On if and only if the name, in any spelling, is set with a value |
| `Options.Registry.GetText` | tokudb/software/fast-updates/sysbench-0.5/sysbench/sb_options.c:339-348 | The first value set for the name in any spelling, or none |
| `Options.Registry.AddOption` | tokudb/software/fast-updates/sysbench-0.5/sysbench/sb_options.c:531-550 | The option of that name, new and without values if there was none, stored with dashes converted; the others stay |
| `Options.Registry.SetOption` | tokudb/software/fast-updates/sysbench-0.5/sysbench/sb_options.c:90-126 | The registry stays well formed and behaves as the map with that one entry replaced; returns 1 exactly for a refused argument |
| `Options.Registry.Clear` | tokudb/software/fast-updates/sysbench-0.5/sysbench/sb_options.c:481 | The option stays, without values |
| `Options.Registry.CutOut` | tokudb/software/fast-updates/sysbench-0.5/sysbench/sb_options.c:484 | The option leaves the list, the others stay |
| `Options.Registry.RemoveOption` | tokudb/software/fast-updates/sysbench-0.5/sysbench/sb_options.c:472-488 | The map without that name; returns 1 exactly when it was not set |
| `Options.Registry.RegisterArgSet` | tokudb/software/fast-updates/sysbench-0.5/sysbench/sb_options.c:74-83 | Sets everything up to the first refused argument, that one included; returns 1 exactly when one was refused |
| `Options.Registry.ApplyAll` | tokudb/software/fast-updates/sysbench-0.5/sysbench/sb_options.c:90-126 | Any sequence of set_option and remove_option calls keeps the registry well formed and behaving as the map after the same changes |
| `Options.Registry.FindAfter` | tokudb/software/fast-updates/sysbench-0.5/sysbench/sb_options.c:579-595 | After any such sequence find_option under any spelling of a name finds the type and values last set for it, nothing if it was removed last, and what was there before if it is not among the changes |
| `Options.LastEventWins` | tokudb/software/fast-updates/sysbench-0.5/sysbench/sb_options.c:90-126 | Of the map the registry refines: the last change of a name decides, whatever its spelling |
| `Options.OthersStay` | tokudb/software/fast-updates/sysbench-0.5/sysbench/sb_options.c:90-126 | Of that map: a name no change mentions keeps what it had |
| `SlidingWindow.Insert` | tokudb/software/iibench/iibench.py:310-439 | The queue receives exactly the specified stream, then the end marker |
| `SlidingWindow.RoundsKeepWindow` | tokudb/software/iibench/iibench.py:376-435 | After every round table_size = inserted - tail >= 0, within max_table_rows, and once something was deleted one commit more would not fit |
| `SlidingWindow.DeletesTile` | tokudb/software/iibench/iibench.py:429-435 | The delete ranges of all rounds tile [0, tail) in steps of rows_per_commit |
| `SlidingWindow.ReplayRounds` | tokudb/software/iibench/iibench.py:376-449 | Executing the stream leaves exactly the ids max(1, tail)..inserted |
| `SlidingWindow.WindowLeft` | tokudb/software/iibench/iibench.py:376-449 | ... which is table_size rows, one more once something was deleted |
| `SlidingWindow.WindowIff` | tokudb/software/iibench/iibench.py:272-276 | The table is the window the counters describe if and only if rows_per_commit <= max_rows |
| `SlidingWindow.HandOver` | tokudb/software/iibench/iibench.py:441-450 | However generator and executor interleave over the queue of one place, whose place is free once the executor has got a statement: the table is that of a prefix of the stream, at most two statements behind, and the window when the executor stops |
| `SlidingWindow.TwoBehind` | tokudb/software/iibench/iibench.py:441-449 | Two behind is attained, after any number of executed statements: one held, one queued |
| `SlidingWindow.HandOverEnds` | tokudb/software/iibench/iibench.py:437-450 | Until the executor stops some step is possible, and every step leaves fewer, so every run ends with everything executed |
| `SlidingWindow.PrefixHolds` | tokudb/software/iibench/iibench.py:376-449 | At every point the table is one interval of ids, of bounded size |
| `SlidingWindow.StepKeepsInv` | tokudb/software/iibench/iibench.py:441-488 | Each put, each get and each execution with its commit keeps the work done a prefix of the stream, then the statement held, then the queue |

## Left out

- Databases, drivers, JDBC, the network and SQL: a statement is its text and whether it was taken; iibench's table is the set of its ids.
- Clocks, sleeping and jitter sources: readings and draws are inputs, and time between two statements is a free choice.
- Windows events and critical sections are abstract state with atomic steps; a critical section entered twice by its holder is not modelled.
- CondVar.ClosedGateMoves: stated for runs of untimed waits and broadcasts, where it always holds; CondVarReopen.ReopensIff has the exact condition for all runs.
- BulkSpec.FewestInserts: for runs in which the driver takes every statement; a failed INSERT is sent again with the same rows, so a count of statements says nothing then.
- BulkInsert.Connection.Next: a row of nearly 2^32 characters whose sum with the position wraps back under the buffer length passes the test and is written past the buffer, and so is a row that does not fit behind the prefix when rows are waiting; what C does then is not modelled. BulkSpec.NextFitsIff says that nothing else overruns it.
- bulk_supported is stored by the source and never consulted in these functions; it is not modelled.
- RandUniq.PermutationIffCoprime: for windows in which the 64-bit seed does not wrap; RandUniq.PermutationIff has all windows.
- RandSpecial.Special: for parameters for which no int or unsigned int intermediate overflows; the window's start may be negative, which C's unsigned addition gives back as the same number.
- Percentile: exact reals and any increasing logarithm with its inverse; floating-point rounding and counter overflow are not modelled, and updates outside the timers mutex are single steps.
- TimeSpecs.Pace: whether the thread really sleeps, and the pause being cut to microseconds.
- Timers.Timer.Stop: the sum of all intervals is unbounded, without 64-bit wrap; warnings and the abort on an uninitialised timer are left out.
- OperLog.StatisticsConserved: the cumulative split timer and the percentile of a report are covered by their own modules only.
- TextLog.Handler.Process: one call at a time; the final printf is outside the text mutex, so two threads' lines may come out in the other order. Messages are shorter than TEXT_BUFFER_SIZE, as log_text and log_timestamp make them.
- The writers' limit is computed without narrowing to int; the deleter's mode that removes rows by key range, exceptions of the partition commands and the query threads of jmongoiibench are left out.
- iibench's run_minutes is a free choice: the generator may stop after any round. numMaxInserts / documentsPerInsert of jmongoiibench is the parameter rounds.
- Options: NULL names and lists, allocation failure, option values read as numbers (they are kept as text), printing, and reading or writing configuration files, whose round trip does not hold.
- Lists: SB_LIST_ADD, SB_LIST_REPLACE and reverse iteration are not used by the registry; freed items are only unlinked.
- The near-copies of iibench and jmongoiibench and the scripts of the repository would only repeat these results.
