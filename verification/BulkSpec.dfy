/** What sysbench's multi-row INSERT batching does, call by call, on values:
    the rows buffered, the commit counter and the statements sent. The class in
    BulkInsert keeps the same state in a fixed character buffer. */
module BulkSpec {

  /** A statement handed to the driver, and whether the driver took it. */
  datatype Statement = Insert(rows: seq<string>, ok: bool) | Commit(ok: bool)

  /** How the driver answers during one call. */
  datatype Reply = Reply(insertOk: bool, commitOk: bool)

  datatype Bulk = Bulk(
    prefix: string,          // the INSERT ... VALUES part
    rows: seq<string>,       // rows in the buffer
    buflen: nat,
    commitMax: nat,          // 0: the driver needs no COMMIT
    commitCnt: nat,
    log: seq<Statement>
  )

  /** Characters taken by the rows, each with its separator or the terminator. */
  function Width(rows: seq<string>): nat {
    if rows == [] then 0 else |rows[0]| + 1 + Width(rows[1..])
  }

  /** Prefix, rows, separators and terminator fit the buffer. */
  predicate Fits(prefix: string, rows: seq<string>, buflen: nat) {
    |prefix| + Width(rows) <= buflen && |prefix| < buflen
  }

  predicate FitsAlone(b: Bulk, row: string) {
    |b.prefix| + |row| + 1 <= b.buflen
  }

  /** db_bulk_do_insert. */
  function Flush(b: Bulk, last: bool, reply: Reply): (Bulk, int) {
    if b.rows == [] then (b, 0)
    else
      var sent := b.(log := b.log + [Insert(b.rows, reply.insertOk)]);
      if !reply.insertOk then (sent, 1)
      else if b.commitMax == 0 then (sent.(rows := []), 0)
      else
        var counted := sent.(commitCnt := b.commitCnt + |b.rows|);
        if last || counted.commitCnt >= b.commitMax then
          var committed := counted.(log := counted.log + [Commit(reply.commitOk)]);
          if !reply.commitOk then (committed, 1) else (committed.(commitCnt := 0, rows := []), 0)
        else (counted.(rows := []), 0)
  }

  /** db_bulk_insert_next. */
  function Next(b: Bulk, row: string, reply: Reply): (Bulk, int) {
    if |b.prefix| + Width(b.rows) + |row| + 1 <= b.buflen then
      (b.(rows := b.rows + [row]), 0)
    else if b.rows == [] then (b, 1)
    else
      var (b1, rc) := Flush(b, false, reply);
      if rc != 0 then (b1, 1) else (b1.(rows := b1.rows + [row]), 0)
  }

  /** The source copies a row behind a flushed prefix without looking again
      whether it fits: with rows waiting, a row must fit on its own. */
  predicate Legal(b: Bulk, row: string) {
    b.rows == [] || FitsAlone(b, row)
  }

  datatype Call = Call(row: string, reply: Reply)

  /** A sequence of db_bulk_insert_next calls: the state, and the rows whose calls returned 0. */
  function Run(b: Bulk, calls: seq<Call>): (Bulk, seq<string>)
    decreases |calls|
  {
    if calls == [] then (b, [])
    else
      var (b1, rc) := Next(b, calls[0].row, calls[0].reply);
      var (b2, accepted) := Run(b1, calls[1..]);
      (b2, (if rc == 0 then [calls[0].row] else []) + accepted)
  }

  predicate LegalRun(b: Bulk, calls: seq<Call>)
    decreases |calls|
  {
    calls == [] ||
    (Legal(b, calls[0].row) && LegalRun(Next(b, calls[0].row, calls[0].reply).0, calls[1..]))
  }

  function Start(prefix: string, buflen: nat, commitMax: nat): Bulk {
    Bulk(prefix, [], buflen, commitMax, 0, [])
  }

  lemma {:induction false} WidthAppend(a: seq<string>, b: seq<string>)
    ensures Width(a + b) == Width(a) + Width(b)
  {
    if a == [] {
      assert a + b == b;
    } else {
      assert (a + b)[1..] == a[1..] + b;
      WidthAppend(a[1..], b);
    }
  }

  // --------------------------------------------------------------------------
  // Conservation and order of rows
  // --------------------------------------------------------------------------

  /** The rows the driver took with a statement. */
  function Taken(s: Statement): seq<string> {
    if s.Insert? && s.ok then s.rows else []
  }

  /** Rows of the INSERTs the driver took, in order. */
  function SentRows(log: seq<Statement>): seq<string> {
    if log == [] then [] else Taken(log[0]) + SentRows(log[1..])
  }

  /** COMMITs the driver refused. */
  function Refused(log: seq<Statement>): nat {
    if log == [] then 0 else (if log[0].Commit? && !log[0].ok then 1 else 0) + Refused(log[1..])
  }

  lemma {:induction false} SentPush(log: seq<Statement>, s: Statement)
    ensures SentRows(log + [s]) == SentRows(log) + Taken(s)
  {
    hide Taken;
    if log == [] {
      assert [s][1..] == [];
      assert Taken(s) + [] == [] + Taken(s);
      assert log + [s] == [s];
    } else {
      SentPush(log[1..], s);
      assert (log + [s])[0] == log[0] && (log + [s])[1..] == log[1..] + [s];
      assert Taken(log[0]) + (SentRows(log[1..]) + Taken(s)) == (Taken(log[0]) + SentRows(log[1..])) + Taken(s);
    }
  }

  lemma {:induction false} RefusedPush(log: seq<Statement>, s: Statement)
    ensures Refused(log + [s]) == Refused(log) + if s.Commit? && !s.ok then 1 else 0
  {
    if log != [] {
      RefusedPush(log[1..], s);
      assert (log + [s])[0] == log[0] && (log + [s])[1..] == log[1..] + [s];
    }
  }

  /** What one flush adds to the rows sent: the buffered rows, once when it goes
      through, once more for every refused COMMIT. */
  lemma FlushMoves(b: Bulk, last: bool, reply: Reply)
    ensures var (b1, rc) := Flush(b, last, reply);
            && rc in {0, 1}
            && (rc == 0 ==> b1.rows == [] && Refused(b1.log) == Refused(b.log)
                            && SentRows(b1.log) == SentRows(b.log) + b.rows)
            && (rc == 1 ==> b1.rows == b.rows != []
                            && ((Refused(b1.log) == Refused(b.log) && SentRows(b1.log) == SentRows(b.log))
                                || (Refused(b1.log) == Refused(b.log) + 1
                                    && SentRows(b1.log) == SentRows(b.log) + b.rows)))
  {
    hide SentRows, Refused;
    assert SentRows(b.log) + [] == SentRows(b.log);
    if b.rows != [] {
      var insert, commit := Insert(b.rows, reply.insertOk), Commit(reply.commitOk);
      SentPush(b.log, insert);
      RefusedPush(b.log, insert);
      SentPush(b.log + [insert], commit);
      RefusedPush(b.log + [insert], commit);
      assert SentRows(b.log + [insert]) + [] == SentRows(b.log + [insert]);
    }
  }

  /** Rows known to the batcher: sent, then buffered. */
  function Held(b: Bulk): seq<string> {
    SentRows(b.log) + b.rows
  }

  lemma NextMoves(b: Bulk, row: string, reply: Reply)
    ensures var (b1, rc) := Next(b, row, reply);
            && (Refused(b1.log) == Refused(b.log) ==>
                  Held(b1) == Held(b) + (if rc == 0 then [row] else []))
            && Refused(b1.log) >= Refused(b.log)
            && |Held(b1)| >= |Held(b)| + (if rc == 0 then 1 else 0) + Refused(b1.log) - Refused(b.log)
  {
    hide SentRows, Refused;
    FlushMoves(b, false, reply);
    assert SentRows(b.log) + (b.rows + [row]) == Held(b) + [row];
    assert Held(b) + [] == Held(b);
    var (b1, rc) := Flush(b, false, reply);
    if rc == 0 {
      assert SentRows(b1.log) + ([] + [row]) == Held(b) + [row];
    }
  }

  lemma {:induction false} RunMoves(b: Bulk, calls: seq<Call>)
    ensures var (b1, accepted) := Run(b, calls);
            && (Refused(b1.log) == Refused(b.log) ==> Held(b1) == Held(b) + accepted)
            && Refused(b1.log) >= Refused(b.log)
            && |Held(b1)| >= |Held(b)| + |accepted| + Refused(b1.log) - Refused(b.log)
    decreases |calls|
  {
    hide Flush, Next, SentRows, Refused;
    if calls == [] {
      assert Held(b) + [] == Held(b);
    } else {
      NextMoves(b, calls[0].row, calls[0].reply);
      var (b1, rc) := Next(b, calls[0].row, calls[0].reply);
      RunMoves(b1, calls[1..]);
      var (b2, accepted) := Run(b1, calls[1..]);
      var now := if rc == 0 then [calls[0].row] else [];
      assert (Held(b) + now) + accepted == Held(b) + (now + accepted);
    }
  }

  /** At every point of every run, with INSERTs and COMMITs free to fail: the
      rows accepted are, in order, the rows of the INSERTs that went through
      followed by the rows still buffered, exactly when no COMMIT was refused. */
  lemma RowsConservedIff(prefix: string, buflen: nat, commitMax: nat, calls: seq<Call>)
    ensures var (b, accepted) := Run(Start(prefix, buflen, commitMax), calls);
            SentRows(b.log) + b.rows == accepted <==> Refused(b.log) == 0
  {
    RunMoves(Start(prefix, buflen, commitMax), calls);
    var (b, accepted) := Run(Start(prefix, buflen, commitMax), calls);
    assert [] + accepted == accepted;
  }

  /** db_bulk_insert_done ignores how the flush ends and frees the buffer: all
      accepted rows have been sent once the last INSERT goes through. */
  lemma AllSentAfterDone(prefix: string, buflen: nat, commitMax: nat, calls: seq<Call>, reply: Reply)
    requires Refused(Run(Start(prefix, buflen, commitMax), calls).0.log) == 0
    ensures var (b, accepted) := Run(Start(prefix, buflen, commitMax), calls);
            var done := Flush(b, true, reply).0;
            SentRows(done.log) == accepted <==> b.rows == [] || reply.insertOk
  {
    var (b, accepted) := Run(Start(prefix, buflen, commitMax), calls);
    RowsConservedIff(prefix, buflen, commitMax, calls);
    FlushMoves(b, true, reply);
    if b.rows != [] {
      SentPush(b.log, Insert(b.rows, reply.insertOk));
      SentPush(b.log + [Insert(b.rows, reply.insertOk)], Commit(reply.commitOk));
    }
  }

  // --------------------------------------------------------------------------
  // The buffer is never overfull
  // --------------------------------------------------------------------------

  lemma NextFits(b: Bulk, row: string, reply: Reply)
    requires Fits(b.prefix, b.rows, b.buflen) && Legal(b, row)
    ensures var b1 := Next(b, row, reply).0;
            b1.prefix == b.prefix && b1.buflen == b.buflen && b1.commitMax == b.commitMax
            && Fits(b.prefix, b1.rows, b.buflen)
  {
    WidthAppend(b.rows, [row]);
    WidthAppend([], [row]);
    FlushMoves(b, false, reply);
  }

  /** With rows waiting, the next call stays within the buffer, whatever the
      driver answers, exactly when the row fits on its own. */
  lemma NextFitsIff(b: Bulk, row: string)
    requires Fits(b.prefix, b.rows, b.buflen) && b.rows != []
    ensures (forall reply :: Fits(b.prefix, Next(b, row, reply).0.rows, b.buflen)) <==> FitsAlone(b, row)
  {
    if FitsAlone(b, row) {
      forall reply ensures Fits(b.prefix, Next(b, row, reply).0.rows, b.buflen) {
        NextFits(b, row, reply);
      }
    } else {
      var (b1, rc) := Flush(b, false, Reply(true, true));
      assert rc == 0 && b1.rows == [];
      assert Next(b, row, Reply(true, true)).0.rows == [row];
      assert Width([row]) == |row| + 1;
    }
  }

  lemma {:induction false} RunFits(b: Bulk, calls: seq<Call>)
    requires Fits(b.prefix, b.rows, b.buflen) && LegalRun(b, calls)
    ensures var b1 := Run(b, calls).0;
            b1.prefix == b.prefix && b1.buflen == b.buflen && b1.commitMax == b.commitMax
            && Fits(b.prefix, b1.rows, b.buflen)
    decreases |calls|
  {
    if calls != [] {
      NextFits(b, calls[0].row, calls[0].reply);
      RunFits(Next(b, calls[0].row, calls[0].reply).0, calls[1..]);
    }
  }

  // --------------------------------------------------------------------------
  // Commit coverage
  // --------------------------------------------------------------------------

  /** Rows sent after the last COMMIT that went through. */
  function Uncommitted(log: seq<Statement>): nat {
    if log == [] then 0
    else
      var last := log[|log| - 1];
      var before := log[..|log| - 1];
      if last.Commit? then (if last.ok then 0 else Uncommitted(before))
      else (if last.ok then |last.rows| else 0) + Uncommitted(before)
  }

  lemma UncommittedPush(log: seq<Statement>, s: Statement)
    ensures Uncommitted(log + [s]) ==
            if s.Commit? then (if s.ok then 0 else Uncommitted(log))
            else (if s.ok then |s.rows| else 0) + Uncommitted(log)
  {
    assert (log + [s])[..|log|] == log;
  }

  /** The counter is right; rows left uncommitted leave rows in the buffer, so
      the early return of an empty flush never strands them. */
  ghost predicate CommitInv(b: Bulk) {
    b.commitMax > 0 ==>
      && b.commitCnt == Uncommitted(b.log)
      && (b.commitCnt > 0 ==> b.rows != [])
      && (Refused(b.log) == 0 ==> b.commitCnt < b.commitMax)
  }

  lemma FlushCommits(b: Bulk, last: bool, reply: Reply)
    requires CommitInv(b) && b.commitMax > 0
    ensures var (b1, rc) := Flush(b, last, reply);
            && b1.commitCnt == Uncommitted(b1.log)
            && (Refused(b1.log) == 0 ==> b1.commitCnt < b1.commitMax)
            && (rc == 0 && last ==> Uncommitted(b1.log) == 0)
  {
    if b.rows != [] {
      UncommittedPush(b.log, Insert(b.rows, reply.insertOk));
      UncommittedPush(b.log + [Insert(b.rows, reply.insertOk)], Commit(reply.commitOk));
      RefusedPush(b.log, Insert(b.rows, reply.insertOk));
      RefusedPush(b.log + [Insert(b.rows, reply.insertOk)], Commit(reply.commitOk));
    }
  }

  lemma {:induction false} RunCommits(b: Bulk, calls: seq<Call>)
    requires CommitInv(b)
    ensures CommitInv(Run(b, calls).0) && Run(b, calls).0.commitMax == b.commitMax
    decreases |calls|
  {
    if calls != [] {
      var (b1, rc) := Next(b, calls[0].row, calls[0].reply);
      if b.commitMax > 0 { FlushCommits(b, false, calls[0].reply); }
      FlushMoves(b, false, calls[0].reply);
      RunCommits(b1, calls[1..]);
    }
  }

  /** A COMMIT between two calls comes only when enough rows are uncommitted, and
      never for a driver that needs none. */
  ghost predicate CommitsDue(commitMax: nat, log: seq<Statement>) {
    forall i :: 0 <= i < |log| && log[i].Commit? ==> commitMax > 0 && Uncommitted(log[..i]) >= commitMax
  }

  lemma DuePush(commitMax: nat, log: seq<Statement>, s: Statement)
    requires CommitsDue(commitMax, log)
    requires s.Commit? ==> commitMax > 0 && Uncommitted(log) >= commitMax
    ensures CommitsDue(commitMax, log + [s])
  {
    var more := log + [s];
    forall i | 0 <= i < |more| && more[i].Commit?
      ensures commitMax > 0 && Uncommitted(more[..i]) >= commitMax
    {
      assert more[..i] == log[..i];
      assert i == |log| ==> log[..i] == log;
    }
  }

  lemma FlushDue(b: Bulk, reply: Reply)
    requires CommitInv(b) && CommitsDue(b.commitMax, b.log)
    ensures CommitsDue(b.commitMax, Flush(b, false, reply).0.log)
  {
    hide CommitsDue;
    if b.rows != [] {
      var insert := Insert(b.rows, reply.insertOk);
      UncommittedPush(b.log, insert);
      DuePush(b.commitMax, b.log, insert);
      if reply.insertOk && b.commitMax > 0 && b.commitCnt + |b.rows| >= b.commitMax {
        DuePush(b.commitMax, b.log + [insert], Commit(reply.commitOk));
      }
    }
  }

  /** Between any two calls, whichever statements the driver refused: every
      COMMIT sent found at least commitMax rows sent and uncommitted. */
  lemma {:induction false} RunDue(b: Bulk, calls: seq<Call>)
    requires CommitInv(b) && CommitsDue(b.commitMax, b.log)
    ensures CommitsDue(b.commitMax, Run(b, calls).0.log)
    decreases |calls|
  {
    if calls != [] {
      FlushDue(b, calls[0].reply);
      RunCommits(b, calls[..1]);
      assert calls[..1][1..] == [];
      RunDue(Next(b, calls[0].row, calls[0].reply).0, calls[1..]);
    }
  }

  /** With commitMax != 0 and no COMMIT refused, fewer than commitMax rows are
      sent and uncommitted between any two calls. After db_bulk_insert_done every
      row sent is followed by a COMMIT exactly when its flush had nothing to do,
      or went through, or failed to send rows while none was uncommitted. */
  lemma CommitCoverage(prefix: string, buflen: nat, commitMax: nat, calls: seq<Call>, reply: Reply)
    requires commitMax > 0
    ensures var b := Run(Start(prefix, buflen, commitMax), calls).0;
            && CommitsDue(commitMax, b.log)
            && (Refused(b.log) == 0 ==> Uncommitted(b.log) < commitMax)
            && (Flush(b, true, reply).1 == 0 ==> Uncommitted(Flush(b, true, reply).0.log) == 0)
            && (Uncommitted(Flush(b, true, reply).0.log) == 0
                <==> b.rows == [] || (reply.insertOk && reply.commitOk) || (!reply.insertOk && b.commitCnt == 0))
  {
    var b := Run(Start(prefix, buflen, commitMax), calls).0;
    RunCommits(Start(prefix, buflen, commitMax), calls);
    RunDue(Start(prefix, buflen, commitMax), calls);
    FlushCommits(b, true, reply);
  }

  /** A driver that needs no COMMIT gets none, db_bulk_insert_done included. */
  lemma NoCommitUnasked(prefix: string, buflen: nat, calls: seq<Call>, reply: Reply)
    ensures var b := Run(Start(prefix, buflen, 0), calls).0;
            var log := Flush(b, true, reply).0.log;
            forall i :: 0 <= i < |log| ==> log[i].Insert?
  {
    RunDue(Start(prefix, buflen, 0), calls);
    RunCommits(Start(prefix, buflen, 0), calls);
  }

  // --------------------------------------------------------------------------
  // Greedy packing sends the fewest INSERTs
  // --------------------------------------------------------------------------

  function Inserts(log: seq<Statement>): seq<seq<string>> {
    if log == [] then []
    else (if log[0].Insert? then [log[0].rows] else []) + Inserts(log[1..])
  }

  lemma {:induction false} InsertsAppend(log: seq<Statement>, more: seq<Statement>)
    ensures Inserts(log + more) == Inserts(log) + Inserts(more)
  {
    if log == [] {
      assert log + more == more;
    } else {
      assert (log + more)[1..] == log[1..] + more;
      InsertsAppend(log[1..], more);
    }
  }

  function Flatten(batches: seq<seq<string>>): seq<string> {
    if batches == [] then [] else batches[0] + Flatten(batches[1..])
  }

  /** An in-order split of rows into non-empty batches that each fit the buffer. */
  ghost predicate Splits(prefix: string, buflen: nat, rows: seq<string>, batches: seq<seq<string>>) {
    && Flatten(batches) == rows
    && forall i :: 0 <= i < |batches| ==> batches[i] != [] && Fits(prefix, batches[i], buflen)
  }

  const Willing := Reply(true, true)

  function WillingCalls(rows: seq<string>): (calls: seq<Call>)
    ensures |calls| == |rows|
  {
    if rows == [] then [] else [Call(rows[0], Willing)] + WillingCalls(rows[1..])
  }

  /** The batches of a run over `rest`, closed by db_bulk_insert_done, that begins with `cur` buffered. */
  function Pack(prefix: string, buflen: nat, cur: seq<string>, rest: seq<string>): (batches: seq<seq<string>>)
    decreases |rest|
  {
    if rest == [] then (if cur == [] then [] else [cur])
    else if |prefix| + Width(cur) + |rest[0]| + 1 <= buflen || cur == [] then
      Pack(prefix, buflen, cur + [rest[0]], rest[1..])
    else [cur] + Pack(prefix, buflen, [rest[0]], rest[1..])
  }

  lemma FlushWilling(b: Bulk, last: bool)
    requires b.rows != []
    ensures var (b1, rc) := Flush(b, last, Willing);
            rc == 0 && b1.rows == [] && Inserts(b1.log) == Inserts(b.log) + [b.rows]
  {
    InsertsAppend(b.log, [Insert(b.rows, true)]);
    InsertsAppend(b.log + [Insert(b.rows, true)], [Commit(true)]);
    assert Inserts([Insert(b.rows, true)]) == [b.rows];
    assert Inserts([Commit(true)]) == [];
    assert Inserts(b.log + [Insert(b.rows, true)]) + [] == Inserts(b.log + [Insert(b.rows, true)]);
  }

  lemma NextWilling(b: Bulk, row: string)
    requires FitsAlone(b, row)
    ensures var (b1, rc) := Next(b, row, Willing);
            && rc == 0 && b1.prefix == b.prefix && b1.buflen == b.buflen
            && (if |b.prefix| + Width(b.rows) + |row| + 1 <= b.buflen || b.rows == [] then
                  b1.rows == b.rows + [row] && b1.log == b.log
                else
                  b1.rows == [row] && Inserts(b1.log) == Inserts(b.log) + [b.rows])
  {
    if |b.prefix| + Width(b.rows) + |row| + 1 > b.buflen && b.rows != [] {
      FlushWilling(b, false);
      assert [] + [row] == [row];
    }
  }

  lemma DonePacks(b: Bulk)
    ensures Inserts(Flush(b, true, Willing).0.log) == Inserts(b.log) + Pack(b.prefix, b.buflen, b.rows, [])
  {
    if b.rows != [] { FlushWilling(b, true); }
    assert Inserts(b.log) + [] == Inserts(b.log);
  }

  /** The statements the calls send are the batches of Pack. */
  lemma {:induction false} RunPacks(b: Bulk, rows: seq<string>)
    requires forall i :: 0 <= i < |rows| ==> FitsAlone(b, rows[i])
    ensures var b1 := Run(b, WillingCalls(rows)).0;
            && Run(b, WillingCalls(rows)).1 == rows
            && Inserts(Flush(b1, true, Willing).0.log) == Inserts(b.log) + Pack(b.prefix, b.buflen, b.rows, rows)
    decreases |rows|
  {
    hide Flush, Next, Inserts, Width;
    if rows == [] {
      DonePacks(b);
    } else {
      var calls := WillingCalls(rows);
      assert calls[0] == Call(rows[0], Willing) && calls[1..] == WillingCalls(rows[1..]);
      NextWilling(b, rows[0]);
      var b1 := Next(b, rows[0], Willing).0;
      RunPacks(b1, rows[1..]);
      if |b.prefix| + Width(b.rows) + |rows[0]| + 1 > b.buflen && b.rows != [] {
        var tail := Pack(b.prefix, b.buflen, [rows[0]], rows[1..]);
        assert (Inserts(b.log) + [b.rows]) + tail == Inserts(b.log) + ([b.rows] + tail);
      }
    }
  }

  /** The batches sent are themselves a split. */
  lemma {:induction false} PackSplits(prefix: string, buflen: nat, cur: seq<string>, rest: seq<string>)
    requires Fits(prefix, cur, buflen)
    requires forall i :: 0 <= i < |rest| ==> |prefix| + |rest[i]| + 1 <= buflen
    ensures Splits(prefix, buflen, cur + rest, Pack(prefix, buflen, cur, rest))
    decreases |rest|
  {
    if rest == [] {
      assert cur + [] == cur;
      assert Flatten([cur]) == cur + Flatten([]);
    } else {
      WidthAppend(cur, [rest[0]]);
      assert cur + rest == (cur + [rest[0]]) + rest[1..];
      if |prefix| + Width(cur) + |rest[0]| + 1 <= buflen || cur == [] {
        PackSplits(prefix, buflen, cur + [rest[0]], rest[1..]);
      } else {
        PackSplits(prefix, buflen, [rest[0]], rest[1..]);
        var tail := Pack(prefix, buflen, [rest[0]], rest[1..]);
        assert ([cur] + tail)[1..] == tail;
        assert [rest[0]] + rest[1..] == rest;
      }
    }
  }

  /** One more row in a batch. */
  lemma OneMore(prefix: string, buflen: nat, cur: seq<string>, x: string)
    ensures Width(cur + [x]) == Width(cur) + |x| + 1 && Width([x]) == |x| + 1
    ensures Fits(prefix, cur + [x], buflen) <==> |prefix| + Width(cur) + |x| + 1 <= buflen
  {
    WidthAppend(cur, [x]);
    assert Width([x]) == |x| + 1;
  }

  /** A row of a batch that fits, with all rows before it, fits. */
  lemma FitsBefore(prefix: string, buflen: nat, p: seq<string>, x: string, q: seq<string>)
    requires Fits(prefix, p + [x] + q, buflen)
    ensures |prefix| + Width(p) + |x| + 1 <= buflen
  {
    WidthAppend(p + [x], q);
    OneMore(prefix, buflen, p, x);
  }

  /** Greedy stays ahead of any split. The split has closed as many batches as
      greedy (slack 0, and greedy's open batch is no wider than the split's open
      batch p) or one more (slack 1). q is what the split still puts into its open batch,
      `later` its batches after that. */
  lemma {:induction false} StaysAhead(prefix: string, buflen: nat, cur: seq<string>,
                                      p: seq<string>, q: seq<string>, later: seq<seq<string>>, slack: nat)
    requires Fits(prefix, cur, buflen) && Fits(prefix, p + q, buflen)
    requires forall i :: 0 <= i < |later| ==> later[i] != [] && Fits(prefix, later[i], buflen)
    requires slack <= 1 && (slack == 0 ==> Width(cur) <= Width(p))
    ensures |Pack(prefix, buflen, cur, q + Flatten(later))| <= 1 + slack + |later|
    decreases |q + Flatten(later)|, |later|
  {
    hide Width, Fits;
    var rest := q + Flatten(later);
    if q != [] {
      var x := q[0];
      assert rest[0] == x && rest[1..] == q[1..] + Flatten(later);
      assert p + q == (p + [x]) + q[1..];
      FitsBefore(prefix, buflen, p, x, q[1..]);
      OneMore(prefix, buflen, p, x);
      OneMore(prefix, buflen, cur, x);
      OneMore(prefix, buflen, [], x);
      assert [] + [x] == [x];
      if |prefix| + Width(cur) + |x| + 1 <= buflen || cur == [] {
        StaysAhead(prefix, buflen, cur + [x], p + [x], q[1..], later, slack);
      } else {
        StaysAhead(prefix, buflen, [x], p + [x], q[1..], later, 0);
      }
    } else if later != [] {
      var x := later[0][0];
      var q1 := later[0][1..];
      assert [x] + q1 == later[0];
      assert rest == later[0] + Flatten(later[1..]);
      assert rest[0] == x && rest[1..] == q1 + Flatten(later[1..]);
      assert [] + [x] + q1 == later[0];
      FitsBefore(prefix, buflen, [], x, q1);
      OneMore(prefix, buflen, cur, x);
      OneMore(prefix, buflen, [], x);
      assert [] + [x] == [x];
      if |prefix| + Width(cur) + |x| + 1 <= buflen || cur == [] {
        StaysAhead(prefix, buflen, cur + [x], [x], q1, later[1..], 1);
      } else {
        StaysAhead(prefix, buflen, [x], [x], q1, later[1..], 0);
      }
    }
  }

  /** When every row fits alone and the driver takes everything, the INSERTs sent
      carry the rows in order in batches that fit, and no in-order split of the
      rows into batches that fit has fewer. */
  lemma FewestInserts(prefix: string, buflen: nat, commitMax: nat, rows: seq<string>, split: seq<seq<string>>)
    requires |prefix| < buflen
    requires forall i :: 0 <= i < |rows| ==> |prefix| + |rows[i]| + 1 <= buflen
    requires Splits(prefix, buflen, rows, split)
    ensures var b := Run(Start(prefix, buflen, commitMax), WillingCalls(rows)).0;
            var sent := Inserts(Flush(b, true, Willing).0.log);
            Splits(prefix, buflen, rows, sent) && |sent| <= |split|
  {
    RunPacks(Start(prefix, buflen, commitMax), rows);
    var sent := Pack(prefix, buflen, [], rows);
    assert [] + sent == sent && [] + rows == rows;
    PackSplits(prefix, buflen, [], rows);
    if split != [] {
      assert [] + split[0] == split[0];
      StaysAhead(prefix, buflen, [], [], split[0], split[1..], 0);
      assert rows == split[0] + Flatten(split[1..]);
    }
  }
}
