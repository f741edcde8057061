/** Runs of the partitioned insert benchmark that attain its bounds: how many
    rows there can be at most, and exactly when the deleter asks for a partition
    that is not there. */
module PartitionRuns {
  import opened Common
  import opened Runs
  import opened PartitionProtocol

  // --------------------------------------------------------------------------
  // Building runs
  // --------------------------------------------------------------------------

  ghost predicate RunsTo(c: Config, s: State, t: State) {
    Leads(Machine(c), s, t)
  }

  lemma StepsTo(c: Config, z: State, s: State, l: Label)
    requires RunsTo(c, z, s) && Step(c, s, l).Some?
    ensures RunsTo(c, z, Step(c, s, l).value)
  {
    LeadsTo(Machine(c), z, s, l);
  }

  /** Before a round, with no more than `cap` rounds finished. */
  predicate Idle(w: Writer, cap: nat) {
    (w.pc.NotStarted? || w.pc.LoopTest?) && w.round <= cap
  }

  ghost predicate AllIdle(s: State, cap: nat) {
    !s.g.allDone && forall i :: 0 <= i < |s.ws| ==> Idle(s.ws[i], cap)
  }

  function RoundOf(w: Writer): nat { w.round }

  /** Writer i, before a round, gets past the size check. */
  lemma AdmitWriter(c: Config, z: State, s: State, i: nat) returns (t: State)
    requires RunsTo(c, z, s) && i < |s.ws| && s.g.estimate <= c.limit
    requires (s.ws[i].pc.NotStarted? || s.ws[i].pc.LoopTest?) && s.ws[i].round < c.rounds
    ensures RunsTo(c, z, t) && t.d == s.d && t.g == s.g.(alive := t.g.alive)
    ensures t.ws == s.ws[i := s.ws[i].(pc := TakeSlice)]
  {
    hide RunsTo;
    var l := WriterMoves(i, true);
    t := s;
    if t.ws[i].pc.NotStarted? {
      StepsTo(c, z, t, l);
      t := Step(c, t, l).value;
    }
    for k := 0 to 3
      invariant RunsTo(c, z, t) && t.d == s.d && t.g == s.g.(alive := t.g.alive)
      invariant |t.ws| == |s.ws| && t.ws == s.ws[i := s.ws[i].(pc := t.ws[i].pc)]
      invariant k == 0 ==> t.ws[i].pc == LoopTest
      invariant k == 1 ==> t.ws[i].pc == AtHead
      invariant k == 2 ==> t.ws[i].pc == SizeCheck(s.g.estimate)
      invariant k == 3 ==> t.ws[i].pc == TakeSlice
    {
      StepsTo(c, z, t, l);
      t := Step(c, t, l).value;
    }
  }

  /** A writer past the size check inserts, publishes and finishes its round. */
  lemma PublishBatch(c: Config, z: State, s: State, i: nat) returns (t: State)
    requires RunsTo(c, z, s) && i < |s.ws| && s.ws[i].pc == TakeSlice && !s.g.allDone
    ensures RunsTo(c, z, t) && t.d == s.d && !t.g.allDone
    ensures t.ws == s.ws[i := Writer(LoopTest, s.ws[i].round + 1)]
    ensures t.g.inserts == s.g.inserts + c.docs && t.g.estimate == s.g.estimate + c.docs
  {
    hide RunsTo;
    var l := WriterMoves(i, true);
    t := s;
    for k := 0 to 5
      invariant RunsTo(c, z, t) && t.d == s.d && !t.g.allDone
      invariant |t.ws| == |s.ws| && t.ws == s.ws[i := t.ws[i]]
      invariant t.ws[i].round == s.ws[i].round + (if k == 5 then 1 else 0)
      invariant k == 0 ==> t.ws[i].pc == TakeSlice
      invariant k == 1 ==> t.ws[i].pc.InsertBatch?
      invariant k == 2 ==> t.ws[i].pc == CountInsert
      invariant k == 3 ==> t.ws[i].pc == CountEstimate
      invariant k == 4 ==> t.ws[i].pc == RoundEnd
      invariant k == 5 ==> t.ws[i].pc == LoopTest
      invariant t.g.inserts == s.g.inserts + (if k >= 3 then c.docs else 0)
      invariant t.g.estimate == s.g.estimate + (if k >= 4 then c.docs else 0)
    {
      StepsTo(c, z, t, l);
      t := Step(c, t, l).value;
    }
  }

  /** n more rounds, spread over the writers, while the size stays admissible
      and no writer takes more than `cap` rounds in all. */
  lemma {:induction false} Rounds(c: Config, z: State, s: State, cap: nat, n: nat) returns (t: State)
    requires RunsTo(c, z, s) && AllIdle(s, cap) && cap <= c.rounds
    requires Sum(s.ws, RoundOf) + n <= |s.ws| * cap
    requires n > 0 ==> s.g.estimate + (n - 1) * c.docs <= c.limit
    ensures RunsTo(c, z, t) && AllIdle(t, cap) && t.d == s.d && |t.ws| == |s.ws|
    ensures Sum(t.ws, RoundOf) == Sum(s.ws, RoundOf) + n
    ensures t.g.inserts == s.g.inserts + n * c.docs && t.g.estimate == s.g.estimate + n * c.docs
  {
    t := s;
    if n > 0 {
      hide RunsTo;
      RoundsGrow(c.docs, n);
      var u := Rounds(c, z, s, cap, n - 1);
      SumBounds(u.ws, RoundOf, cap);
      var i: nat :| i < |u.ws| && RoundOf(u.ws[i]) < cap;
      var v := AdmitWriter(c, z, u, i);
      t := PublishBatch(c, z, v, i);
      assert t.ws == u.ws[i := Writer(LoopTest, u.ws[i].round + 1)];
      SumUpdate(u.ws, i, t.ws[i], RoundOf);
    }
  }

  lemma RoundsGrow(d: nat, n: nat)
    requires n > 0
    ensures n * d == (n - 1) * d + d
    ensures n > 1 ==> (n - 1) * d == (n - 2) * d + d
  {
  }

  /** All writers from k on get past the size check while the size stands still. */
  lemma {:induction false} AdmitAll(c: Config, z: State, s: State, k: nat) returns (t: State)
    requires RunsTo(c, z, s) && k <= |s.ws| && s.g.estimate <= c.limit && !s.g.allDone
    requires forall i :: 0 <= i < k ==> s.ws[i].pc == TakeSlice
    requires c.rounds > 0 && forall i :: k <= i < |s.ws| ==> Idle(s.ws[i], c.rounds - 1)
    ensures RunsTo(c, z, t) && |t.ws| == |s.ws| && !t.g.allDone && t.g.estimate == s.g.estimate
    ensures forall i :: 0 <= i < |t.ws| ==> t.ws[i].pc == TakeSlice
    decreases |s.ws| - k
  {
    t := s;
    if k < |s.ws| {
      t := AdmitWriter(c, z, t, k);
      t := AdmitAll(c, z, t, k + 1);
    }
  }

  lemma {:induction false} PublishAll(c: Config, z: State, s: State, k: nat) returns (t: State)
    requires RunsTo(c, z, s) && k <= |s.ws| && !s.g.allDone
    requires forall i :: k <= i < |s.ws| ==> s.ws[i].pc == TakeSlice
    ensures RunsTo(c, z, t)
    ensures t.g.estimate == s.g.estimate + c.docs * (|s.ws| - k)
    decreases |s.ws| - k
  {
    t := s;
    if k < |s.ws| {
      t := PublishBatch(c, z, s, k);
      t := PublishAll(c, z, t, k + 1);
      MulPlus(c.docs, |s.ws| - k - 1, 1);
    }
  }

  lemma StartIdle(c: Config)
    ensures RunsTo(c, Init(c), Init(c)) && AllIdle(Init(c), 0)
    ensures Sum(Init(c).ws, RoundOf) == 0
  {
    LeadsStart(Machine(c), Init(c));
    SumBounds(Init(c).ws, RoundOf, 0);
  }

  /** From the start, n rounds of at most `cap` a writer. */
  lemma FirstRounds(c: Config, cap: nat, n: nat) returns (t: State)
    requires cap <= c.rounds && n <= c.writers * cap
    requires n > 0 ==> (n - 1) * c.docs <= c.limit
    ensures RunsTo(c, Init(c), t) && AllIdle(t, cap) && t.d == Init(c).d && |t.ws| == c.writers
    ensures t.g.inserts == t.g.estimate == n * c.docs && Sum(t.ws, RoundOf) == n
  {
    StartIdle(c);
    t := Rounds(c, Init(c), Init(c), cap, n);
  }

  // --------------------------------------------------------------------------
  // The greatest number of rows
  // --------------------------------------------------------------------------

  /** The most rows the estimate ever shows, in batches: one over the limit for
      every writer, or all that the writers' rounds insert. */
  function MostBatches(c: Config): nat
    requires c.docs > 0
  {
    Least(c.limit / c.docs + c.writers, c.writers * c.rounds)
  }

  lemma MostRowsBound(c: Config, s: State)
    requires c.docs > 0 && Reachable(c, s)
    ensures s.g.estimate <= c.docs * MostBatches(c)
  {
    BackPressureBound(c, s);
    InsertsBounded(c, s);
    assert c.docs * CountIf(s.ws, Admitted(c)) >= 0;
    MulPlus(c.docs, c.limit / c.docs, c.writers);
  }

  /** m batches first, then one of every writer at once. */
  lemma AllAtOnce(c: Config, m: nat) returns (t: State)
    requires c.docs > 0 && c.rounds > 0 && m <= c.writers * (c.rounds - 1) && m * c.docs <= c.limit
    ensures Reachable(c, t) && t.g.estimate == c.docs * (m + c.writers)
  {
    hide RunsTo;
    MulMono(m - 1, m, c.docs);
    t := FirstRounds(c, c.rounds - 1, m);
    t := AdmitAll(c, Init(c), t, 0);
    t := PublishAll(c, Init(c), t, 0);
    MulPlus(c.docs, m, c.writers);
    ReachableBy(c, t);
  }

  lemma ReachableBy(c: Config, t: State)
    requires RunsTo(c, Init(c), t)
    ensures Reachable(c, t)
  {
  }

  /** For every configuration some run attains that number. */
  lemma BackPressureTight(c: Config) returns (t: State)
    requires c.docs > 0
    ensures Reachable(c, t) && t.g.estimate == c.docs * MostBatches(c)
  {
    if c.rounds == 0 {
      StartIdle(c);
      t := Init(c);
    } else {
      var m := Least(c.limit / c.docs, c.writers * (c.rounds - 1));
      MostSplits(c);
      MostWithinLimit(c);
      MulMono(m, c.limit / c.docs, c.docs);
      t := AllAtOnce(c, m);
    }
  }

  lemma MostSplits(c: Config)
    requires c.docs > 0 && c.rounds > 0
    ensures var m := Least(c.limit / c.docs, c.writers * (c.rounds - 1));
            MostBatches(c) == m + c.writers
  {
    assert c.writers * c.rounds == c.writers * (c.rounds - 1) + c.writers;
  }

  /** The number of rows in any run is at most that, and no smaller bound holds. */
  lemma MostRowsExact(c: Config, most: int)
    requires c.docs > 0
    ensures (forall s :: Reachable(c, s) ==> s.g.estimate <= most) <==> c.docs * MostBatches(c) <= most
  {
    var t := BackPressureTight(c);
    forall s | Reachable(c, s) ensures s.g.estimate <= c.docs * MostBatches(c) {
      MostRowsBound(c, s);
    }
  }

  /** The full overshoot, one batch a writer over the limit, happens exactly
      when the writers have rounds enough to fill the limit and one left each. */
  lemma OvershootIff(c: Config)
    requires c.docs > 0 && c.writers > 0
    ensures (exists s :: Reachable(c, s) && s.g.estimate == MostAllowed(c) + c.docs * c.writers)
       <==> c.rounds > 0 && c.writers * (c.rounds - 1) >= c.limit / c.docs
  {
    var n := c.limit / c.docs;
    MulPlus(c.docs, n, c.writers);
    FullWhen(c);
    hide MostBatches;
    var t := BackPressureTight(c);
    if s :| Reachable(c, s) && s.g.estimate == MostAllowed(c) + c.docs * c.writers {
      MostRowsBound(c, s);
      Cancelled(c.docs, n + c.writers, MostBatches(c));
    }
  }

  lemma FullWhen(c: Config)
    requires c.docs > 0 && c.writers > 0
    ensures MostBatches(c) <= c.limit / c.docs + c.writers
    ensures MostBatches(c) >= c.limit / c.docs + c.writers
       <==> c.rounds > 0 && c.writers * (c.rounds - 1) >= c.limit / c.docs
  {
    if c.rounds > 0 { MostSplits(c); }
  }

  lemma Cancelled(d: nat, a: int, b: int)
    requires d > 0 && d * a <= d * b
    ensures a <= b
  {
    if a > b {
      MulMono(b + 1, a, d);
      MulPlus(d, b, 1);
    }
  }

  // --------------------------------------------------------------------------
  // When the deleter asks for a partition that is not there
  // --------------------------------------------------------------------------

  /** All rows the writers may insert. */
  function AllRows(c: Config): nat {
    c.docs * (c.writers * c.rounds)
  }

  lemma FirstDropSafe(c: Config, s: State)
    requires c.docs > 0 && Reachable(c, s)
    requires LeastOver(c) >= c.partitionRows || AllRows(c) <= c.deleteAt
    ensures !(s.d.pc.Missed? && s.d.pc.first)
  {
    ReachableInv(c, s);
    InsertsBounded(c, s);
    if s.d.pc.Missed? && s.d.pc.first {
      NextMultiple(c.docs, c.deleteAt, s.d.pc.estimate);
      assert false;
    }
  }

  lemma FirstDropMissRun(c: Config) returns (t: State)
    requires c.docs > 0 && c.limit >= c.deleteAt
    requires LeastOver(c) < c.partitionRows && AllRows(c) > c.deleteAt
    ensures Reachable(c, t) && t.d.pc.Missed? && t.d.pc.first
  {
    var z, n := Init(c), c.deleteAt / c.docs + 1;
    DividesTimes(c.docs, 0);
    LastMultiple(c.docs, c.deleteAt, 0);
    RoundsReach(c, n);
    var s := FirstRounds(c, c.rounds, n);
    var e := s.g.estimate;
    NextMultiple(c.docs, c.deleteAt, e) by { DividesTimes(c.docs, n); }
    t := s;
    for k := 0 to 6
      invariant RunsTo(c, z, t) && t.g == s.g && t == s.(d := s.d.(pc := t.d.pc))
      invariant k == 0 ==> t.d.pc == TopOfLoop
      invariant k == 1 ==> t.d.pc == ReadEstimate
      invariant k == 2 ==> t.d.pc == ReadInserts(e)
      invariant k == 3 ==> t.d.pc == MaybeClose(e, e)
      invariant k == 4 ==> t.d.pc == SizeTest(e, true)
      invariant k == 5 ==> t.d.pc == DropPartition(e, true)
      invariant k == 6 ==> t.d.pc == Missed(e, true)
    {
      StepsTo(c, z, t, DeleterMoves);
      t := Step(c, t, DeleterMoves).value;
    }
  }

  /** More rows than deleteAtRows take no more batches than there are rounds. */
  lemma RoundsReach(c: Config, n: nat)
    requires c.docs > 0 && AllRows(c) > c.deleteAt && n == c.deleteAt / c.docs + 1
    ensures n <= c.writers * c.rounds && (n - 1) * c.docs <= c.deleteAt
  {
    var all := c.writers * c.rounds;
    assert c.deleteAt == (n - 1) * c.docs + c.deleteAt % c.docs;
    if all <= n - 1 {
      MulMono(all, n - 1, c.docs);
    }
  }

  /** The first drop of every pass of every run finds a partition exactly when
      the least estimate that starts dropping is at least one partition, or the
      writers' rounds never bring the estimate over deleteAtRows. */
  lemma FirstDropNeverMisses(c: Config, percentOver: nat)
    requires c.docs > 0 && c.limit == PauseLimit(c.deleteAt, percentOver)
    ensures (forall s :: Reachable(c, s) ==> !(s.d.pc.Missed? && s.d.pc.first))
       <==> LeastOver(c) >= c.partitionRows || AllRows(c) <= c.deleteAt
  {
    if LeastOver(c) >= c.partitionRows || AllRows(c) <= c.deleteAt {
      forall s | Reachable(c, s) ensures !(s.d.pc.Missed? && s.d.pc.first) {
        FirstDropSafe(c, s);
      }
    } else {
      var t := FirstDropMissRun(c);
    }
  }

  /** deleteAtRows of at least one partition is enough, whatever the batch size. */
  lemma DeleteAtCoversPartition(c: Config)
    requires c.docs > 0 && c.deleteAt >= c.partitionRows
    ensures LeastOver(c) >= c.partitionRows
  {
    DividesTimes(c.docs, c.deleteAt / c.docs + 1);
    NextMultiple(c.docs, c.deleteAt, LeastOver(c));
  }

  /** The deleter has decided to ask for a partition that is not there. */
  predicate Doomed(c: Config, d: Partitions) {
    match d.pc
    case SizeTest(e, first) => e > c.deleteAt && d.drop !in d.rows
    case DropPartition(e, first) => d.drop !in d.rows
    case Missed(e, first) => true
    case _ => false
  }

  /** No interleaving saves a doomed deleter. */
  lemma DoomedStays(c: Config, s: State, ls: seq<Label>)
    requires Doomed(c, s.d) && Exec(Machine(c), s, ls).Some?
    ensures Doomed(c, Exec(Machine(c), s, ls).value.d)
  {
    ExecKeeps(Machine(c), DoomedState(c), s, ls);
  }

  ghost function DoomedState(c: Config): State -> bool {
    (s: State) => Doomed(c, s.d)
  }

  /** After a drop the pass goes on to a missing partition exactly when the drop
      emptied the map and the rows published since the last close exceed deleteAtRows. */
  lemma LaterDropMissesIff(c: Config, s: State)
    requires Reachable(c, s) && s.d.pc.SubtractRows?
    ensures Step(c, s, DeleterMoves).Some?
    ensures Doomed(c, Step(c, s, DeleterMoves).value.d)
       <==> s.d.drop == s.d.closed
            && s.g.inserts - c.docs * CountIf(s.ws, Unpublished) - s.d.last > c.deleteAt
  {
    ReachableInv(c, s);
  }

  /** A drop that misses, at any place of a pass, misses with the map empty and
      with more than deleteAtRows rows inserted since the last close. */
  lemma MissNeedsFastWriters(c: Config, s: State)
    requires Reachable(c, s) && s.d.pc.Missed?
    ensures s.d.drop == s.d.closed && s.d.rows == map[]
    ensures s.g.inserts - s.d.last > c.deleteAt
  {
    ReachableInv(c, s);
    assert forall k :: k !in s.d.rows;
  }

  /** In a pass that will drop, some rows up to the last close are not dropped yet. */
  predicate Undrained(c: Config, d: Partitions) {
    match d.pc
    case SizeTest(e, _) => e > c.deleteAt ==> d.dropped < d.last
    case DropPartition(e, _) => d.dropped < d.last
    case SubtractRows(_) => d.dropped < d.last
    case Missed(_, _) => d.dropped < d.last
    case _ => true
  }

  /** No run has room for more than the size that starts dropping. */
  predicate NoRoom(c: Config)
    requires c.docs > 0
  {
    LeastOver(c) >= c.partitionRows && c.docs * MostBatches(c) <= LeastOver(c)
  }

  lemma StepKeepsUndrained(c: Config, s: State, l: Label)
    requires c.docs > 0 && NoRoom(c) && Reachable(c, s) && Undrained(c, s.d) && Step(c, s, l).Some?
    ensures Undrained(c, Step(c, s, l).value.d)
  {
    ReachableInv(c, s);
    if l == DeleterMoves {
      var d1 := Step(c, s, l).value.d;
      StepKeepsInv(c, s, l);
      MostRowsBound(c, s);
      if d1.pc.SizeTest? && d1.pc.estimate > c.deleteAt {
        NextMultiple(c.docs, c.deleteAt, d1.pc.estimate);
      }
    }
  }

  ghost function UndrainedState(c: Config): State -> bool
    requires c.docs > 0
  {
    (s: State) => Reachable(c, s) && Undrained(c, s.d)
  }

  /** With no room over the size that starts dropping, no drop ever misses, at
      any place of any pass of any run. */
  lemma NoDropMisses(c: Config, s: State)
    requires c.docs > 0 && NoRoom(c) && Reachable(c, s)
    ensures !s.d.pc.Missed?
  {
    var ls :| Exec(Machine(c), Init(c), ls) == Some(s);
    LeadsStart(Machine(c), Init(c));
    forall s, l | Reachable(c, s) && Undrained(c, s.d) && Step(c, s, l).Some?
      ensures Reachable(c, Step(c, s, l).value) && Undrained(c, Step(c, s, l).value.d)
    {
      LeadsTo(Machine(c), Init(c), s, l);
      StepKeepsUndrained(c, s, l);
    }
    ExecKeeps(Machine(c), UndrainedState(c), Init(c), ls);
    ReachableInv(c, s);
  }

  /** Batches of the first partition: enough to close it and to start dropping it. */
  function FirstBatches(c: Config): nat
    requires c.docs > 0
  {
    var start, close := c.deleteAt / c.docs + 1, (c.partitionRows + c.docs - 1) / c.docs;
    if start < close then close else start
  }

  lemma FirstBatchesCover(c: Config)
    requires c.docs > 0
    ensures FirstBatches(c) * c.docs > c.deleteAt && FirstBatches(c) * c.docs >= c.partitionRows
    ensures LeastOver(c) > c.deleteAt
  {
    var start, close := c.deleteAt / c.docs + 1, (c.partitionRows + c.docs - 1) / c.docs;
    DividesTimes(c.docs, 0);
    LastMultiple(c.docs, c.deleteAt, 0);
    var x := c.partitionRows + c.docs - 1;
    assert x == x / c.docs * c.docs + x % c.docs;
    assert c.deleteAt == c.deleteAt / c.docs * c.docs + c.deleteAt % c.docs;
    assert start * c.docs == c.deleteAt / c.docs * c.docs + c.docs;
    MulMono(start, FirstBatches(c), c.docs);
    MulMono(close, FirstBatches(c), c.docs);
  }

  /** With room for the rows of a partition and as many as start dropping, and
      rounds for both, a later drop does miss in some run: the second lot comes
      while the partition is being dropped. */
  lemma LaterDropMissRun(c: Config) returns (t: State)
    requires c.docs > 0
    requires (FirstBatches(c) + c.deleteAt / c.docs) * c.docs <= c.limit
    requires FirstBatches(c) + c.deleteAt / c.docs + 1 <= c.writers * c.rounds
    ensures Reachable(c, t) && t.d.pc.Missed? && !t.d.pc.first
  {
    var z, n, m, p := Init(c), FirstBatches(c), c.deleteAt / c.docs + 1, c.partitionRows;
    var x := n * c.docs;
    FirstBatchesCover(c);
    MulMono(n - 1, n + m - 1, c.docs);
    assert (n + (m - 1)) * c.docs == x + (m - 1) * c.docs;
    t := FirstRounds(c, c.rounds, n);
    var s := t;
    for k := 0 to 6
      invariant RunsTo(c, z, t) && t.g == s.g && t.ws == s.ws
      invariant k == 0 ==> t.d == s.d
      invariant k == 1 ==> t.d == s.d.(pc := ReadEstimate)
      invariant k == 2 ==> t.d == s.d.(pc := ReadInserts(x))
      invariant k == 3 ==> t.d == s.d.(pc := MaybeClose(x, x))
      invariant k == 4 ==> t.d == Partitions(SizeTest(x, true), map[0 := x], p + p, x, 0, 1, 0)
      invariant k == 5 ==> t.d == Partitions(DropPartition(x, true), map[0 := x], p + p, x, 0, 1, 0)
      invariant k == 6 ==> t.d == Partitions(SubtractRows(x), map[], p + p, x, 1, 1, 0)
    {
      StepsTo(c, z, t, DeleterMoves);
      t := Step(c, t, DeleterMoves).value;
    }
    t := Rounds(c, z, t, c.rounds, m);
    var e := m * c.docs;
    for k := 0 to 3
      invariant RunsTo(c, z, t) && t.d.drop == t.d.closed == 1 && t.d.rows == map[]
      invariant k == 0 ==> t.g.estimate == x + e && t.d.pc == SubtractRows(x)
      invariant k == 1 ==> t.d.pc == SizeTest(e, false)
      invariant k == 2 ==> t.d.pc == DropPartition(e, false)
      invariant k == 3 ==> t.d.pc == Missed(e, false)
    {
      StepsTo(c, z, t, DeleterMoves);
      t := Step(c, t, DeleterMoves).value;
    }
  }

  /** Such a configuration, although its first drops are safe: one writer, one
      row a batch, partitions of one row, a working set of one row with 200
      percent over allowed. */
  lemma LaterDropCanMiss() returns (c: Config, t: State)
    ensures c.limit == PauseLimit(c.deleteAt, 200) && c.docs > 0 && LeastOver(c) >= c.partitionRows
    ensures Reachable(c, t) && t.d.pc.Missed? && !t.d.pc.first
  {
    c := Config(1, 4, 1, 1, 1, 3);
    t := LaterDropMissRun(c);
  }
}
