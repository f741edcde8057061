/** The partitioned insert benchmark from beginning to end: slices of ids, paused
    writers, the deleter's pass, and how the run stops. */
module PartitionProgress {
  import opened Common
  import opened Runs
  import opened PartitionProtocol

  // --------------------------------------------------------------------------
  // Slices and live writers
  // --------------------------------------------------------------------------

  /** Rounds in which the writer has taken its slice of ids. */
  function Slices(w: Writer): nat {
    w.round + (if w.pc.InsertBatch? || w.pc.CountInsert? || w.pc.CountEstimate? || w.pc.RoundEnd? then 1 else 0)
  }

  /** Started and not gone. */
  predicate Alive(w: Writer) {
    !w.pc.NotStarted? && !w.pc.Gone?
  }

  /** The counters count what they are for. */
  ghost predicate Counted(c: Config, s: State) {
    && s.g.idValue == c.docs * Sum(s.ws, Slices)
    && s.g.alive == CountIf(s.ws, Alive)
    && (s.d.pc.Stopped? ==> s.g.allDone)
  }

  lemma SlicesMove(c: Config, g: Globals, w: Writer, taken: bool)
    requires WriterMove(c, g, w, taken).Some?
    ensures var (g1, w1) := WriterMove(c, g, w, taken).value;
            && ((Slices(w1) == Slices(w) && g1.idValue == g.idValue)
                || (Slices(w1) == Slices(w) + 1 && g1.idValue == g.idValue + c.docs))
            && g1.alive == g.alive - (if Alive(w) then 1 else 0) + (if Alive(w1) then 1 else 0)
            && (g.allDone ==> g1.allDone)
  {
  }

  lemma WriterKeepsCounted(c: Config, s: State, i: nat, taken: bool)
    requires Counted(c, s) && Step(c, s, WriterMoves(i, taken)).Some?
    ensures Counted(c, Step(c, s, WriterMoves(i, taken)).value)
  {
    var (g1, w1) := WriterMove(c, s.g, s.ws[i], taken).value;
    SlicesMove(c, s.g, s.ws[i], taken);
    SumUpdate(s.ws, i, w1, Slices);
    CountUpdate(s.ws, i, w1, Alive);
    MulPlus(c.docs, Sum(s.ws, Slices), 1);
    hide WriterMove;
  }

  ghost function CountedState(c: Config): State -> bool {
    (s: State) => Counted(c, s)
  }

  /** Every round takes one slice of ids, inserted or not, and the writers alive
      are those started and not gone. */
  lemma CountersCount(c: Config, s: State)
    requires Reachable(c, s)
    ensures s.g.idValue == c.docs * Sum(s.ws, Slices)
    ensures s.g.alive == CountIf(s.ws, Alive)
    ensures s.d.pc.Stopped? ==> s.g.allDone
  {
    var z := Init(c);
    var ls :| Exec(Machine(c), z, ls) == Some(s);
    CountBounds(z.ws, Alive);
    SumBounds(z.ws, Slices, 0);
    MulPlus(c.docs, 0, 0);
    forall s, l | Counted(c, s) && Step(c, s, l).Some? ensures Counted(c, Step(c, s, l).value) {
      if l.WriterMoves? { WriterKeepsCounted(c, s, l.i, l.taken); }
    }
    ExecKeeps(Machine(c), CountedState(c), z, ls);
  }

  // --------------------------------------------------------------------------
  // The end of the run
  // --------------------------------------------------------------------------

  /** A writer that leaves ends the run exactly when no other writer is alive. */
  lemma LastWriterEnds(c: Config, s: State, i: nat, taken: bool)
    requires Reachable(c, s) && i < |s.ws| && s.ws[i].pc.Leaving?
    ensures Step(c, s, WriterMoves(i, taken)).Some?
    ensures Step(c, s, WriterMoves(i, taken)).value.g.allDone
       <==> s.g.allDone || forall j :: 0 <= j < |s.ws| && j != i ==> !Alive(s.ws[j])
  {
    CountersCount(c, s);
    var w1 := s.ws[i].(pc := Gone);
    var others := s.ws[i := w1];
    CountUpdate(s.ws, i, w1, Alive);
    CountBounds(others, Alive);
    assert forall j :: 0 <= j < |s.ws| && j != i ==> others[j] == s.ws[j];
    if s.g.alive - 1 > 0 {
      var j :| 0 <= j < |others| && Alive(others[j]);
      assert j != i && Alive(s.ws[j]);
    }
    if j :| 0 <= j < |s.ws| && j != i && Alive(s.ws[j]) {
      assert Alive(others[j]);
    }
  }

  /** Once the run has ended, the writer has at most the round it is in left. */
  predicate Finishing(w: Writer, round: nat) {
    w.round <= round || (w.round == round + 1 && (w.pc.Leaving? || w.pc.Gone?))
  }

  ghost function FinishingState(c: Config, i: nat, round: nat): State -> bool {
    (s: State) => s.g.allDone && i < |s.ws| && Finishing(s.ws[i], round)
  }

  /** After the end of the run every writer finishes at most one more round, and
      is then gone or on its way out. */
  lemma WritersStop(c: Config, s: State, ls: seq<Label>, i: nat)
    requires s.g.allDone && i < |s.ws| && Exec(Machine(c), s, ls).Some?
    ensures var t := Exec(Machine(c), s, ls).value;
            t.g.allDone && i < |t.ws| && Finishing(t.ws[i], s.ws[i].round)
  {
    ExecKeeps(Machine(c), FinishingState(c, i, s.ws[i].round), s, ls);
  }

  /** The deleter's variables, its place aside. */
  predicate SameBooks(d: Partitions, e: Partitions) {
    d == e.(pc := d.pc)
  }

  ghost function DeleterOver(d: Partitions): State -> bool {
    (s: State) => s.g.allDone && (s.d.pc.TopOfLoop? || s.d.pc.Stopped?) && SameBooks(s.d, d)
  }

  /** A deleter between two passes at the end of the run begins no other: it
      closes and drops nothing more, and its next step stops it. */
  lemma DeleterStops(c: Config, s: State, ls: seq<Label>)
    requires s.g.allDone && s.d.pc.TopOfLoop? && Exec(Machine(c), s, ls).Some?
    ensures var t := Exec(Machine(c), s, ls).value;
            && SameBooks(t.d, s.d) && (t.d.pc.TopOfLoop? || t.d.pc.Stopped?)
            && (t.d.pc.TopOfLoop? ==>
                  Step(c, t, DeleterMoves).Some? && Step(c, t, DeleterMoves).value.d.pc.Stopped?)
  {
    ExecKeeps(Machine(c), DeleterOver(s.d), s, ls);
  }

  // --------------------------------------------------------------------------
  // Writers go on, and the deleter catches up
  // --------------------------------------------------------------------------

  /** A paused writer looks again: with the size within the limit it goes on
      after at most two steps of its own. */
  lemma PausedWriterGoesOn(c: Config, s: State, i: nat)
    requires i < |s.ws| && s.ws[i].pc.SizeCheck? && s.g.estimate <= c.limit
    ensures exists ls :: |ls| <= 2 && (forall l :: l in ls ==> l == WriterMoves(i, true))
              && Exec(Machine(c), s, ls) == Some(s.(ws := s.ws[i := s.ws[i].(pc := TakeSlice)]))
  {
    var l := WriterMoves(i, true);
    var t := s.(ws := s.ws[i := s.ws[i].(pc := TakeSlice)]);
    if s.ws[i].pc.estimate <= c.limit {
      TwoSteps(c, s, l, t, l, t, false);
    } else {
      var s1 := s.(ws := s.ws[i := s.ws[i].(pc := SizeCheck(s.g.estimate))]);
      assert s1.ws[i := s.ws[i].(pc := TakeSlice)] == t.ws;
      TwoSteps(c, s, l, s1, l, t, true);
    }
  }

  lemma TwoSteps(c: Config, s: State, a: Label, s1: State, b: Label, s2: State, both: bool)
    requires Step(c, s, a) == Some(s1) && (both ==> Step(c, s1, b) == Some(s2))
    ensures Exec(Machine(c), s, [a]) == Some(s1)
    ensures both ==> Exec(Machine(c), s, [a] + [b]) == Some(s2)
  {
    assert [a][1..] == [] && ([a] + [b])[1..] == [b] && [b][1..] == [];
    assert Exec(Machine(c), s1, []) == Some(s1) && Exec(Machine(c), s2, []) == Some(s2);
  }

  /** Only the deleter moves. */
  function Alone(c: Config): (State, Label) -> Option<State> {
    (s, l) => if l == DeleterMoves then Step(c, s, l) else None
  }

  lemma AloneStep(c: Config, z: State, s: State) returns (t: State)
    requires Leads(Alone(c), z, s) && Step(c, s, DeleterMoves).Some?
    ensures t == Step(c, s, DeleterMoves).value && Leads(Alone(c), z, t)
  {
    LeadsTo(Alone(c), z, s, DeleterMoves);
    t := Step(c, s, DeleterMoves).value;
  }

  /** The rows of a pass that begins at s: with a partition closed if one is due. */
  function Books(c: Config, s: State): Partitions {
    if s.g.inserts >= s.d.next then
      s.d.(rows := s.d.rows[s.d.closed := s.g.inserts - s.d.last], last := s.g.inserts,
           next := s.d.next + c.partitionRows, closed := s.d.closed + 1)
    else s.d
  }

  /** The drops of a pass: partitions go, oldest first, while the size is above
      deleteAtRows, and no longer. */
  lemma {:induction false} Sweep(c: Config, z: State, s: State) returns (t: State)
    requires Leads(Alone(c), z, s) && PartitionsTile(s.d)
    requires s.d.pc.SizeTest? && s.d.pc.estimate == s.g.estimate
    ensures Leads(Alone(c), z, t) && t.ws == s.ws && t.g == s.g.(estimate := t.g.estimate)
    ensures t.d.pc.TopOfLoop? || t.d.pc.Missed?
    ensures t.d.pc.TopOfLoop? ==> t.g.estimate <= c.deleteAt
    ensures t.d.pc.Missed? ==> t.g.estimate > c.deleteAt && t.d.drop == t.d.closed
    ensures t.d.last == s.d.last && t.d.next == s.d.next && t.d.closed == s.d.closed
    ensures s.d.drop <= t.d.drop <= s.d.closed
    ensures t.d.drop > s.d.drop ==>
              t.d.drop - 1 in s.d.rows && t.g.estimate + s.d.rows[t.d.drop - 1] > c.deleteAt
    ensures s.g.estimate <= c.deleteAt ==> t.d.drop == s.d.drop
    ensures t.d.drop == s.d.drop ==> t.g.estimate == s.g.estimate
    decreases s.d.closed - s.d.drop
  {
    t := AloneStep(c, z, s);
    if s.g.estimate > c.deleteAt {
      t := AloneStep(c, z, t);
      if s.d.drop in s.d.rows {
        DropKeepsTile(s.d.(pc := DropPartition(s.g.estimate, s.d.pc.first)));
        var u := AloneStep(c, z, t);
        t := Sweep(c, z, u);
      }
    }
  }

  /** A pass that meets no writer: it closes one partition with all rows inserted
      since the last close if they fill it, drops as many as it must and no more,
      and ends within deleteAtRows or by asking for a partition that is not there. */
  lemma QuietPass(c: Config, s: State) returns (t: State)
    requires Reachable(c, s) && s.d.pc.TopOfLoop? && !s.g.allDone
    ensures Leads(Alone(c), s, t) && t.ws == s.ws && t.g == s.g.(estimate := t.g.estimate)
    ensures t.d.pc.TopOfLoop? || t.d.pc.Missed?
    ensures t.d.pc.TopOfLoop? ==> t.g.estimate <= c.deleteAt
    ensures t.d.pc.Missed? ==> t.g.estimate > c.deleteAt && t.d.drop == t.d.closed
    ensures t.d.last == (if s.g.inserts >= s.d.next then s.g.inserts else s.d.last)
    ensures t.d.closed == (if s.g.inserts >= s.d.next then s.d.closed + 1 else s.d.closed)
    ensures s.d.drop <= t.d.drop <= t.d.closed
    ensures t.d.drop > s.d.drop ==>
              t.d.drop - 1 in Books(c, s).rows && t.g.estimate + Books(c, s).rows[t.d.drop - 1] > c.deleteAt
    ensures s.g.estimate <= c.deleteAt ==> t.d.drop == s.d.drop
  {
    ReachableInv(c, s);
    var u := PassBegins(c, s);
    t := Sweep(c, s, u);
  }

  /** The reads and the close of a pass. */
  lemma PassBegins(c: Config, s: State) returns (t: State)
    requires s.d.pc.TopOfLoop? && !s.g.allDone && PartitionsTile(s.d) && s.d.last <= s.g.inserts
    ensures Leads(Alone(c), s, t) && PartitionsTile(t.d)
    ensures t == s.(d := Books(c, s).(pc := SizeTest(s.g.estimate, true)))
  {
    hide PartitionsTile;
    LeadsStart(Alone(c), s);
    t := AloneStep(c, s, s);
    t := AloneStep(c, s, t);
    t := AloneStep(c, s, t);
    t := AloneStep(c, s, t);
    BooksTile(c, s);
  }

  lemma BooksTile(c: Config, s: State)
    requires s.d.pc.TopOfLoop? && PartitionsTile(s.d) && s.d.last <= s.g.inserts
    ensures PartitionsTile(Books(c, s).(pc := SizeTest(s.g.estimate, true)))
  {
    if s.g.inserts >= s.d.next {
      CloseKeepsTile(s.d, s.g.inserts, s.d.next + c.partitionRows, SizeTest(s.g.estimate, true));
    }
  }

  // --------------------------------------------------------------------------
  // The two thresholds
  // --------------------------------------------------------------------------

  /** The pause limit is percentOverAllowed percent over deleteAtRows, rounded down. */
  lemma PauseLimitIs(deleteAt: nat, percentOver: nat)
    ensures var over := PauseLimit(deleteAt, percentOver) - deleteAt;
            100 * over <= deleteAt * percentOver < 100 * (over + 1)
  {
  }

  /** LeastOver is the least multiple of the batch size above deleteAtRows. */
  lemma LeastOverIs(c: Config, m: int)
    requires c.docs > 0
    ensures Divides(c.docs, LeastOver(c)) && LeastOver(c) > c.deleteAt
    ensures Divides(c.docs, m) && m > c.deleteAt ==> m >= LeastOver(c)
  {
    DividesTimes(c.docs, c.deleteAt / c.docs + 1);
    NextMultiple(c.docs, c.deleteAt, (c.deleteAt + 1) * c.docs) by {
      DividesTimes(c.docs, c.deleteAt + 1);
      MulMono(1, c.docs, c.deleteAt + 1);
    }
    if Divides(c.docs, m) && m > c.deleteAt {
      NextMultiple(c.docs, c.deleteAt, m);
    }
  }
}
