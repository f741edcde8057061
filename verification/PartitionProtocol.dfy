/** The writers and the partition deleter of the partitioned insert benchmark
    (jmongoiibench, usePartitioning = "y") as one step system.

    Every read or update of a shared atomic is one step, so any interleaving of
    any number of writers with the deleter and the end of the run is a sequence
    of labels. Sleeping, the rate limit and the generated document fields are not
    part of the state. */
module PartitionProtocol {
  import opened Common
  import opened Runs

  datatype Config = Config(
    writers: nat,        // writerThreads
    rounds: nat,         // rounds of each writer: numMaxInserts / documentsPerInsert
    docs: nat,           // documentsPerInsert
    partitionRows: nat,
    deleteAt: nat,       // deleteAtRows
    limit: nat           // the size above which a writer pauses
  )

  /** The pause limit of the writers: deleteAtRows and percentOverAllowed percent more. */
  function PauseLimit(deleteAt: nat, percentOver: nat): nat {
    deleteAt + deleteAt * percentOver / 100
  }

  /** The least multiple of the batch size above deleteAtRows. */
  function LeastOver(c: Config): nat
    requires c.docs > 0
  {
    (c.deleteAt / c.docs + 1) * c.docs
  }

  /** The greatest multiple of the batch size a writer may still add to. */
  function MostAllowed(c: Config): nat
    requires c.docs > 0
  {
    (c.limit / c.docs) * c.docs
  }

  /** Where a writer stands in MyWriter.run. */
  datatype WriterPc =
    | NotStarted
    | LoopTest
    | AtHead
    | SizeCheck(estimate: int)
    | TakeSlice
    | InsertBatch(id: nat)
    | CountInsert
    | CountEstimate
    | RoundEnd
    | Leaving
    | Gone

  /** A writer, and the rounds it has finished. */
  datatype Writer = Writer(pc: WriterPc, round: nat)

  /** Past the size check, but its rows are not in the estimate yet. */
  predicate PastCheck(w: Writer) {
    w.pc.TakeSlice? || w.pc.InsertBatch? || w.pc.CountInsert? || w.pc.CountEstimate?
  }

  /** Past the size check, or holding a size that will pass it. */
  function Admitted(c: Config): Writer -> bool {
    w => PastCheck(w) || (w.pc.SizeCheck? && w.pc.estimate <= c.limit)
  }

  /** Its rows are in globalInserts but not in globalEstimatedRows yet. */
  predicate Unpublished(w: Writer) { w.pc.CountEstimate? }

  /** Where the deleter stands in MyDelete.run. `first` tells the first drop of a pass. */
  datatype Deleter =
    | TopOfLoop
    | ReadEstimate
    | ReadInserts(estimate: int)
    | MaybeClose(estimate: int, inserts: nat)
    | SizeTest(estimate: int, first: bool)
    | DropPartition(estimate: int, first: bool)
    | SubtractRows(rows: int)
    | Missed(estimate: int, first: bool)
    | Stopped

  /** The shared atomics, and the first _id of every batch inserted so far. */
  datatype Globals = Globals(
    inserts: nat,            // globalInserts
    estimate: int,           // globalEstimatedRows
    idValue: nat,            // globalIdValue
    alive: int,              // globalWriterThreads
    allDone: bool,
    starts: set<nat>
  )

  /** The deleter's own variables. */
  datatype Partitions = Partitions(
    pc: Deleter,
    rows: map<nat, int>,     // mapPartitions
    next: nat,               // numRowsNextPartition
    last: nat,               // numRowsLastPartition
    drop: nat,               // dropPartitionNumber
    closed: nat,             // closedPartitionNumber
    dropped: int             // rows taken out of the estimate so far
  )

  datatype State = State(g: Globals, ws: seq<Writer>, d: Partitions)

  function Init(c: Config): State {
    State(Globals(0, 0, 0, 0, false, {}),
          seq(c.writers, _ => Writer(NotStarted, 0)),
          Partitions(TopOfLoop, map[], c.partitionRows, 0, 0, 0, 0))
  }

  datatype Label =
    | WriterMoves(i: nat, taken: bool)
    | DeleterMoves
    | TimeUp             // the reporter thread ends the run

  /** One step of a writer: the new globals, and the writer then. `taken` is
      what the environment decides: whether the insert succeeds. */
  function WriterMove(c: Config, g: Globals, w: Writer, taken: bool): Option<(Globals, Writer)> {
    match w.pc
    case NotStarted => Some((g.(alive := g.alive + 1), w.(pc := LoopTest)))
    case LoopTest => Some((g, w.(pc := if w.round < c.rounds then AtHead else Leaving)))
    case AtHead => Some((g, w.(pc := SizeCheck(g.estimate))))
    case SizeCheck(e) => Some((g, w.(pc := if e > c.limit then SizeCheck(g.estimate) else TakeSlice)))
    case TakeSlice => Some((g.(idValue := g.idValue + c.docs), w.(pc := InsertBatch(g.idValue + c.docs))))
    case InsertBatch(id) =>
      if taken then Some((g.(starts := g.starts + {id}), w.(pc := CountInsert))) else Some((g, w.(pc := RoundEnd)))
    case CountInsert => Some((g.(inserts := g.inserts + c.docs), w.(pc := CountEstimate)))
    case CountEstimate => Some((g.(estimate := g.estimate + c.docs), w.(pc := RoundEnd)))
    case RoundEnd => Some((g, Writer(if g.allDone then Leaving else LoopTest, w.round + 1)))
    case Leaving =>
      Some((g.(alive := g.alive - 1, allDone := g.allDone || g.alive - 1 == 0), w.(pc := Gone)))
    case Gone => None
  }

  /** One step of the deleter. Asking the partition map for a number it does
      not hold ends the thread: the missing value cannot be unboxed. */
  function DeleterMove(c: Config, g: Globals, d: Partitions): Option<(Globals, Partitions)> {
    match d.pc
    case TopOfLoop => Some((g, d.(pc := if g.allDone then Stopped else ReadEstimate)))
    case ReadEstimate => Some((g, d.(pc := ReadInserts(g.estimate))))
    case ReadInserts(e) => Some((g, d.(pc := MaybeClose(e, g.inserts))))
    case MaybeClose(e, ins) =>
      if ins >= d.next then
        Some((g, d.(rows := d.rows[d.closed := ins - d.last], last := ins,
                    next := d.next + c.partitionRows, closed := d.closed + 1, pc := SizeTest(e, true))))
      else
        Some((g, d.(pc := SizeTest(e, true))))
    case SizeTest(e, first) =>
      Some((g, d.(pc := if e > c.deleteAt then DropPartition(e, first) else TopOfLoop)))
    case DropPartition(e, first) =>
      if d.drop in d.rows then
        Some((g, d.(rows := d.rows - {d.drop}, drop := d.drop + 1, pc := SubtractRows(d.rows[d.drop]))))
      else
        Some((g, d.(pc := Missed(e, first))))
    case SubtractRows(n) =>
      Some((g.(estimate := g.estimate - n),
            d.(dropped := d.dropped + n, pc := SizeTest(g.estimate - n, false))))
    case Missed(_, _) => None
    case Stopped => None
  }

  function Step(c: Config, s: State, l: Label): Option<State> {
    match l
    case WriterMoves(i, taken) =>
      if i >= |s.ws| then None
      else (match WriterMove(c, s.g, s.ws[i], taken)
            case None => None
            case Some((g, w)) => Some(s.(g := g, ws := s.ws[i := w])))
    case DeleterMoves =>
      (match DeleterMove(c, s.g, s.d)
       case None => None
       case Some((g, d)) => Some(s.(g := g, d := d)))
    case TimeUp => Some(s.(g := s.g.(allDone := true)))
  }

  function Machine(c: Config): (State, Label) -> Option<State> {
    (s, l) => Step(c, s, l)
  }

  ghost predicate Reachable(c: Config, s: State) {
    Leads(Machine(c), Init(c), s)
  }

  // --------------------------------------------------------------------------
  // The invariant
  // --------------------------------------------------------------------------

  /** Rows recorded for partitions lo..hi-1. */
  ghost function RowsIn(m: map<nat, int>, lo: nat, hi: nat): int
    decreases hi - lo
  {
    if lo >= hi then 0 else (if lo in m then m[lo] else 0) + RowsIn(m, lo + 1, hi)
  }

  /** Rows taken out of the partition map whose subtraction is still to come. */
  function Pending(d: Partitions): int {
    if d.pc.SubtractRows? then d.pc.rows else 0
  }

  /** The map holds exactly the closed, not yet dropped partitions, and every
      row up to the last close is in one of them, dropped, or being dropped. */
  ghost predicate PartitionsTile(d: Partitions) {
    && d.drop <= d.closed
    && (forall k: nat :: k in d.rows <==> d.drop <= k < d.closed)
    && (forall k: nat :: k in d.rows ==> d.rows[k] >= 0)
    && RowsIn(d.rows, d.drop, d.closed) + Pending(d) + d.dropped == d.last
    && Pending(d) >= 0 && d.dropped >= 0
  }

  /** Rows counted as inserted are estimated, dropped, or about to be published. */
  ghost predicate Counters(c: Config, s: State) {
    && |s.ws| == c.writers
    && s.g.estimate + s.d.dropped + c.docs * CountIf(s.ws, Unpublished) == s.g.inserts
    && s.d.last <= s.g.inserts
    && s.d.next <= s.d.last + c.partitionRows
  }

  ghost predicate BatchMultiples(docs: nat, g: Globals, d: Partitions) {
    && Divides(docs, g.inserts) && Divides(docs, g.estimate)
    && Divides(docs, d.last) && Divides(docs, d.dropped) && Divides(docs, Pending(d))
    && (forall k :: k in d.rows ==> Divides(docs, d.rows[k]))
  }

  /** What the values in the deleter's local variables still mean. */
  ghost predicate DeleterKnows(c: Config, inserts: nat, d: Partitions) {
    match d.pc
    case ReadInserts(e) => e + d.dropped <= inserts && Divides(c.docs, e)
    case MaybeClose(e, ins) =>
      d.last <= ins <= inserts && e + d.dropped <= ins && Divides(c.docs, e) && Divides(c.docs, ins)
    case SizeTest(e, first) => PassKnows(c, inserts, d, e, first)
    case DropPartition(e, first) => e > c.deleteAt && PassKnows(c, inserts, d, e, first)
    case Missed(e, first) => e > c.deleteAt && PassKnows(c, inserts, d, e, first) && d.drop == d.closed
    case _ => true
  }

  /** In a pass: on the first test, either a partition is there to drop or too
      few rows came since the last close, and a close covers the size read. */
  ghost predicate PassKnows(c: Config, inserts: nat, d: Partitions, e: int, first: bool) {
    && Divides(c.docs, e)
    && e + d.dropped <= inserts
    && (first ==> d.drop < d.closed || e + d.dropped < d.last + c.partitionRows)
    && (first ==> e + d.dropped <= d.last || e + d.dropped < d.last + c.partitionRows)
  }

  /** Rows estimated plus rows admitted stay within `most` plus one batch a writer. */
  ghost predicate BackPressure(c: Config, s: State, most: int) {
    s.g.estimate + c.docs * CountIf(s.ws, Admitted(c)) <= most + c.docs * c.writers
  }

  /** Between the loop test and the end of the round. */
  predicate InRound(pc: WriterPc) {
    || pc.AtHead? || pc.SizeCheck? || pc.TakeSlice? || pc.InsertBatch?
    || pc.CountInsert? || pc.CountEstimate? || pc.RoundEnd?
  }

  /** The rounds of a writer that globalInserts may count. */
  function Begun(w: Writer): nat {
    w.round + if w.pc.CountEstimate? || w.pc.RoundEnd? then 1 else 0
  }

  predicate RoundsKept(rounds: nat, w: Writer) {
    w.round + (if InRound(w.pc) then 1 else 0) <= rounds
  }

  /** No writer exceeds its rounds, and globalInserts counts at most a batch a round. */
  ghost predicate RoundsBound(c: Config, s: State) {
    && (forall i :: 0 <= i < |s.ws| ==> RoundsKept(c.rounds, s.ws[i]))
    && s.g.inserts <= c.docs * Sum(s.ws, Begun)
  }

  /** The next close is due at the end of the partition after the closed ones,
      and each close had that many rows. */
  predicate Schedule(c: Config, d: Partitions) {
    d.next == (d.closed + 1) * c.partitionRows && d.closed * c.partitionRows <= d.last
  }

  ghost predicate Inv(c: Config, s: State) {
    && Schedule(c, s.d)
    && PartitionsTile(s.d)
    && Counters(c, s)
    && BatchMultiples(c.docs, s.g, s.d)
    && DeleterKnows(c, s.g.inserts, s.d)
    && RoundsBound(c, s)
  }

  // --------------------------------------------------------------------------
  // Every step keeps it
  // --------------------------------------------------------------------------

  lemma {:induction false} RowsInAgree(m: map<nat, int>, n: map<nat, int>, lo: nat, hi: nat)
    requires forall k: nat :: lo <= k < hi ==> (k in m <==> k in n) && (k in m ==> m[k] == n[k])
    ensures RowsIn(m, lo, hi) == RowsIn(n, lo, hi)
    decreases hi - lo
  {
    if lo < hi { RowsInAgree(m, n, lo + 1, hi); }
  }

  lemma {:induction false} RowsInPut(m: map<nat, int>, lo: nat, hi: nat, rows: int)
    requires lo <= hi
    ensures RowsIn(m[hi := rows], lo, hi + 1) == RowsIn(m, lo, hi) + rows
    decreases hi - lo
  {
    if lo < hi {
      RowsInPut(m, lo + 1, hi, rows);
    } else {
      assert RowsIn(m[hi := rows], hi + 1, hi + 1) == 0;
    }
  }

  lemma InitInv(c: Config)
    ensures Inv(c, Init(c))
    ensures BackPressure(c, Init(c), 0)
  {
    var s := Init(c);
    CountBounds(s.ws, Unpublished);
    CountBounds(s.ws, Admitted(c));
    assert CountIf(s.ws, Unpublished) == 0;
    assert CountIf(s.ws, Admitted(c)) == 0;
    DividesTimes(c.docs, 0);
    assert c.docs * Sum(s.ws, Begun) >= 0;
  }

  lemma MulPlus(d: nat, a: int, b: int)
    ensures d * (a + b) == d * a + d * b
  {
  }

  lemma CloseKeepsTile(d: Partitions, ins: nat, next: nat, pc: Deleter)
    requires PartitionsTile(d) && Pending(d) == 0 && d.last <= ins && !pc.SubtractRows?
    ensures PartitionsTile(Partitions(pc, d.rows[d.closed := ins - d.last], next, ins,
                                      d.drop, d.closed + 1, d.dropped))
  {
    RowsInPut(d.rows, d.drop, d.closed, ins - d.last);
  }

  lemma DropKeepsTile(d: Partitions)
    requires PartitionsTile(d) && Pending(d) == 0 && d.drop in d.rows
    ensures PartitionsTile(Partitions(SubtractRows(d.rows[d.drop]), d.rows - {d.drop}, d.next, d.last,
                                      d.drop + 1, d.closed, d.dropped))
  {
    RowsInAgree(d.rows, d.rows - {d.drop}, d.drop + 1, d.closed);
  }

  lemma DeleterKeepsTile(c: Config, g: Globals, d: Partitions)
    requires PartitionsTile(d) && DeleterMove(c, g, d).Some?
    requires d.pc.MaybeClose? ==> d.last <= d.pc.inserts
    ensures PartitionsTile(DeleterMove(c, g, d).value.1)
  {
    hide RowsIn;
    if d.pc.MaybeClose? && d.pc.inserts >= d.next {
      CloseKeepsTile(d, d.pc.inserts, d.next + c.partitionRows, SizeTest(d.pc.estimate, true));
    } else if d.pc.DropPartition? && d.drop in d.rows {
      DropKeepsTile(d);
    }
  }

  lemma DeleterKeepsMultiples(c: Config, g: Globals, d: Partitions)
    requires BatchMultiples(c.docs, g, d) && DeleterKnows(c, g.inserts, d) && DeleterMove(c, g, d).Some?
    ensures var (g1, d1) := DeleterMove(c, g, d).value; BatchMultiples(c.docs, g1, d1)
  {
    DividesTimes(c.docs, 0);
    match d.pc {
      case MaybeClose(e, ins) => DividesSum(c.docs, ins, d.last);
      case SubtractRows(n) =>
        DividesSum(c.docs, g.estimate, n);
        DividesSum(c.docs, d.dropped, n);
      case _ =>
    }
  }

  lemma DeleterKeepsKnows(c: Config, g: Globals, d: Partitions)
    requires PartitionsTile(d) && BatchMultiples(c.docs, g, d) && DeleterKnows(c, g.inserts, d)
    requires g.estimate + d.dropped <= g.inserts && d.last <= g.inserts && d.next <= d.last + c.partitionRows
    requires DeleterMove(c, g, d).Some?
    ensures var (g1, d1) := DeleterMove(c, g, d).value; DeleterKnows(c, g1.inserts, d1)
  {
    if d.pc.SubtractRows? {
      DividesSum(c.docs, g.estimate, d.pc.rows);
    }
  }

  lemma DeleterKeepsCounters(c: Config, g: Globals, d: Partitions)
    requires DeleterKnows(c, g.inserts, d) && DeleterMove(c, g, d).Some?
    requires d.last <= g.inserts && d.next <= d.last + c.partitionRows
    ensures var (g1, d1) := DeleterMove(c, g, d).value;
            && g1.estimate + d1.dropped == g.estimate + d.dropped && g1.inserts == g.inserts
            && d1.last <= g1.inserts && d1.next <= d1.last + c.partitionRows
  {
  }

  lemma DeleterKeepsSchedule(c: Config, g: Globals, d: Partitions)
    requires Schedule(c, d) && DeleterMove(c, g, d).Some?
    ensures Schedule(c, DeleterMove(c, g, d).value.1)
  {
    assert (d.closed + 2) * c.partitionRows == (d.closed + 1) * c.partitionRows + c.partitionRows;
  }

  lemma DeleterKeepsInv(c: Config, s: State)
    requires Inv(c, s) && Step(c, s, DeleterMoves).Some?
    ensures Inv(c, Step(c, s, DeleterMoves).value)
  {
    hide Schedule;
    assert c.docs * CountIf(s.ws, Unpublished) >= 0;
    DeleterKeepsSchedule(c, s.g, s.d);
    DeleterKeepsTile(c, s.g, s.d);
    DeleterKeepsMultiples(c, s.g, s.d);
    DeleterKeepsCounters(c, s.g, s.d);
    DeleterKeepsKnows(c, s.g, s.d);
  }

  lemma WriterKeepsCounters(c: Config, s: State, i: nat, taken: bool)
    requires Counters(c, s) && Step(c, s, WriterMoves(i, taken)).Some?
    ensures Counters(c, Step(c, s, WriterMoves(i, taken)).value)
  {
    var w1 := WriterMove(c, s.g, s.ws[i], taken).value.1;
    CountUpdate(s.ws, i, w1, Unpublished);
    MulPlus(c.docs, CountIf(s.ws, Unpublished), 1);
    MulPlus(c.docs, CountIf(s.ws, Unpublished), -1);
  }

  /** A writer is admitted only by a size within the limit, and gives up its
      admission when it publishes its rows. */
  lemma AdmissionMoves(c: Config, g: Globals, w: Writer, taken: bool)
    requires WriterMove(c, g, w, taken).Some?
    ensures var (g1, w1) := WriterMove(c, g, w, taken).value;
            && (g1.estimate == g.estimate
                || (g1.estimate == g.estimate + c.docs && Admitted(c)(w) && !Admitted(c)(w1)))
            && (Admitted(c)(w1) ==> Admitted(c)(w) || g.estimate <= c.limit)
  {
  }

  lemma WriterKeepsPressure(c: Config, s: State, i: nat, taken: bool, most: int)
    requires |s.ws| == c.writers && BackPressure(c, s, most)
    requires s.g.estimate <= c.limit ==> s.g.estimate <= most
    requires Step(c, s, WriterMoves(i, taken)).Some?
    ensures BackPressure(c, Step(c, s, WriterMoves(i, taken)).value, most)
  {
    AdmissionMoves(c, s.g, s.ws[i], taken);
    var (g1, w1) := WriterMove(c, s.g, s.ws[i], taken).value;
    var n, n1 := CountIf(s.ws, Admitted(c)), CountIf(s.ws[i := w1], Admitted(c));
    CountUpdate(s.ws, i, w1, Admitted(c));
    CountBounds(s.ws[i := w1], Admitted(c));
    PressureBounds(c.docs, s.g.estimate, n, n1, c.writers, most);
  }

  lemma PressureBounds(d: nat, e: int, n: nat, n1: nat, writers: nat, most: int)
    requires e + d * n <= most + d * writers
    ensures n1 == n ==> e + d * n1 <= most + d * writers
    ensures n1 == n - 1 ==> e + d * n1 + d <= most + d * writers
    ensures n1 <= writers && e <= most ==> e + d * n1 <= most + d * writers
  {
    if n1 == n - 1 { MulPlus(d, n, -1); }
    if n1 <= writers { MulMono(n1, writers, d); }
  }

  lemma WriterKeepsMultiples(c: Config, g: Globals, w: Writer, taken: bool, d: Partitions)
    requires BatchMultiples(c.docs, g, d) && WriterMove(c, g, w, taken).Some?
    ensures BatchMultiples(c.docs, WriterMove(c, g, w, taken).value.0, d)
  {
    DividesTimes(c.docs, 1);
    DividesSum(c.docs, g.inserts, c.docs);
    DividesSum(c.docs, g.estimate, c.docs);
  }

  lemma WriterKeepsRounds(c: Config, s: State, i: nat, taken: bool)
    requires RoundsBound(c, s) && Step(c, s, WriterMoves(i, taken)).Some?
    ensures RoundsBound(c, Step(c, s, WriterMoves(i, taken)).value)
  {
    var (g1, w1) := WriterMove(c, s.g, s.ws[i], taken).value;
    RoundMoves(c, s.g, s.ws[i], taken);
    SumUpdate(s.ws, i, w1, Begun);
    var n, n1 := Sum(s.ws, Begun), Sum(s.ws[i := w1], Begun);
    MulMono(n, n1, c.docs);
    if n1 > n {
      MulPlus(c.docs, n, 1);
      MulMono(n + 1, n1, c.docs);
    }
  }

  lemma RoundMoves(c: Config, g: Globals, w: Writer, taken: bool)
    requires RoundsKept(c.rounds, w) && WriterMove(c, g, w, taken).Some?
    ensures var (g1, w1) := WriterMove(c, g, w, taken).value;
            && RoundsKept(c.rounds, w1) && Begun(w) <= Begun(w1)
            && (g1.inserts == g.inserts || (g1.inserts == g.inserts + c.docs && Begun(w1) > Begun(w)))
  {
  }

  lemma WriterKeepsInv(c: Config, s: State, i: nat, taken: bool)
    requires Inv(c, s) && Step(c, s, WriterMoves(i, taken)).Some?
    ensures Inv(c, Step(c, s, WriterMoves(i, taken)).value)
  {
    WriterKeepsCounters(c, s, i, taken);
    WriterKeepsMultiples(c, s.g, s.ws[i], taken, s.d);
    WriterKeepsRounds(c, s, i, taken);
  }

  lemma StepKeepsInv(c: Config, s: State, l: Label)
    requires Inv(c, s) && Step(c, s, l).Some?
    ensures Inv(c, Step(c, s, l).value)
  {
    match l
    case WriterMoves(i, taken) => WriterKeepsInv(c, s, i, taken);
    case DeleterMoves => DeleterKeepsInv(c, s);
    case TimeUp =>
  }

  /** Only a writer's publication raises the estimate. */
  lemma StepKeepsPressure(c: Config, s: State, l: Label, most: int)
    requires Inv(c, s) && BackPressure(c, s, most) && Step(c, s, l).Some?
    requires s.g.estimate <= c.limit ==> s.g.estimate <= most
    ensures BackPressure(c, Step(c, s, l).value, most)
  {
    match l
    case WriterMoves(i, taken) => WriterKeepsPressure(c, s, i, taken, most);
    case _ =>
  }

  ghost function Invariant(c: Config): State -> bool {
    s => Inv(c, s)
  }

  ghost function Pressed(c: Config): State -> bool
    requires c.docs > 0
  {
    s => Inv(c, s) && BackPressure(c, s, MostAllowed(c))
  }

  lemma ExecKeepsInv(c: Config, s: State, ls: seq<Label>)
    requires Inv(c, s) && Exec(Machine(c), s, ls).Some?
    ensures Inv(c, Exec(Machine(c), s, ls).value)
  {
    forall s, l | Inv(c, s) && Step(c, s, l).Some? ensures Inv(c, Step(c, s, l).value) {
      StepKeepsInv(c, s, l);
    }
    ExecKeeps(Machine(c), Invariant(c), s, ls);
  }

  lemma ExecKeepsPressure(c: Config, s: State, ls: seq<Label>)
    requires c.docs > 0 && Inv(c, s) && Exec(Machine(c), s, ls).Some?
    requires BackPressure(c, s, MostAllowed(c))
    ensures BackPressure(c, Exec(Machine(c), s, ls).value, MostAllowed(c))
  {
    forall s, l | Inv(c, s) && BackPressure(c, s, MostAllowed(c)) && Step(c, s, l).Some?
      ensures Inv(c, Step(c, s, l).value) && BackPressure(c, Step(c, s, l).value, MostAllowed(c))
    {
      if s.g.estimate <= c.limit {
        LastMultiple(c.docs, c.limit, s.g.estimate);
      }
      StepKeepsInv(c, s, l);
      StepKeepsPressure(c, s, l, MostAllowed(c));
    }
    ExecKeeps(Machine(c), Pressed(c), s, ls);
  }

  // --------------------------------------------------------------------------
  // Accounting and back-pressure in every reachable state
  // --------------------------------------------------------------------------

  lemma ReachableInv(c: Config, s: State)
    requires Reachable(c, s)
    ensures Inv(c, s)
  {
    var ls :| Exec(Machine(c), Init(c), ls) == Some(s);
    InitInv(c);
    ExecKeepsInv(c, Init(c), ls);
  }

  /** In every reachable state the partition map holds exactly the partitions
      closed and not dropped, its rows, the rows being dropped and the rows
      dropped are all rows up to the last close. The next close is due when the
      rows inserted reach one partition size for every closed partition and one
      more, which is at most one partition size after the last close. */
  lemma PartitionAccounting(c: Config, s: State)
    requires Reachable(c, s)
    ensures s.d.drop <= s.d.closed
    ensures forall k: nat :: k in s.d.rows <==> s.d.drop <= k < s.d.closed
    ensures RowsIn(s.d.rows, s.d.drop, s.d.closed) + Pending(s.d) + s.d.dropped == s.d.last <= s.g.inserts
    ensures s.d.next == (s.d.closed + 1) * c.partitionRows
    ensures s.d.closed * c.partitionRows <= s.d.last <= s.g.inserts
    ensures s.d.next - c.partitionRows <= s.d.last
    ensures s.g.estimate + s.d.dropped + c.docs * CountIf(s.ws, Unpublished) == s.g.inserts
  {
    ReachableInv(c, s);
  }

  /** No run counts more rows than its writers' rounds can insert. */
  lemma InsertsBounded(c: Config, s: State)
    requires Reachable(c, s)
    ensures s.g.inserts <= c.docs * (c.writers * c.rounds)
    ensures s.g.estimate <= s.g.inserts
  {
    ReachableInv(c, s);
    assert forall i :: 0 <= i < |s.ws| ==> RoundsKept(c.rounds, s.ws[i]) && Begun(s.ws[i]) <= c.rounds;
    SumBounds(s.ws, Begun, c.rounds);
    MulMono(Sum(s.ws, Begun), c.writers * c.rounds, c.docs);
    assert c.docs * CountIf(s.ws, Unpublished) >= 0;
  }

  /** Estimated rows plus the batches of admitted writers never exceed the
      greatest admissible multiple of the batch size plus one batch a writer. */
  lemma BackPressureBound(c: Config, s: State)
    requires c.docs > 0 && Reachable(c, s)
    ensures s.g.estimate + c.docs * CountIf(s.ws, Admitted(c)) <= MostAllowed(c) + c.docs * c.writers
    ensures MostAllowed(c) <= c.limit
  {
    var ls :| Exec(Machine(c), Init(c), ls) == Some(s);
    InitInv(c);
    ExecKeepsPressure(c, Init(c), ls);
    MostWithinLimit(c);
  }

  lemma MostWithinLimit(c: Config)
    requires c.docs > 0
    ensures MostAllowed(c) <= c.limit
  {
    DividesTimes(c.docs, 0);
    LastMultiple(c.docs, c.limit, 0);
  }

  // --------------------------------------------------------------------------
  // Document ids
  // --------------------------------------------------------------------------

  /** The batch is inserted but not counted in globalInserts yet. */
  predicate Uncounted(w: Writer) { w.pc.CountInsert? }

  /** First ids are multiples of the batch size, at most the shared counter,
      and no slice is held twice or both held and inserted. */
  ghost predicate IdsApart(docs: nat, g: Globals, ws: seq<Writer>) {
    && Divides(docs, g.idValue)
    && (forall x :: x in g.starts ==> Divides(docs, x) && docs <= x <= g.idValue)
    && (forall i :: 0 <= i < |ws| && ws[i].pc.InsertBatch? ==>
          Divides(docs, ws[i].pc.id) && docs <= ws[i].pc.id <= g.idValue && ws[i].pc.id !in g.starts)
    && (forall i, j :: 0 <= i < j < |ws| && ws[i].pc.InsertBatch? && ws[j].pc.InsertBatch? ==>
          ws[i].pc.id != ws[j].pc.id)
  }

  ghost predicate BatchesCounted(docs: nat, g: Globals, ws: seq<Writer>) {
    docs * |g.starts| == g.inserts + docs * CountIf(ws, Uncounted)
  }

  lemma WriterKeepsIds(c: Config, g: Globals, ws: seq<Writer>, i: nat, taken: bool)
    requires c.docs > 0 && i < |ws| && IdsApart(c.docs, g, ws) && WriterMove(c, g, ws[i], taken).Some?
    ensures var (g1, w1) := WriterMove(c, g, ws[i], taken).value; IdsApart(c.docs, g1, ws[i := w1])
  {
    DividesTimes(c.docs, 1);
    DividesSum(c.docs, g.idValue, c.docs);
  }

  lemma WriterKeepsBatches(c: Config, g: Globals, ws: seq<Writer>, i: nat, taken: bool)
    requires i < |ws| && BatchesCounted(c.docs, g, ws) && WriterMove(c, g, ws[i], taken).Some?
    requires ws[i].pc.InsertBatch? ==> ws[i].pc.id !in g.starts
    ensures var (g1, w1) := WriterMove(c, g, ws[i], taken).value; BatchesCounted(c.docs, g1, ws[i := w1])
  {
    var (g1, w1) := WriterMove(c, g, ws[i], taken).value;
    CountUpdate(ws, i, w1, Uncounted);
    MulPlus(c.docs, CountIf(ws, Uncounted), 1);
    MulPlus(c.docs, CountIf(ws, Uncounted), -1);
    MulPlus(c.docs, |g.starts|, 1);
  }

  ghost function IdsRight(c: Config): State -> bool {
    (s: State) => IdsApart(c.docs, s.g, s.ws) && BatchesCounted(c.docs, s.g, s.ws)
  }

  lemma StepKeepsIds(c: Config, s: State, l: Label)
    requires c.docs > 0 && Step(c, s, l).Some?
    requires IdsApart(c.docs, s.g, s.ws) && BatchesCounted(c.docs, s.g, s.ws)
    ensures var t := Step(c, s, l).value;
            IdsApart(c.docs, t.g, t.ws) && BatchesCounted(c.docs, t.g, t.ws)
  {
    if l.WriterMoves? {
      WriterKeepsIds(c, s.g, s.ws, l.i, l.taken);
      WriterKeepsBatches(c, s.g, s.ws, l.i, l.taken);
    }
  }

  lemma ExecKeepsIds(c: Config, s: State, ls: seq<Label>)
    requires c.docs > 0 && Exec(Machine(c), s, ls).Some?
    requires IdsApart(c.docs, s.g, s.ws) && BatchesCounted(c.docs, s.g, s.ws)
    ensures var t := Exec(Machine(c), s, ls).value;
            IdsApart(c.docs, t.g, t.ws) && BatchesCounted(c.docs, t.g, t.ws)
  {
    hide IdsApart, BatchesCounted, Step;
    forall s: State, l | IdsApart(c.docs, s.g, s.ws) && BatchesCounted(c.docs, s.g, s.ws) && Step(c, s, l).Some?
      ensures IdsRight(c)(Step(c, s, l).value)
    {
      StepKeepsIds(c, s, l);
    }
    ExecKeeps(Machine(c), IdsRight(c), s, ls);
  }

  /** In every reachable state the _id slices of two inserted batches do not
      overlap, and there are as many inserted batches as counted rows say. */
  lemma IdsNeverRepeat(c: Config, s: State)
    requires c.docs > 0 && Reachable(c, s)
    ensures forall x, y :: x in s.g.starts && y in s.g.starts && x < y ==> x + c.docs <= y
    ensures forall x :: x in s.g.starts ==> c.docs <= x <= s.g.idValue
    ensures c.docs * |s.g.starts| == s.g.inserts + c.docs * CountIf(s.ws, Uncounted)
  {
    var ls :| Exec(Machine(c), Init(c), ls) == Some(s);
    CountBounds(Init(c).ws, Uncounted);
    assert CountIf(Init(c).ws, Uncounted) == 0;
    DividesTimes(c.docs, 0);
    ExecKeepsIds(c, Init(c), ls);
    forall x, y | x in s.g.starts && y in s.g.starts && x < y ensures x + c.docs <= y {
      DividesSum(c.docs, y, x);
      var k: int :| y - x == k * c.docs;
      if k < 1 { MulMono(k, 0, c.docs); } else { MulMono(1, k, c.docs); }
    }
  }
}
