/** The condition variable that sysbench's Windows port builds from an
    auto-reset event, a manual-reset event and a gate, as a step system.

    Every statement of pthread_cond_timedwait, pthread_cond_signal and
    pthread_cond_broadcast that touches shared state is one step of one thread,
    including entering and leaving the critical sections. */
module CondVar {
  import opened Common
  import opened Runs

  /** What WaitForMultipleObjects returned. */
  datatype Result = SignalEvent | BroadcastEvent | TimedOut

  /** Where a thread stands. */
  datatype Pc =
    | Outside
    // pthread_cond_timedwait
    | AtGate(timed: bool)
    | EnterCount(timed: bool)
    | Count(timed: bool)
    | LeaveCount(timed: bool)
    | ReleaseMutex(timed: bool)
    | Asleep(timed: bool)
    | EnterUncount(result: Result)
    | Uncount(result: Result)
    | TestLast(result: Result)
    | ResetEvent
    | OpenGate
    | LeaveUncount(result: Result)
    | Reacquire(result: Result)
    // pthread_cond_broadcast
    | EnterBroadcast | TestBroadcast | CloseGate | SetBroadcast | LeaveBroadcast
    // pthread_cond_signal
    | EnterSignal | TestSignal | SetSignal | LeaveSignal

  /** The condition variable and the user's mutex. */
  datatype Shared = Shared(
    waiting: int,
    lock: Option<nat>,       // holder of lock_waiting
    mutex: Option<nat>,      // holder of the user's mutex
    signalSet: bool,         // events[SIGNAL], auto-reset
    broadcastSet: bool,      // events[BROADCAST], manual-reset
    gateOpen: bool           // broadcast_block_event
  )

  /** `owed`: threads counted at the latest broadcast and not yet uncounted. */
  datatype State = State(g: Shared, pcs: seq<Pc>, owed: set<nat>)

  function Init(threads: nat): State {
    State(Shared(0, None, None, false, false, true), seq(threads, _ => Outside), {})
  }

  datatype Action = Lock | Unlock | CallWait(timed: bool) | CallBroadcast | CallSignal | Go | Expire

  datatype Label = Label(thread: nat, action: Action)

  /** What a step of one thread leaves: the shared state and the thread's place. */
  datatype Outcome = Blocked | Next(g: Shared, pc: Pc)

  /** What thread t, standing at pc, does to the shared state. */
  function Move(g: Shared, t: nat, pc: Pc, a: Action): Outcome {
    match a
    case Lock => if pc.Outside? && g.mutex.None? then Next(g.(mutex := Some(t)), pc) else Blocked
    case Unlock => if pc.Outside? && g.mutex == Some(t) then Next(g.(mutex := None), pc) else Blocked
    case CallWait(timed) => if pc.Outside? && g.mutex == Some(t) then Next(g, AtGate(timed)) else Blocked
    case CallBroadcast => if pc.Outside? then Next(g, EnterBroadcast) else Blocked
    case CallSignal => if pc.Outside? then Next(g, EnterSignal) else Blocked
    case Expire =>
      if pc == Asleep(true) && !g.signalSet && !g.broadcastSet then Next(g, EnterUncount(TimedOut)) else Blocked
    case Go => Advance(g, t, pc)
  }

  /** The next statement of the call the thread is in. */
  function Advance(g: Shared, t: nat, pc: Pc): Outcome {
    match pc
    case Outside => Blocked
    case AtGate(m) => if g.gateOpen then Next(g, EnterCount(m)) else Blocked
    case EnterCount(m) => Enter(g, t, Count(m))
    case Count(m) => Next(g.(waiting := g.waiting + 1), LeaveCount(m))
    case LeaveCount(m) => Next(g.(lock := None), ReleaseMutex(m))
    case ReleaseMutex(m) => Next(g.(mutex := None), Asleep(m))
    case Asleep(_) =>
      if g.signalSet then Next(g.(signalSet := false), EnterUncount(SignalEvent))
      else if g.broadcastSet then Next(g, EnterUncount(BroadcastEvent))
      else Blocked
    case EnterUncount(r) => Enter(g, t, Uncount(r))
    case Uncount(r) => Next(g.(waiting := g.waiting - 1), TestLast(r))
    case TestLast(r) =>
      Next(g, if g.waiting == 0 && r == BroadcastEvent then ResetEvent else LeaveUncount(r))
    case ResetEvent => Next(g.(broadcastSet := false), OpenGate)
    case OpenGate => Next(g.(gateOpen := true), LeaveUncount(BroadcastEvent))
    case LeaveUncount(r) => Next(g.(lock := None), Reacquire(r))
    case Reacquire(r) => if g.mutex.None? then Next(g.(mutex := Some(t)), Outside) else Blocked
    case EnterBroadcast => Enter(g, t, TestBroadcast)
    case TestBroadcast => Next(g, if g.waiting > 0 then CloseGate else LeaveBroadcast)
    case CloseGate => Next(g.(gateOpen := false), SetBroadcast)
    case SetBroadcast => Next(g.(broadcastSet := true), LeaveBroadcast)
    case LeaveBroadcast => Next(g.(lock := None), Outside)
    case EnterSignal => Enter(g, t, TestSignal)
    case TestSignal => Next(g, if g.waiting > 0 then SetSignal else LeaveSignal)
    case SetSignal => Next(g.(signalSet := true), LeaveSignal)
    case LeaveSignal => Next(g.(lock := None), Outside)
  }

  /** EnterCriticalSection(&lock_waiting). */
  function Enter(g: Shared, t: nat, pc: Pc): Outcome {
    if g.lock.None? then Next(g.(lock := Some(t)), pc) else Blocked
  }

  /** Counted in `waiting`. */
  predicate Counted(pc: Pc) {
    pc.LeaveCount? || pc.ReleaseMutex? || pc.Asleep? || pc.EnterUncount? || pc.Uncount?
  }

  function CountedThreads(pcs: seq<Pc>): set<nat> {
    set t: nat | t < |pcs| && Counted(pcs[t])
  }

  function Step(s: State, l: Label): Option<State> {
    if l.thread >= |s.pcs| then None
    else
      match Move(s.g, l.thread, s.pcs[l.thread], l.action)
      case Blocked => None
      case Next(g, pc) =>
        var owed :=
          if s.pcs[l.thread].SetBroadcast? then CountedThreads(s.pcs)
          else if s.pcs[l.thread].Uncount? then s.owed - {l.thread}
          else s.owed;
        Some(State(g, s.pcs[l.thread := pc], owed))
  }

  ghost predicate Reachable(s: State) {
    exists n: nat :: Leads(Step, Init(n), s)
  }

  /** Only untimed waits and broadcasts. */
  predicate Plain(l: Label) {
    !l.action.CallSignal? && l.action != CallWait(true)
  }

  function PlainStep(s: State, l: Label): Option<State> {
    if Plain(l) then Step(s, l) else None
  }

  ghost predicate PlainReachable(s: State) {
    exists n: nat :: Leads(PlainStep, Init(n), s)
  }

  // --------------------------------------------------------------------------
  // Invariant of every run
  // --------------------------------------------------------------------------

  /** Between entering and leaving lock_waiting. */
  predicate InSection(pc: Pc) {
    || pc.Count? || pc.LeaveCount?
    || pc.Uncount? || pc.TestLast? || pc.ResetEvent? || pc.OpenGate? || pc.LeaveUncount?
    || pc.TestBroadcast? || pc.CloseGate? || pc.SetBroadcast? || pc.LeaveBroadcast?
    || pc.TestSignal? || pc.SetSignal? || pc.LeaveSignal?
  }

  /** Between the two statements that move gate and event. */
  predicate BetweenFlips(pc: Pc) {
    pc.SetBroadcast? || pc.OpenGate?
  }

  /** What a thread's place says about the shared state. */
  predicate Local(g: Shared, t: nat, pc: Pc) {
    && (InSection(pc) <==> g.lock == Some(t))
    && ((pc.EnterUncount? || pc.Uncount? || pc.TestLast?) && pc.result == BroadcastEvent ==> g.broadcastSet)
    && (pc.CloseGate? ==> g.waiting > 0)
    && (pc.SetBroadcast? ==> g.waiting > 0 && !g.gateOpen)
    && (pc.ResetEvent? ==> g.waiting == 0 && g.broadcastSet && !g.gateOpen)
    && (pc.OpenGate? ==> g.waiting == 0 && !g.broadcastSet && !g.gateOpen)
  }

  ghost predicate Inv(s: State) {
    && s.g.waiting == CountIf(s.pcs, Counted)
    && (s.g.lock.Some? ==> s.g.lock.value < |s.pcs|)
    && (forall t: nat :: t < |s.pcs| ==> Local(s.g, t, s.pcs[t]))
    && ((forall t: nat :: t < |s.pcs| ==> !BetweenFlips(s.pcs[t])) ==> (s.g.broadcastSet <==> !s.g.gateOpen))
    && (forall t :: t in s.owed ==> t < |s.pcs| && Counted(s.pcs[t]))
    && (!s.g.broadcastSet ==> s.owed == {})
  }

  lemma InitInv(n: nat)
    ensures Inv(Init(n))
  {
    CountBounds(Init(n).pcs, Counted);
  }

  lemma NoneCounted(pcs: seq<Pc>)
    requires CountIf(pcs, Counted) == 0
    ensures forall t: nat :: t < |pcs| ==> !Counted(pcs[t])
  {
    CountBounds(pcs, Counted);
  }

  /** Gate and event agree, seen from a thread that is between no two flips. */
  predicate Settled(g: Shared) {
    g.broadcastSet <==> !g.gateOpen
  }

  /** The thread's own next place. */
  lemma OwnLocalKept(g: Shared, t: nat, pc: Pc, a: Action)
    requires Local(g, t, pc) && Move(g, t, pc, a).Next?
    requires InSection(pc) && !BetweenFlips(pc) ==> Settled(g)
    ensures var Next(g1, pc1) := Move(g, t, pc, a); Local(g1, t, pc1)
  {
  }

  /** Counter, event and gate change only inside the critical section; the event
      falls only when nobody waits. */
  lemma SharedMoves(g: Shared, t: nat, pc: Pc, a: Action)
    requires Local(g, t, pc) && Move(g, t, pc, a).Next?
    requires InSection(pc) && !BetweenFlips(pc) ==> Settled(g)
    ensures var Next(g1, pc1) := Move(g, t, pc, a);
            && (!InSection(pc) ==>
                  g1.waiting == g.waiting && g1.broadcastSet == g.broadcastSet && g1.gateOpen == g.gateOpen
                  && (g1.lock == g.lock || (g.lock.None? && g1.lock == Some(t))))
            && (InSection(pc) ==> g1.lock == Some(t) || g1.lock.None?)
            && (g.broadcastSet && !g1.broadcastSet ==> g.waiting == 0)
            && (!BetweenFlips(pc1) && InSection(pc) ==> Settled(g1))
            && (BetweenFlips(pc1) ==> InSection(pc))
  {
  }

  lemma OtherLocalKept(g: Shared, t: nat, pc: Pc, a: Action, u: nat, other: Pc)
    requires Local(g, t, pc) && Move(g, t, pc, a).Next?
    requires InSection(pc) && !BetweenFlips(pc) ==> Settled(g)
    requires t != u && Local(g, u, other) && (g.waiting == 0 ==> !Counted(other))
    ensures Local(Move(g, t, pc, a).g, u, other)
  {
    SharedMoves(g, t, pc, a);
  }

  /** At most one thread is inside the critical section. */
  lemma SectionSettled(s: State, t: nat)
    requires Inv(s) && t < |s.pcs| && InSection(s.pcs[t]) && !BetweenFlips(s.pcs[t])
    ensures Settled(s.g)
  {
    forall u: nat | u < |s.pcs| ensures !BetweenFlips(s.pcs[u]) {
      assert Local(s.g, u, s.pcs[u]) && Local(s.g, t, s.pcs[t]);
    }
  }

  lemma StepKeepsLocal(s: State, l: Label)
    requires Inv(s) && Step(s, l).Some?
    ensures var s1 := Step(s, l).value;
            && (s1.g.lock.Some? ==> s1.g.lock.value < |s1.pcs|)
            && (forall t: nat :: t < |s1.pcs| ==> Local(s1.g, t, s1.pcs[t]))
  {
    var t := l.thread;
    var s1 := Step(s, l).value;
    if InSection(s.pcs[t]) && !BetweenFlips(s.pcs[t]) { SectionSettled(s, t); }
    if s.g.waiting == 0 { NoneCounted(s.pcs); }
    SharedMoves(s.g, t, s.pcs[t], l.action);
    forall u: nat | u < |s1.pcs| ensures Local(s1.g, u, s1.pcs[u]) {
      if u == t {
        OwnLocalKept(s.g, t, s.pcs[t], l.action);
      } else {
        OtherLocalKept(s.g, t, s.pcs[t], l.action, u, s.pcs[u]);
      }
    }
  }

  lemma StepKeepsAgreement(s: State, l: Label)
    requires Inv(s) && Step(s, l).Some?
    ensures var s1 := Step(s, l).value;
            (forall t: nat :: t < |s1.pcs| ==> !BetweenFlips(s1.pcs[t])) ==> Settled(s1.g)
  {
    var t := l.thread;
    var s1 := Step(s, l).value;
    if InSection(s.pcs[t]) && !BetweenFlips(s.pcs[t]) { SectionSettled(s, t); }
    SharedMoves(s.g, t, s.pcs[t], l.action);
    if forall u: nat :: u < |s1.pcs| ==> !BetweenFlips(s1.pcs[u]) {
      assert !BetweenFlips(s1.pcs[t]);
      if !InSection(s.pcs[t]) {
        forall u: nat | u < |s.pcs| ensures !BetweenFlips(s.pcs[u]) {
          assert !BetweenFlips(s1.pcs[u]);
        }
      }
    }
  }

  /** `waiting` moves exactly when a thread starts or stops being counted. */
  lemma CountMoves(g: Shared, t: nat, pc: Pc, a: Action)
    requires Move(g, t, pc, a).Next?
    ensures var Next(g1, pc1) := Move(g, t, pc, a);
            g1.waiting == g.waiting - (if Counted(pc) then 1 else 0) + (if Counted(pc1) then 1 else 0)
  {
  }

  lemma StepKeepsCount(s: State, l: Label)
    requires Inv(s) && Step(s, l).Some?
    ensures var s1 := Step(s, l).value; s1.g.waiting == CountIf(s1.pcs, Counted)
  {
    CountMoves(s.g, l.thread, s.pcs[l.thread], l.action);
    CountUpdate(s.pcs, l.thread, Move(s.g, l.thread, s.pcs[l.thread], l.action).pc, Counted);
  }

  /** The one step that resets the event happens with nobody left to release. */
  lemma StepKeepsOwed(s: State, l: Label)
    requires Inv(s) && Step(s, l).Some?
    ensures var s1 := Step(s, l).value;
            && (forall t :: t in s1.owed ==> t < |s1.pcs| && Counted(s1.pcs[t]))
            && (!s1.g.broadcastSet ==> s1.owed == {})
  {
    var t := l.thread;
    assert Local(s.g, t, s.pcs[t]);
    if s.g.waiting == 0 { NoneCounted(s.pcs); }
  }

  lemma StepKeepsInv(s: State, l: Label)
    requires Inv(s) && Step(s, l).Some?
    ensures Inv(Step(s, l).value)
  {
    StepKeepsLocal(s, l);
    StepKeepsAgreement(s, l);
    StepKeepsCount(s, l);
    StepKeepsOwed(s, l);
  }

  lemma ExecKeepsInv(s: State, ls: seq<Label>)
    requires Inv(s) && Exec(Step, s, ls).Some?
    ensures Inv(Exec(Step, s, ls).value)
  {
    forall s, l | Inv(s) && Step(s, l).Some? ensures Inv(Step(s, l).value) {
      StepKeepsInv(s, l);
    }
    ExecKeeps(Step, Inv, s, ls);
  }

  lemma ReachableInv(s: State)
    requires Reachable(s)
    ensures Inv(s)
  {
    var n: nat :| Leads(Step, Init(n), s);
    var ls :| Exec(Step, Init(n), ls) == Some(s);
    InitInv(n);
    ExecKeepsInv(Init(n), ls);
  }

  /** In every run, signals and timed waits included: while lock_waiting is free
      the broadcast event is set exactly when the gate is closed. */
  lemma EventIffGateClosed(s: State)
    requires Reachable(s) && s.g.lock.None?
    ensures s.g.broadcastSet <==> !s.g.gateOpen
  {
    ReachableInv(s);
    forall t: nat | t < |s.pcs| ensures !BetweenFlips(s.pcs[t]) {
      assert Local(s.g, t, s.pcs[t]);
    }
  }

  // --------------------------------------------------------------------------
  // No thread counted at a broadcast is left behind
  // --------------------------------------------------------------------------

  /** Along ls from s, thread u stops being counted at position k. */
  ghost predicate UncountsAt(s: State, ls: seq<Label>, u: nat, k: nat) {
    && k < |ls| && ls[k] == Label(u, Go)
    && Exec(Step, s, ls[..k]).Some?
    && u < |Exec(Step, s, ls[..k]).value.pcs|
    && Exec(Step, s, ls[..k]).value.pcs[u].Uncount?
  }

  lemma {:induction false} OwedUntilUncounted(s: State, ls: seq<Label>, u: nat)
    requires Inv(s) && u in s.owed && Exec(Step, s, ls).Some? && u !in Exec(Step, s, ls).value.owed
    ensures exists k: nat :: UncountsAt(s, ls, u, k)
    decreases |ls|
  {
    var s1 := Step(s, ls[0]).value;
    if u in s1.owed {
      StepKeepsInv(s, ls[0]);
      OwedUntilUncounted(s1, ls[1..], u);
      var k: nat :| UncountsAt(s1, ls[1..], u, k);
      assert ls[..k + 1][0] == ls[0] && ls[..k + 1][1..] == ls[1..][..k];
      assert UncountsAt(s, ls, u, k + 1);
    } else {
      assert Exec(Step, s, ls[..0]) == Some(s);
      assert ls[0].action.Go?;
      assert UncountsAt(s, ls, u, 0);
    }
  }

  /** Between a broadcast and the reset of its event, every thread counted at
      the broadcast has stopped waiting: in every run, from every reachable state. */
  lemma ReleasedBeforeReset(s: State, t: nat, ls: seq<Label>, u: nat)
    requires Reachable(s) && t < |s.pcs| && s.pcs[t].SetBroadcast?
    requires u < |s.pcs| && Counted(s.pcs[u])
    requires Step(s, Label(t, Go)).Some? && Exec(Step, Step(s, Label(t, Go)).value, ls).Some?
    requires !Exec(Step, Step(s, Label(t, Go)).value, ls).value.g.broadcastSet
    ensures exists k: nat :: UncountsAt(Step(s, Label(t, Go)).value, ls, u, k)
  {
    ReachableInv(s);
    StepKeepsInv(s, Label(t, Go));
    var s1 := Step(s, Label(t, Go)).value;
    ExecKeepsInv(s1, ls);
    OwedUntilUncounted(s1, ls, u);
  }

  // --------------------------------------------------------------------------
  // The user's mutex
  // --------------------------------------------------------------------------

  /** In a wait, before the mutex is released. */
  predicate BeforeRelease(pc: Pc) {
    pc.AtGate? || pc.EnterCount? || pc.Count? || pc.LeaveCount? || pc.ReleaseMutex?
  }

  /** In a wait, after the mutex is released and before it is taken again. */
  predicate WithoutMutex(pc: Pc) {
    || pc.Asleep? || pc.EnterUncount? || pc.Uncount? || pc.TestLast?
    || pc.ResetEvent? || pc.OpenGate? || pc.LeaveUncount? || pc.Reacquire?
  }

  predicate MutexLocal(g: Shared, t: nat, pc: Pc) {
    && (BeforeRelease(pc) ==> g.mutex == Some(t))
    && (WithoutMutex(pc) ==> g.mutex != Some(t))
  }

  ghost predicate MutexInv(s: State) {
    forall t: nat :: t < |s.pcs| ==> MutexLocal(s.g, t, s.pcs[t])
  }

  lemma MutexMoves(g: Shared, t: nat, pc: Pc, a: Action, u: nat, other: Pc)
    requires MutexLocal(g, t, pc) && MutexLocal(g, u, other) && Move(g, t, pc, a).Next?
    ensures MutexLocal(Move(g, t, pc, a).g, t, Move(g, t, pc, a).pc)
    ensures u != t ==> MutexLocal(Move(g, t, pc, a).g, u, other)
  {
  }

  lemma StepKeepsMutex(s: State, l: Label)
    requires MutexInv(s) && Step(s, l).Some?
    ensures MutexInv(Step(s, l).value)
  {
    var t, s1 := l.thread, Step(s, l).value;
    forall u: nat | u < |s1.pcs| ensures MutexLocal(s1.g, u, s1.pcs[u]) {
      MutexMoves(s.g, t, s.pcs[t], l.action, u, s.pcs[u]);
    }
  }

  /** In every run a thread keeps the user's mutex until it has been counted as a
      waiter, and has released it while it sleeps and until its call returns. */
  lemma WaitHoldsMutex(s: State)
    requires Reachable(s)
    ensures forall t: nat :: t < |s.pcs| && BeforeRelease(s.pcs[t]) ==> s.g.mutex == Some(t)
    ensures forall t: nat :: t < |s.pcs| && WithoutMutex(s.pcs[t]) ==> s.g.mutex != Some(t)
  {
    var n: nat :| Leads(Step, Init(n), s);
    var ls :| Exec(Step, Init(n), ls) == Some(s);
    forall s, l | MutexInv(s) && Step(s, l).Some? ensures MutexInv(Step(s, l).value) {
      StepKeepsMutex(s, l);
    }
    ExecKeeps(Step, MutexInv, Init(n), ls);
    assert forall t: nat :: t < |s.pcs| ==> MutexLocal(s.g, t, s.pcs[t]);
  }

  /** A wait returns with the user's mutex, which nobody held before. */
  lemma WaitReturnsWithMutex(s: State, l: Label)
    requires Reachable(s) && Step(s, l).Some? && WithoutMutex(s.pcs[l.thread])
    requires Step(s, l).value.pcs[l.thread].Outside?
    ensures s.g.mutex.None? && Step(s, l).value.g.mutex == Some(l.thread)
  {
    WaitHoldsMutex(s);
  }

  /** How a sleeper wakes: a signal wakes one and is used up, a broadcast wakes
      any number, and a wait times out only if it may and neither event is set. */
  lemma WakesRight(s: State, l: Label)
    requires Step(s, l).Some? && s.pcs[l.thread].Asleep?
    ensures var s1 := Step(s, l).value;
            && s1.pcs[l.thread].EnterUncount?
            && (match s1.pcs[l.thread].result
                case SignalEvent => s.g.signalSet && s1.g == s.g.(signalSet := false)
                case BroadcastEvent => s.g.broadcastSet && !s.g.signalSet && s1.g == s.g
                case TimedOut =>
                  s.pcs[l.thread].timed && !s.g.signalSet && !s.g.broadcastSet && s1.g == s.g)
  {
  }

  // --------------------------------------------------------------------------
  // Runs of untimed waits and broadcasts
  // --------------------------------------------------------------------------

  predicate PlainPc(pc: Pc) {
    && !pc.EnterSignal? && !pc.TestSignal? && !pc.SetSignal? && !pc.LeaveSignal?
    && ((pc.AtGate? || pc.EnterCount? || pc.Count? || pc.LeaveCount? || pc.ReleaseMutex? || pc.Asleep?)
        ==> !pc.timed)
    && ((pc.EnterUncount? || pc.Uncount? || pc.TestLast? || pc.LeaveUncount? || pc.Reacquire?)
        ==> pc.result == BroadcastEvent)
  }

  /** The last waiter, on its way to opening the gate. */
  predicate Closing(pc: Pc) {
    pc.TestLast? || pc.ResetEvent? || pc.OpenGate?
  }

  ghost predicate PlainInv(s: State) {
    && Inv(s)
    && !s.g.signalSet
    && (forall t: nat :: t < |s.pcs| ==> PlainPc(s.pcs[t]))
    && ((forall t: nat :: t < |s.pcs| ==> !Closing(s.pcs[t])) ==> s.g.gateOpen || s.g.waiting > 0)
  }

  lemma PlainAdvance(g: Shared, t: nat, pc: Pc)
    requires Advance(g, t, pc).Next? && !g.signalSet && PlainPc(pc)
    ensures var Next(g1, pc1) := Advance(g, t, pc); !g1.signalSet && PlainPc(pc1)
  {
  }

  lemma PlainMoves(g: Shared, t: nat, pc: Pc, a: Action)
    requires Move(g, t, pc, a).Next? && !g.signalSet && PlainPc(pc) && Plain(Label(t, a))
    ensures var Next(g1, pc1) := Move(g, t, pc, a); !g1.signalSet && PlainPc(pc1)
  {
    if a.Go? { PlainAdvance(g, t, pc); }
  }

  /** The last waiter does not give up before the gate is open. */
  lemma ClosingMoves(g: Shared, t: nat, pc: Pc, a: Action)
    requires Local(g, t, pc) && Move(g, t, pc, a).Next? && g.waiting >= 0 && PlainPc(pc)
    ensures var Next(g1, pc1) := Move(g, t, pc, a);
            && (Closing(pc) && !Closing(pc1) ==> g1.gateOpen || g1.waiting > 0)
            && (!Closing(pc) && !Closing(pc1) && (g.gateOpen || g.waiting > 0) ==> g1.gateOpen || g1.waiting > 0)
  {
  }

  lemma StepKeepsPlain(s: State, l: Label)
    requires PlainInv(s) && Plain(l) && Step(s, l).Some?
    ensures PlainInv(Step(s, l).value)
  {
    StepKeepsInv(s, l);
    var t := l.thread;
    var s1 := Step(s, l).value;
    assert Local(s.g, t, s.pcs[t]);
    PlainMoves(s.g, t, s.pcs[t], l.action);
    ClosingMoves(s.g, t, s.pcs[t], l.action);
    if (forall u: nat :: u < |s1.pcs| ==> !Closing(s1.pcs[u])) && !Closing(s.pcs[t]) {
      assert !Closing(s1.pcs[t]);
      forall u: nat | u < |s.pcs| ensures !Closing(s.pcs[u]) {
        assert !Closing(s1.pcs[u]);
      }
    } else if Closing(s.pcs[t]) {
      assert Closing(s1.pcs[t]) || s1.g.gateOpen || s1.g.waiting > 0;
    }
  }

  lemma PlainReachableInv(s: State)
    requires PlainReachable(s)
    ensures PlainInv(s)
  {
    var n: nat :| Leads(PlainStep, Init(n), s);
    var ls :| Exec(PlainStep, Init(n), ls) == Some(s);
    InitInv(n);
    forall s, l | PlainInv(s) && PlainStep(s, l).Some? ensures PlainInv(PlainStep(s, l).value) {
      StepKeepsPlain(s, l);
    }
    ExecKeeps(PlainStep, PlainInv, Init(n), ls);
  }

  /** A thread whose step brings the pending broadcast to its end. */
  predicate Draining(s: State, t: nat) {
    t < |s.pcs| && (Counted(s.pcs[t]) || InSection(s.pcs[t])) && Step(s, Label(t, Go)).Some?
  }

  /** A closed gate always leaves a step to take, whoever holds the user's
      mutex; with lock_waiting free it is the step of a counted waiter. */
  lemma ClosedGateMoves(s: State)
    requires PlainReachable(s) && !s.g.gateOpen
    ensures exists t: nat :: Draining(s, t)
    ensures s.g.lock.None? ==>
              && s.g.broadcastSet && s.g.waiting > 0
              && exists t: nat :: Draining(s, t) && Counted(s.pcs[t])
  {
    PlainReachableInv(s);
    var t := DrainingThread(s);
  }

  lemma DrainingThread(s: State) returns (t: nat)
    requires PlainInv(s) && !s.g.gateOpen
    ensures Draining(s, t)
    ensures s.g.lock.None? ==> s.g.broadcastSet && s.g.waiting > 0 && Counted(s.pcs[t])
  {
    if s.g.lock.Some? {
      t := s.g.lock.value;
      assert Local(s.g, t, s.pcs[t]);
    } else {
      forall u: nat | u < |s.pcs| ensures !Closing(s.pcs[u]) && !BetweenFlips(s.pcs[u]) {
        assert Local(s.g, u, s.pcs[u]);
      }
      CountBounds(s.pcs, Counted);
      var i :| 0 <= i < |s.pcs| && Counted(s.pcs[i]);
      t := i;
      assert Local(s.g, t, s.pcs[t]);
    }
  }

  // --------------------------------------------------------------------------
  // The gate opens again
  // --------------------------------------------------------------------------

  /** Steps a thread still has to take before it is no longer in the way of the gate. */
  function Weight(pc: Pc): nat {
    match pc
    case Count(_) => 11
    case LeaveCount(_) => 10
    case ReleaseMutex(_) => 9
    case Asleep(_) => 8
    case EnterUncount(_) => 7
    case Uncount(_) => 6
    case TestLast(_) => 5
    case ResetEvent => 4
    case OpenGate => 3
    case LeaveUncount(_) => 2
    case TestBroadcast => 5
    case CloseGate => 4
    case SetBroadcast => 3
    case LeaveBroadcast => 2
    case TestSignal => 5
    case SetSignal => 4
    case LeaveSignal => 3
    case _ => 0
  }

  /** Steps a thread past the gate has left before it stops being counted. */
  function Distance(pc: Pc): nat {
    match pc
    case EnterCount(_) => 7
    case Count(_) => 6
    case LeaveCount(_) => 5
    case ReleaseMutex(_) => 4
    case Asleep(_) => 3
    case EnterUncount(_) => 2
    case Uncount(_) => 1
    case _ => 0
  }

  lemma WeightMoves(g: Shared, t: nat, pc: Pc)
    requires Local(g, t, pc) && (Counted(pc) || InSection(pc)) && Advance(g, t, pc).Next?
    ensures Weight(Advance(g, t, pc).pc) < Weight(pc)
  {
  }

  lemma DrainLightens(s: State, t: nat)
    requires PlainInv(s) && Draining(s, t)
    ensures Sum(Step(s, Label(t, Go)).value.pcs, Weight) < Sum(s.pcs, Weight)
  {
    WeightMoves(s.g, t, s.pcs[t]);
    SumUpdate(s.pcs, t, Advance(s.g, t, s.pcs[t]).pc, Weight);
  }

  /** From every reachable state the waiters already counted and the thread
      inside the critical section, on their own, bring the gate open again. */
  lemma {:induction false} GateReopens(s: State) returns (ls: seq<Label>)
    requires PlainInv(s)
    ensures forall i :: 0 <= i < |ls| ==> ls[i].action == Go
    ensures Exec(PlainStep, s, ls).Some? && Exec(PlainStep, s, ls).value.g.gateOpen
    ensures |ls| <= Sum(s.pcs, Weight)
    decreases Sum(s.pcs, Weight)
  {
    ls := [];
    if !s.g.gateOpen {
      var t := DrainingThread(s);
      StepKeepsPlain(s, Label(t, Go));
      DrainLightens(s, t);
      var rest := GateReopens(Step(s, Label(t, Go)).value);
      ls := [Label(t, Go)] + rest;
      assert ls[1..] == rest;
    }
  }

  lemma ReachableGateReopens(s: State)
    requires PlainReachable(s)
    ensures exists t :: Leads(PlainStep, s, t) && t.g.gateOpen
  {
    PlainReachableInv(s);
    var ls := GateReopens(s);
    assert Leads(PlainStep, s, Exec(PlainStep, s, ls).value);
  }

  /** Steps of ls taken by threads past the gate and not yet uncounted. */
  function WaveSteps(s: State, ls: seq<Label>): nat
    decreases |ls|
  {
    if ls == [] || Step(s, ls[0]).None? then 0
    else (if Distance(s.pcs[ls[0].thread]) > 0 then 1 else 0) + WaveSteps(Step(s, ls[0]).value, ls[1..])
  }

  /** The gate is closed before every step of ls. */
  ghost predicate ClosedThroughout(s: State, ls: seq<Label>)
    decreases |ls|
  {
    ls == [] || (!s.g.gateOpen && Step(s, ls[0]).Some? && ClosedThroughout(Step(s, ls[0]).value, ls[1..]))
  }

  lemma DistanceMoves(g: Shared, t: nat, pc: Pc, a: Action)
    requires PlainPc(pc) && !g.gateOpen && Move(g, t, pc, a).Next?
    ensures Distance(Move(g, t, pc, a).pc) + (if Distance(pc) > 0 then 1 else 0) <= Distance(pc)
  {
  }

  lemma WaveStep(s: State, l: Label)
    requires PlainInv(s) && Plain(l) && !s.g.gateOpen && Step(s, l).Some?
    ensures Sum(Step(s, l).value.pcs, Distance) + (if Distance(s.pcs[l.thread]) > 0 then 1 else 0)
         <= Sum(s.pcs, Distance)
  {
    DistanceMoves(s.g, l.thread, s.pcs[l.thread], l.action);
    SumUpdate(s.pcs, l.thread, Move(s.g, l.thread, s.pcs[l.thread], l.action).pc, Distance);
  }

  /** However the threads interleave, a closed gate lets no one new into the
      wave: it takes at most Sum(Distance) steps of waiters before it opens. */
  lemma {:induction false} WaveBounded(s: State, ls: seq<Label>)
    requires PlainInv(s) && ClosedThroughout(s, ls) && forall i :: 0 <= i < |ls| ==> Plain(ls[i])
    ensures WaveSteps(s, ls) <= Sum(s.pcs, Distance)
    decreases |ls|
  {
    if ls != [] {
      StepKeepsPlain(s, ls[0]);
      WaveStep(s, ls[0]);
      WaveBounded(Step(s, ls[0]).value, ls[1..]);
    }
  }
}
