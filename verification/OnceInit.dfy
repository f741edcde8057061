/** pthread_once of sysbench's Windows port, as a step system over any number
    of threads, each calling it any number of times. */
module OnceInit {
  import opened Common
  import opened Runs

  /** The value of *once_control. */
  datatype Control = NotRun | InProgress | Done

  datatype Pc =
    | Outside
    | CompareExchange
    | CallRoutine        // this thread found NotRun
    | InRoutine          // inside init_routine
    | StoreDone
    | WaitDone           // this thread found InProgress

  datatype Action = Call | Go

  datatype Label = Label(thread: nat, action: Action)

  /** `entered`, `finished`: how often init_routine was entered and left;
      `returned`: how many calls of pthread_once have come back. */
  datatype State = State(control: Control, pcs: seq<Pc>, entered: nat, finished: nat, returned: nat)

  function Init(threads: nat): State {
    State(NotRun, seq(threads, _ => Outside), 0, 0, 0)
  }

  function Step(s: State, l: Label): Option<State> {
    if l.thread >= |s.pcs| then None
    else
      match (l.action, s.pcs[l.thread])
      case (Call, Outside) => Some(At(s, l.thread, CompareExchange))
      case (Call, _) => None
      case (Go, Outside) => None
      case (Go, CompareExchange) => Some(
        match s.control
        case NotRun => At(s, l.thread, CallRoutine).(control := InProgress)
        case InProgress => At(s, l.thread, WaitDone)
        case Done => Return(s, l.thread))
      case (Go, CallRoutine) => Some(At(s, l.thread, InRoutine).(entered := s.entered + 1))
      case (Go, InRoutine) => Some(At(s, l.thread, StoreDone).(finished := s.finished + 1))
      case (Go, StoreDone) => Some(Return(s, l.thread).(control := Done))
      case (Go, WaitDone) => Some(if s.control.InProgress? then s else Return(s, l.thread))
  }

  function At(s: State, t: nat, pc: Pc): State
    requires t < |s.pcs|
  {
    s.(pcs := s.pcs[t := pc])
  }

  function Return(s: State, t: nat): State
    requires t < |s.pcs|
  {
    At(s, t, Outside).(returned := s.returned + 1)
  }

  ghost predicate Reachable(s: State) {
    exists n: nat :: Leads(Step, Init(n), s)
  }

  /** The thread that found NotRun, until it has stored Done. */
  predicate Initialising(pc: Pc) {
    pc.CallRoutine? || pc.InRoutine? || pc.StoreDone?
  }

  predicate Entered(pc: Pc) { pc.InRoutine? || pc.StoreDone? }

  predicate Finished(pc: Pc) { pc.StoreDone? }

  ghost predicate Inv(s: State) {
    && CountIf(s.pcs, Initialising) == (if s.control.InProgress? then 1 else 0)
    && s.entered == CountIf(s.pcs, Entered) + (if s.control.Done? then 1 else 0)
    && s.finished == CountIf(s.pcs, Finished) + (if s.control.Done? then 1 else 0)
    && (s.returned > 0 ==> s.control.Done?)
    && (forall t :: 0 <= t < |s.pcs| && s.pcs[t].WaitDone? ==> !s.control.NotRun?)
  }

  lemma StepKeepsInv(s: State, l: Label)
    requires Inv(s) && Step(s, l).Some?
    ensures Inv(Step(s, l).value)
  {
    var pc := Step(s, l).value.pcs[l.thread];
    CountUpdate(s.pcs, l.thread, pc, Initialising);
    CountUpdate(s.pcs, l.thread, pc, Entered);
    CountUpdate(s.pcs, l.thread, pc, Finished);
    CountBounds(s.pcs, Initialising);
  }

  lemma ReachableInv(s: State)
    requires Reachable(s)
    ensures Inv(s)
  {
    var n: nat :| Leads(Step, Init(n), s);
    var ls :| Exec(Step, Init(n), ls) == Some(s);
    CountBounds(Init(n).pcs, Initialising);
    CountBounds(Init(n).pcs, Entered);
    CountBounds(Init(n).pcs, Finished);
    forall s, l | Inv(s) && Step(s, l).Some? ensures Inv(Step(s, l).value) {
      StepKeepsInv(s, l);
    }
    ExecKeeps(Step, Inv, Init(n), ls);
  }

  lemma {:induction false} EnteredWithin(pcs: seq<Pc>)
    ensures CountIf(pcs, Finished) <= CountIf(pcs, Entered) <= CountIf(pcs, Initialising)
  {
    if pcs != [] { EnteredWithin(pcs[1..]); }
  }

  /** Any number of threads, any interleaving: the routine is entered at most
      once, and no call returns before it has been entered and left. */
  lemma RunsAtMostOnce(s: State)
    requires Reachable(s)
    ensures s.finished <= s.entered <= 1
    ensures s.returned > 0 ==> s.entered == s.finished == 1
  {
    ReachableInv(s);
    EnteredWithin(s.pcs);
  }

  /** A waiting thread waits for somebody: unless it can return at once, exactly
      one thread is on its way to storing Done, and that thread is never blocked. */
  lemma WaitersAreServed(s: State, w: nat)
    requires Reachable(s) && w < |s.pcs| && s.pcs[w].WaitDone?
    ensures Step(s, Label(w, Go)).Some?
    ensures Step(s, Label(w, Go)).value.returned == s.returned + 1
            || exists t: nat :: t < |s.pcs| && Initialising(s.pcs[t]) && Step(s, Label(t, Go)).Some?
    ensures s.control.InProgress? ==> CountIf(s.pcs, Initialising) == 1
  {
    ReachableInv(s);
    if s.control.InProgress? {
      CountBounds(s.pcs, Initialising);
      var t :| 0 <= t < |s.pcs| && Initialising(s.pcs[t]);
      assert Step(s, Label(t, Go)).Some?;
    }
  }
}
