/** When the condition variable of CondVar can reopen a closed gate, signals and
    timed waits included. */
module CondVarReopen {
  import opened Common
  import opened Runs
  import opened CondVar

  /** Past the gate, and still able to take either event. */
  predicate Free(pc: Pc) {
    pc.EnterCount? || pc.Count? || pc.LeaveCount? || pc.ReleaseMutex? || pc.Asleep?
  }

  /** Released by the broadcast, and last once the others are gone. */
  predicate Carries(g: Shared, pc: Pc) {
    || pc == EnterUncount(BroadcastEvent)
    || (pc == Uncount(BroadcastEvent) && g.waiting == 1)
    || (pc == TestLast(BroadcastEvent) && g.waiting == 0)
    || pc.ResetEvent? || pc.OpenGate?
  }

  /** About to set the signal event. */
  predicate Signalling(g: Shared, pc: Pc) {
    pc.SetSignal? || (pc.TestSignal? && g.waiting > 0)
  }

  ghost predicate Carried(s: State) {
    exists t: nat :: t < |s.pcs| && Carries(s.g, s.pcs[t])
  }

  /** A signal will be set before the thread at EnterCount can be counted. */
  ghost predicate Forestalled(s: State) {
    && (exists t: nat :: t < |s.pcs| && Signalling(s.g, s.pcs[t]))
    && (exists t: nat :: t < |s.pcs| && s.pcs[t].EnterCount?)
  }

  /** The gate is open, or some thread will take the broadcast event, or two
      threads can, or one can and no signal takes it away. */
  ghost predicate Hopeful(s: State) {
    || s.g.gateOpen
    || Carried(s)
    || CountIf(s.pcs, Free) >= 2
    || (CountIf(s.pcs, Free) == 1 && !s.g.signalSet && !Forestalled(s))
  }

  lemma TwoFree(pcs: seq<Pc>, t: nat, u: nat)
    requires t < |pcs| && u < |pcs| && t != u && Free(pcs[t]) && Free(pcs[u])
    ensures CountIf(pcs, Free) >= 2
  {
    CountUpdate(pcs, t, Outside, Free);
    CountBounds(pcs[t := Outside], Free);
    assert Free(pcs[t := Outside][u]);
  }

  lemma SomeFree(pcs: seq<Pc>) returns (t: nat)
    requires CountIf(pcs, Free) > 0
    ensures t < |pcs| && Free(pcs[t])
  {
    CountBounds(pcs, Free);
    t :| t < |pcs| && Free(pcs[t]);
  }

  // --------------------------------------------------------------------------
  // Hope never comes back
  // --------------------------------------------------------------------------

  /** What the moving thread's new place says about its old one. */
  lemma MoverBefore(g: Shared, t: nat, pc: Pc, a: Action)
    requires Local(g, t, pc) && Move(g, t, pc, a).Next? && !g.gateOpen
    ensures var Next(g1, pc1) := Move(g, t, pc, a);
            && (g1.gateOpen ==> Carries(g, pc))
            && (Carries(g1, pc1) ==> Carries(g, pc) || (pc.Asleep? && !g.signalSet))
            && (Free(pc1) ==> Free(pc))
            && (pc.EnterCount? && !pc1.EnterCount? ==> g.lock.None?)
  {
  }

  lemma SignalsMove(g: Shared, t: nat, pc: Pc, a: Action)
    requires Local(g, t, pc) && Move(g, t, pc, a).Next?
    ensures var Next(g1, pc1) := Move(g, t, pc, a);
            && (g.signalSet && !g1.signalSet ==> Free(pc) && !Free(pc1))
            && (Signalling(g, pc) ==> Signalling(g1, pc1) || g1.signalSet)
  {
  }

  /** What a bystander carries or is about to signal does not depend on the mover. */
  lemma BystanderSame(g: Shared, t: nat, pc: Pc, a: Action, u: nat, other: Pc)
    requires Local(g, t, pc) && Local(g, u, other) && t != u && Move(g, t, pc, a).Next?
    ensures var g1 := Move(g, t, pc, a).g;
            && (Carries(g1, other) <==> Carries(g, other))
            && (Signalling(g1, other) <==> Signalling(g, other))
  {
  }

  lemma CarriedBefore(s: State, l: Label)
    requires Inv(s) && !s.g.gateOpen && Step(s, l).Some? && Carried(Step(s, l).value)
    ensures Carried(s) || (s.pcs[l.thread].Asleep? && !s.g.signalSet)
  {
    var t, s1 := l.thread, Step(s, l).value;
    var u: nat :| u < |s1.pcs| && Carries(s1.g, s1.pcs[u]);
    assert Local(s.g, t, s.pcs[t]) && Local(s.g, u, s.pcs[u]);
    if u == t {
      MoverBefore(s.g, t, s.pcs[t], l.action);
    } else {
      BystanderSame(s.g, t, s.pcs[t], l.action, u, s.pcs[u]);
    }
  }

  lemma ForestalledKept(s: State, l: Label)
    requires Inv(s) && !s.g.gateOpen && Forestalled(s) && Step(s, l).Some?
    ensures Forestalled(Step(s, l).value) || Step(s, l).value.g.signalSet
  {
    var t, s1 := l.thread, Step(s, l).value;
    var u: nat :| u < |s.pcs| && Signalling(s.g, s.pcs[u]);
    var e: nat :| e < |s.pcs| && s.pcs[e].EnterCount?;
    assert Local(s.g, t, s.pcs[t]) && Local(s.g, u, s.pcs[u]);
    MoverBefore(s.g, t, s.pcs[t], l.action);
    SignalsMove(s.g, t, s.pcs[t], l.action);
    if u != t {
      BystanderSame(s.g, t, s.pcs[t], l.action, u, s.pcs[u]);
    }
    assert s1.pcs[e].EnterCount?;
    assert Signalling(s1.g, s1.pcs[u]) || s1.g.signalSet;
  }

  /** No step of any thread makes a hopeless state hopeful. */
  lemma HopeFromHope(s: State, l: Label)
    requires Inv(s) && Step(s, l).Some? && Hopeful(Step(s, l).value)
    ensures Hopeful(s)
  {
    var t, s1 := l.thread, Step(s, l).value;
    assert Local(s.g, t, s.pcs[t]);
    if !s.g.gateOpen {
      MoverBefore(s.g, t, s.pcs[t], l.action);
      SignalsMove(s.g, t, s.pcs[t], l.action);
      CountUpdate(s.pcs, t, s1.pcs[t], Free);
      if Carried(s1) {
        CarriedBefore(s, l);
        if !Carried(s) {
          AsleepHopes(s, t);
        }
      } else if !s1.g.gateOpen && CountIf(s1.pcs, Free) == 1 && CountIf(s.pcs, Free) < 2 {
        if Forestalled(s) { ForestalledKept(s, l); }
      }
    }
  }

  /** A sleeper that can take the broadcast event is hope enough. */
  lemma AsleepHopes(s: State, t: nat)
    requires t < |s.pcs| && s.pcs[t].Asleep? && !s.g.signalSet
    ensures Hopeful(s)
  {
    CountBounds(s.pcs, Free);
    if CountIf(s.pcs, Free) == 1 && Forestalled(s) {
      var e: nat :| e < |s.pcs| && s.pcs[e].EnterCount?;
      TwoFree(s.pcs, t, e);
    }
  }

  // --------------------------------------------------------------------------
  // Hope comes true
  // --------------------------------------------------------------------------

  /** Steps a thread past the gate has left in its call. */
  function Way(pc: Pc): nat {
    if pc.EnterCount? then 12 else Weight(pc)
  }

  /** A step of thread t that leaves hope. */
  ghost predicate Helps(s: State, t: nat) {
    && t < |s.pcs| && Step(s, Label(t, Go)).Some?
    && Way(Step(s, Label(t, Go)).value.pcs[t]) < Way(s.pcs[t])
    && Hopeful(Step(s, Label(t, Go)).value)
  }

  lemma WayShrinks(g: Shared, t: nat, pc: Pc)
    requires Advance(g, t, pc).Next? && (Free(pc) || InSection(pc) || pc.EnterUncount?)
    ensures Way(Advance(g, t, pc).pc) < Way(pc)
  {
  }

  /** The holder of lock_waiting can always move. */
  lemma HolderMoves(s: State) returns (h: nat)
    requires Inv(s) && s.g.lock.Some?
    ensures h < |s.pcs| && InSection(s.pcs[h]) && Step(s, Label(h, Go)).Some?
    ensures forall u: nat :: u < |s.pcs| && InSection(s.pcs[u]) ==> u == h
  {
    h := s.g.lock.value;
    assert Local(s.g, h, s.pcs[h]);
    forall u: nat | u < |s.pcs| && InSection(s.pcs[u]) ensures u == h {
      assert Local(s.g, u, s.pcs[u]);
    }
  }

  lemma NobodyInSection(s: State)
    requires Inv(s) && s.g.lock.None?
    ensures forall u: nat :: u < |s.pcs| ==> !InSection(s.pcs[u])
    ensures Settled(s.g)
  {
    forall u: nat | u < |s.pcs| ensures !InSection(s.pcs[u]) && !BetweenFlips(s.pcs[u]) {
      assert Local(s.g, u, s.pcs[u]);
    }
  }

  lemma OnlyCounted(pcs: seq<Pc>, c: nat)
    requires c < |pcs| && Counted(pcs[c])
    requires forall u: nat :: u < |pcs| && Counted(pcs[u]) ==> u == c
    ensures CountIf(pcs, Counted) == 1
  {
    CountUpdate(pcs, c, Outside, Counted);
    CountBounds(pcs[c := Outside], Counted);
  }

  /** A carrier lets the others go first. */
  lemma CarrierHelps(s: State, c: nat) returns (t: nat)
    requires Inv(s) && !s.g.gateOpen && c < |s.pcs| && Carries(s.g, s.pcs[c])
    ensures Helps(s, t)
  {
    assert Local(s.g, c, s.pcs[c]);
    if s.pcs[c].EnterUncount? {
      if s.g.lock.Some? {
        t := HolderMoves(s);
      } else {
        NobodyInSection(s);
        if u: nat :| u < |s.pcs| && Counted(s.pcs[u]) && u != c {
          t := u;
        } else {
          OnlyCounted(s.pcs, c);
          t := c;
        }
      }
    } else {
      t := c;
    }
    WayShrinks(s.g, t, s.pcs[t]);
    var s1 := Step(s, Label(t, Go)).value;
    assert s1.g.gateOpen || Carries(s1.g, s1.pcs[c]);
  }

  /** With lock_waiting held: a lone sleeper goes before a signal, otherwise the holder moves. */
  lemma HolderHelps(s: State) returns (t: nat)
    requires Inv(s) && !s.g.gateOpen && Hopeful(s) && !Carried(s) && s.g.lock.Some?
    ensures Helps(s, t)
  {
    var h := HolderMoves(s);
    if CountIf(s.pcs, Free) == 1 && Signalling(s.g, s.pcs[h]) {
      t := SomeFree(s.pcs);
      SectionSettled(s, h);
      LoneFreeHelps(s, t);
    } else {
      t := h;
      assert Local(s.g, h, s.pcs[h]);
      WayShrinks(s.g, t, s.pcs[t]);
      var s1 := Step(s, Label(t, Go)).value;
      CountUpdate(s.pcs, t, s1.pcs[t], Free);
      FreeStays(s.g, t, s.pcs[t]);
    }
  }

  lemma FreeStays(g: Shared, t: nat, pc: Pc)
    requires Advance(g, t, pc).Next? && !pc.Asleep? && !pc.AtGate?
    ensures var Next(g1, pc1) := Advance(g, t, pc);
            && (Free(pc1) <==> Free(pc))
            && (!Signalling(g, pc) ==>
                  g1.signalSet == g.signalSet && (Signalling(g1, pc1) ==> pc.EnterSignal?))
  {
  }

  /** The lone free thread, not at EnterCount, takes the broadcast event or comes closer to it. */
  lemma LoneFreeHelps(s: State, t: nat)
    requires Inv(s) && !s.g.gateOpen && Settled(s.g) && !s.g.signalSet
    requires CountIf(s.pcs, Free) == 1 && t < |s.pcs| && (s.pcs[t].ReleaseMutex? || s.pcs[t].Asleep?)
    ensures Helps(s, t)
  {
    WayShrinks(s.g, t, s.pcs[t]);
    var s1 := Step(s, Label(t, Go)).value;
    if s.pcs[t].Asleep? {
      assert Carries(s1.g, s1.pcs[t]);
    } else {
      AsleepHopes(s1, t);
    }
  }

  /** With lock_waiting free: free threads go to sleep, then one takes an event. */
  lemma FreeHelps(s: State) returns (t: nat)
    requires Inv(s) && !s.g.gateOpen && Hopeful(s) && !Carried(s) && s.g.lock.None?
    ensures Helps(s, t)
  {
    NobodyInSection(s);
    t := SomeFree(s.pcs);
    if u: nat :| u < |s.pcs| && Free(s.pcs[u]) && !s.pcs[u].Asleep? {
      t := u;
      FreeStays(s.g, t, s.pcs[t]);
    }
    WayShrinks(s.g, t, s.pcs[t]);
    var s1 := Step(s, Label(t, Go)).value;
    CountUpdate(s.pcs, t, s1.pcs[t], Free);
    if s.pcs[t].Asleep? && !s.g.signalSet {
      assert Carries(s1.g, s1.pcs[t]);
    } else {
      forall u: nat | u < |s1.pcs| ensures !Signalling(s1.g, s1.pcs[u]) {
        assert u != t ==> s1.pcs[u] == s.pcs[u];
      }
    }
  }

  /** From every hopeful state the threads inside their calls, on their own,
      bring the gate open within a stated number of steps. */
  lemma {:induction false} HopeComesTrue(s: State) returns (ls: seq<Label>)
    requires Inv(s) && Hopeful(s)
    ensures forall i :: 0 <= i < |ls| ==> ls[i].action == Go
    ensures Exec(Step, s, ls).Some? && Exec(Step, s, ls).value.g.gateOpen
    ensures |ls| <= Sum(s.pcs, Way)
    decreases Sum(s.pcs, Way)
  {
    ls := [];
    if !s.g.gateOpen {
      var t: nat;
      if Carried(s) {
        var c: nat :| c < |s.pcs| && Carries(s.g, s.pcs[c]);
        t := CarrierHelps(s, c);
      } else if s.g.lock.Some? {
        t := HolderHelps(s);
      } else {
        t := FreeHelps(s);
      }
      var s1 := Step(s, Label(t, Go)).value;
      StepKeepsInv(s, Label(t, Go));
      SumUpdate(s.pcs, t, s1.pcs[t], Way);
      var rest := HopeComesTrue(s1);
      ls := [Label(t, Go)] + rest;
      assert ls[1..] == rest;
    }
  }

  lemma HopelessForever(s: State, ls: seq<Label>)
    requires Inv(s) && !Hopeful(s) && Exec(Step, s, ls).Some?
    ensures !Hopeful(Exec(Step, s, ls).value)
  {
    forall s, l | Hopeless(s) && Step(s, l).Some? ensures Hopeless(Step(s, l).value) {
      StepKeepsInv(s, l);
      if Hopeful(Step(s, l).value) { HopeFromHope(s, l); }
    }
    ExecKeeps(Step, Hopeless, s, ls);
  }

  ghost predicate Hopeless(s: State) {
    Inv(s) && !Hopeful(s)
  }

  /** In every reachable state, signals and timed waits included, the gate can
      come open again exactly when the state is hopeful. */
  lemma ReopensIff(s: State)
    requires Reachable(s)
    ensures (exists z :: Leads(Step, s, z) && z.g.gateOpen) <==> Hopeful(s)
  {
    ReachableInv(s);
    if Hopeful(s) {
      var ls := HopeComesTrue(s);
      assert Leads(Step, s, Exec(Step, s, ls).value);
    } else {
      forall z | Leads(Step, s, z) ensures !z.g.gateOpen {
        var ls :| Exec(Step, s, ls) == Some(z);
        HopelessForever(s, ls);
      }
    }
  }

  // --------------------------------------------------------------------------
  // Two runs that lose hope
  // --------------------------------------------------------------------------

  lemma Extend(z: State, s: State, t: nat, a: Action) returns (r: State)
    requires Leads(Step, z, s) && t < |s.pcs| && Move(s.g, t, s.pcs[t], a).Next?
    ensures Leads(Step, z, r)
    ensures r.g == Move(s.g, t, s.pcs[t], a).g && r.pcs == s.pcs[t := Move(s.g, t, s.pcs[t], a).pc]
  {
    LeadsTo(Step, z, s, Label(t, a));
    r := Step(s, Label(t, a)).value;
  }

  /** A thread outside takes the mutex and waits until it sleeps. */
  lemma FallAsleep(z: State, s: State, t: nat, timed: bool) returns (r: State)
    requires Leads(Step, z, s) && t < |s.pcs| && s.pcs[t] == Outside
    requires s.g.mutex.None? && s.g.lock.None? && s.g.gateOpen
    ensures Leads(Step, z, r) && r.g == s.g.(waiting := s.g.waiting + 1) && r.pcs == s.pcs[t := Asleep(timed)]
  {
    hide Leads;
    r := Extend(z, s, t, Lock);
    r := Extend(z, r, t, CallWait(timed));
    var held := s.g.(mutex := Some(t));
    for k := 0 to 5
      invariant Leads(Step, z, r) && |r.pcs| == |s.pcs| && r.pcs == s.pcs[t := r.pcs[t]]
      invariant k == 0 ==> r.g == held && r.pcs[t] == AtGate(timed)
      invariant k == 1 ==> r.g == held && r.pcs[t] == EnterCount(timed)
      invariant k == 2 ==> r.g == held.(lock := Some(t)) && r.pcs[t] == Count(timed)
      invariant k == 3 ==> r.g == held.(lock := Some(t), waiting := s.g.waiting + 1) && r.pcs[t] == LeaveCount(timed)
      invariant k == 4 ==> r.g == held.(waiting := s.g.waiting + 1) && r.pcs[t] == ReleaseMutex(timed)
      invariant k == 5 ==> r.g == s.g.(waiting := s.g.waiting + 1) && r.pcs[t] == Asleep(timed)
    {
      r := Extend(z, r, t, Go);
    }
  }

  /** A thread outside signals a waiter. */
  lemma SignalOnce(z: State, s: State, t: nat) returns (r: State)
    requires Leads(Step, z, s) && t < |s.pcs| && s.pcs[t] == Outside && s.g.lock.None? && s.g.waiting > 0
    ensures Leads(Step, z, r) && r.g == s.g.(signalSet := true) && r.pcs == s.pcs
  {
    hide Leads;
    r := Extend(z, s, t, CallSignal);
    for k := 0 to 4
      invariant Leads(Step, z, r) && |r.pcs| == |s.pcs| && r.pcs == s.pcs[t := r.pcs[t]]
      invariant k == 0 ==> r.g == s.g && r.pcs[t] == EnterSignal
      invariant k == 1 ==> r.g == s.g.(lock := Some(t)) && r.pcs[t] == TestSignal
      invariant k == 2 ==> r.g == s.g.(lock := Some(t)) && r.pcs[t] == SetSignal
      invariant k == 3 ==> r.g == s.g.(lock := Some(t), signalSet := true) && r.pcs[t] == LeaveSignal
      invariant k == 4 ==> r.g == s.g.(signalSet := true) && r.pcs[t] == Outside
    {
      r := Extend(z, r, t, Go);
    }
  }

  /** A thread outside broadcasts to a waiter. */
  lemma BroadcastOnce(z: State, s: State, t: nat) returns (r: State)
    requires Leads(Step, z, s) && t < |s.pcs| && s.pcs[t] == Outside && s.g.lock.None? && s.g.waiting > 0
    ensures Leads(Step, z, r) && r.g == s.g.(gateOpen := false, broadcastSet := true) && r.pcs == s.pcs
  {
    hide Leads;
    r := Extend(z, s, t, CallBroadcast);
    var shut := s.g.(gateOpen := false);
    for k := 0 to 5
      invariant Leads(Step, z, r) && |r.pcs| == |s.pcs| && r.pcs == s.pcs[t := r.pcs[t]]
      invariant k == 0 ==> r.g == s.g && r.pcs[t] == EnterBroadcast
      invariant k == 1 ==> r.g == s.g.(lock := Some(t)) && r.pcs[t] == TestBroadcast
      invariant k == 2 ==> r.g == s.g.(lock := Some(t)) && r.pcs[t] == CloseGate
      invariant k == 3 ==> r.g == shut.(lock := Some(t)) && r.pcs[t] == SetBroadcast
      invariant k == 4 ==> r.g == shut.(lock := Some(t), broadcastSet := true) && r.pcs[t] == LeaveBroadcast
      invariant k == 5 ==> r.g == shut.(broadcastSet := true) && r.pcs[t] == Outside
    {
      r := Extend(z, r, t, Go);
    }
  }

  /** The only waiter is woken by the signal while a broadcast is pending. */
  lemma WakeBySignal(z: State, s: State, t: nat) returns (r: State)
    requires Leads(Step, z, s) && t < |s.pcs| && s.pcs[t] == Asleep(false)
    requires s.g.lock.None? && s.g.signalSet && s.g.waiting == 1
    ensures Leads(Step, z, r) && r.g == s.g.(lock := Some(t), signalSet := false, waiting := 0)
    ensures r.pcs == s.pcs[t := LeaveUncount(SignalEvent)]
  {
    hide Leads;
    r := s;
    var woken := s.g.(signalSet := false);
    for k := 0 to 4
      invariant Leads(Step, z, r) && |r.pcs| == |s.pcs| && r.pcs == s.pcs[t := r.pcs[t]]
      invariant k == 0 ==> r.g == s.g && r.pcs[t] == Asleep(false)
      invariant k == 1 ==> r.g == woken && r.pcs[t] == EnterUncount(SignalEvent)
      invariant k == 2 ==> r.g == woken.(lock := Some(t)) && r.pcs[t] == Uncount(SignalEvent)
      invariant k == 3 ==> r.g == woken.(lock := Some(t), waiting := 0) && r.pcs[t] == TestLast(SignalEvent)
      invariant k == 4 ==> r.g == woken.(lock := Some(t), waiting := 0) && r.pcs[t] == LeaveUncount(SignalEvent)
    {
      r := Extend(z, r, t, Go);
    }
  }

  /** One waiter, one thread that signals and then broadcasts: the waiter takes
      the signal, so nobody is left whose result says broadcast. */
  lemma SignalLeavesGateClosed() returns (s: State)
    ensures Reachable(s) && !Hopeful(s)
  {
    var z := Init(2);
    LeadsStart(Step, z);
    s := FallAsleep(z, z, 0, false);
    s := SignalOnce(z, s, 1);
    s := BroadcastOnce(z, s, 1);
    s := WakeBySignal(z, s, 0);
    assert s.pcs == [LeaveUncount(SignalEvent), Outside];
    CountBounds(s.pcs, Free);
  }

  /** The same without a signal: a timed wait expires, and a broadcast comes
      before the waiter has taken itself out of the count. */
  lemma TimeoutLeavesGateClosed() returns (s: State)
    ensures Reachable(s) && !Hopeful(s)
  {
    var z := Init(2);
    LeadsStart(Step, z);
    s := FallAsleep(z, z, 0, true);
    s := Extend(z, s, 0, Expire);
    s := BroadcastOnce(z, s, 1);
    assert s.pcs == [EnterUncount(TimedOut), Outside];
    CountBounds(s.pcs, Free);
  }
}
