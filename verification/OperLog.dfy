/** The operation log (sb_logger.c): start and stop messages of all threads and
    checkpoint reports that copy and reset the timers. The timers mutex makes
    every message and every report one step, so a run is any sequence of calls. */
module OperLog {
  import opened Timers

  function Concat(xss: seq<seq<nat>>): seq<nat> {
    if xss == [] then [] else Concat(xss[..|xss| - 1]) + xss[|xss| - 1]
  }

  lemma ConcatPush(xss: seq<seq<nat>>, xs: seq<nat>)
    ensures Concat(xss + [xs]) == Concat(xss) + xs
  {
    assert (xss + [xs])[..|xss|] == xss;
  }

  /** One more interval in one of the sequences. */
  lemma {:induction false} ConcatUpdate(xss: seq<seq<nat>>, i: nat, x: nat)
    requires i < |xss|
    ensures multiset(Concat(xss[i := xss[i] + [x]])) == multiset(Concat(xss)) + multiset{x}
  {
    var last := |xss| - 1;
    var yss := xss[i := xss[i] + [x]];
    if i == last {
      assert yss[..last] == xss[..last];
      assert Concat(yss) == Concat(xss[..last]) + (xss[last] + [x]);
    } else {
      assert yss[..last] == xss[..last][i := xss[i] + [x]];
      ConcatUpdate(xss[..last], i, x);
    }
  }

  lemma {:induction false} ConcatEmpty(xss: seq<seq<nat>>)
    requires forall i :: 0 <= i < |xss| ==> xss[i] == []
    ensures Concat(xss) == []
  {
    if xss != [] { ConcatEmpty(xss[..|xss| - 1]); }
  }

  /** All these counters merged, starting from a fresh timer. */
  function MergeAll(ts: seq<Stats>): Stats {
    if ts == [] then NoStats else Merge(MergeAll(ts[..|ts| - 1]), ts[|ts| - 1])
  }

  /** Merging the timers gives the counters of one timer fed all their intervals. */
  lemma {:induction false} MergeAllIsSummary(ts: seq<Stats>, xss: seq<seq<nat>>)
    requires |ts| == |xss| && forall i :: 0 <= i < |ts| ==> ts[i] == Summary(xss[i])
    ensures MergeAll(ts) == Summary(Concat(xss))
  {
    if ts != [] {
      var last := |ts| - 1;
      MergeAllIsSummary(ts[..last], xss[..last]);
      SummaryMerges(Concat(xss[..last]), xss[last]);
    }
  }

  /** The loop that merges the copies into a fresh timer. */
  method MergeCopies(copies: seq<Stats>) returns (t: Stats)
    ensures t == MergeAll(copies)
  {
    t := NoStats;
    for i := 0 to |copies|
      invariant t == MergeAll(copies[..i])
    {
      assert copies[..i + 1][..i] == copies[..i];
      t := Merge(t, copies[i]);
    }
    assert copies[..|copies|] == copies;
  }

  datatype Action = StartMessage | StopMessage

  /** Every stop is in exactly one report or still in a timer. */
  ghost predicate Balanced(stops: seq<nat>, covered: seq<seq<nat>>, open: seq<seq<nat>>) {
    multiset(stops) == multiset(Concat(covered)) + multiset(Concat(open))
  }

  /** Each report told the counters of the intervals it covers. */
  ghost predicate Told(printed: seq<Stats>, covered: seq<seq<nat>>) {
    |printed| == |covered| && forall i :: 0 <= i < |printed| ==> printed[i] == Summary(covered[i])
  }

  lemma StopBalances(stops: seq<nat>, covered: seq<seq<nat>>, open: seq<seq<nat>>, i: nat, x: nat)
    requires Balanced(stops, covered, open) && i < |open|
    ensures Balanced(stops + [x], covered, open[i := open[i] + [x]])
  {
    ConcatUpdate(open, i, x);
  }

  lemma ReportBalances(stops: seq<nat>, covered: seq<seq<nat>>, open: seq<seq<nat>>, emptied: seq<seq<nat>>)
    requires Balanced(stops, covered, open) && forall i :: 0 <= i < |emptied| ==> emptied[i] == []
    ensures Balanced(stops, covered + [Concat(open)], emptied)
  {
    ConcatPush(covered, Concat(open));
    ConcatEmpty(emptied);
  }

  class Log {
    const timers: seq<Timer>
    var timersCopy: seq<Stats>
    ghost var clock: nat
    ghost var stops: seq<nat>          // time of every stop, in order
    ghost var open: seq<seq<nat>>      // per timer, its intervals since the last report
    ghost var covered: seq<seq<nat>>   // the intervals each report covers
    ghost var printed: seq<Stats>      // what each report said

    ghost predicate Distinct() {
      forall i, j :: 0 <= i < j < |timers| ==> timers[i] != timers[j]
    }

    /** The timers count the open intervals. */
    ghost predicate TimersHold()
      reads this`open, this`clock, timers
    {
      && |open| == |timers|
      && (forall i :: 0 <= i < |timers| ==>
            timers[i].Valid() && timers[i].Before(clock) && timers[i].intervals == open[i])
    }

    ghost predicate Valid()
      reads this, timers
    {
      Distinct() && TimersHold() && Balanced(stops, covered, open) && Told(printed, covered)
    }

    /** oper_handler_init. */
    constructor (timers: seq<Timer>)
      requires forall i, j :: 0 <= i < j < |timers| ==> timers[i] != timers[j]
      requires forall t :: t in timers ==> t.Valid() && t.intervals == [] && t.Before(0)
      ensures Valid() && stops == [] && printed == [] && this.timers == timers && clock == 0
    {
      this.timers := timers;
      timersCopy := [];
      clock := 0;
      stops, covered, printed := [], [], [];
      open := seq(|timers|, _ => []);
      ConcatEmpty(seq(|timers|, _ => []));
    }

    /** oper_handler_process. */
    method Process(action: Action, thread: nat, now: nat)
      requires Valid() && thread < |timers| && clock <= now <= MAX_TIME
      modifies this`clock, this`stops, this`open, timers[thread]
      ensures Valid() && clock == now && printed == old(printed)
      ensures action == StartMessage ==> stops == old(stops) && timers[thread].timeStart == now
      ensures action == StopMessage ==> stops == old(stops) + [now - old(timers[thread].timeStart)]
      ensures timers[thread].intervals ==
              if action == StartMessage then old(timers[thread].intervals)
              else old(timers[thread].intervals) + [now - old(timers[thread].timeStart)]
      ensures open == old(open)[thread := timers[thread].intervals]
    {
      hide Balanced, Told, Summary, Timer.Valid;
      if action == StartMessage {
        timers[thread].Start(now);
      } else {
        timers[thread].Stop(now);
        ghost var x := timers[thread].elapsed;
        StopBalances(stops, covered, open, thread, x);
        open := open[thread := open[thread] + [x]];
        stops := stops + [x];
      }
      clock := now;
    }

    /** memcpy of the timers' counters. */
    method CopyTimers() returns (copy: seq<Stats>)
      requires Valid()
      ensures |copy| == |timers| == |open| && forall j :: 0 <= j < |timers| ==> copy[j] == Summary(open[j])
    {
      copy := [];
      for i := 0 to |timers|
        invariant |copy| == i && forall j :: 0 <= j < i ==> copy[j] == Summary(open[j])
      {
        copy := copy + [timers[i].stats];
      }
    }

    method ResetTimers()
      requires Distinct() && TimersHold()
      modifies this`open, timers
      ensures TimersHold() && |open| == |timers| && forall i :: 0 <= i < |open| ==> open[i] == []
      ensures forall i :: 0 <= i < |timers| ==> timers[i].stats == NoStats
    {
      hide Summary;
      for i := 0 to |timers|
        invariant open == old(open) && clock == old(clock)
        invariant forall j :: 0 <= j < |timers| ==> timers[j].Valid()
        invariant forall j :: 0 <= j < |timers| ==> timers[j].Before(clock)
        invariant forall j :: 0 <= j < i ==> timers[j].intervals == []
        invariant forall j :: 0 <= j < i ==> timers[j].stats == NoStats
      {
        timers[i].Reset();
      }
      open := seq(|timers|, _ => []);
    }

    /** print_global_stats, up to printing: what the report says. */
    method Report() returns (t: Stats)
      requires Valid()
      modifies this`timersCopy, this`open, this`covered, this`printed, timers
      ensures Valid() && clock == old(clock) && stops == old(stops)
      ensures printed == old(printed) + [t] && t == Summary(Concat(old(open)))
      ensures forall i :: 0 <= i < |timers| ==> timers[i].stats == NoStats
    {
      hide TimersHold, Balanced, Summary, MergeAll, Concat;
      ghost var before := open;
      var copy := CopyTimers();
      timersCopy := copy;
      ResetTimers();
      t := MergeCopies(copy);
      MergeAllIsSummary(copy, before);
      ReportBalances(stops, covered, before, open);
      covered := covered + [Concat(before)];
      printed := printed + [t];
    }
  }

  /** Statistics conservation, at every point of every run: all reports merged
      with what is left in the timers are the counters of one timer fed every
      stop, in whatever order. */
  lemma StatisticsConserved(log: Log, left: seq<Stats>)
    requires log.Valid() && |left| == |log.timers|
    requires forall i :: 0 <= i < |left| ==> left[i] == log.timers[i].stats
    ensures Merge(MergeAll(log.printed), MergeAll(left)) == Summary(log.stops)
    ensures MergeAll(log.printed).events + MergeAll(left).events == |log.stops|
  {
    MergeAllIsSummary(log.printed, log.covered);
    MergeAllIsSummary(left, log.open);
    SummaryMerges(Concat(log.covered), Concat(log.open));
    SummaryOrderFree(log.stops, Concat(log.covered) + Concat(log.open));
    EventsCount(log.stops);
  }

  lemma {:induction false} EventsCount(xs: seq<nat>)
    ensures Summary(xs).events == |xs|
  {
    if xs != [] { EventsCount(xs[..|xs| - 1]); }
  }
}
