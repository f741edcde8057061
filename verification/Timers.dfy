/** sysbench's timers (sb_timer.c) and the statistics kept over all threads'
    timers (sb_logger.c: oper_handler_process, print_global_stats).
    A time is a number of nanoseconds read from a clock that never goes back. */
module Timers {
  import opened Common

  /** Counters are unsigned 64-bit; min_time starts at the greatest of them. */
  const MAX_TIME: nat := 0xFFFF_FFFF_FFFF_FFFF

  datatype Stats = Stats(events: nat, sum: nat, min: nat, max: nat)

  const NoStats := Stats(0, 0, MAX_TIME, 0)

  /** One more interval. */
  function Add(s: Stats, x: nat): Stats {
    Stats(s.events + 1, s.sum + x, if x < s.min then x else s.min, if x > s.max then x else s.max)
  }

  /** The counters of one timer fed these intervals. */
  function Summary(xs: seq<nat>): Stats {
    if xs == [] then NoStats else Add(Summary(xs[..|xs| - 1]), xs[|xs| - 1])
  }

  /** merge_timers. */
  function Merge(a: Stats, b: Stats): Stats {
    Stats(a.events + b.events, a.sum + b.sum,
          if a.min < b.min then a.min else b.min, if a.max > b.max then a.max else b.max)
  }

  lemma MergeAdd(a: Stats, b: Stats, x: nat)
    ensures Merge(a, Add(b, x)) == Add(Merge(a, b), x)
  {
  }

  lemma MergeNone(a: Stats)
    requires a.min <= MAX_TIME
    ensures Merge(a, NoStats) == a
  {
  }

  lemma SummaryPush(xs: seq<nat>, x: nat)
    ensures Summary(xs + [x]) == Add(Summary(xs), x)
  {
    assert (xs + [x])[..|xs|] == xs;
  }

  /** Merging two timers gives the counters of one timer fed both their intervals. */
  lemma {:induction false} SummaryMerges(xs: seq<nat>, ys: seq<nat>)
    ensures Merge(Summary(xs), Summary(ys)) == Summary(xs + ys)
  {
    if ys == [] {
      assert xs + ys == xs;
      MinAtMost(xs);
      MergeNone(Summary(xs));
    } else {
      hide Add, Merge, Summary;
      var front, y := ys[..|ys| - 1], ys[|ys| - 1];
      assert ys == front + [y] && xs + ys == (xs + front) + [y];
      SummaryMerges(xs, front);
      SummaryPush(front, y);
      SummaryPush(xs + front, y);
      MergeAdd(Summary(xs), Summary(front), y);
    }
  }

  lemma {:induction false} MinAtMost(xs: seq<nat>)
    ensures Summary(xs).min <= MAX_TIME
  {
    if xs != [] { MinAtMost(xs[..|xs| - 1]); }
  }

  /** Taking an interval out of the middle and adding it last changes nothing. */
  lemma {:induction false} SummaryMoves(xs: seq<nat>, i: nat)
    requires i < |xs|
    ensures Summary(xs) == Add(Summary(xs[..i] + xs[i + 1..]), xs[i])
  {
    var front, last := xs[..|xs| - 1], xs[|xs| - 1];
    assert xs == front + [last];
    SummaryPush(front, last);
    if i == |xs| - 1 {
      assert xs[..i] + xs[i + 1..] == front;
    } else {
      SummaryMoves(front, i);
      var rest := front[..i] + front[i + 1..];
      assert xs[..i] + xs[i + 1..] == rest + [last];
      SummaryPush(rest, last);
      hide Summary;
      AddSwaps(Summary(rest), last, xs[i]);
    }
  }

  lemma AddSwaps(s: Stats, x: nat, y: nat)
    ensures Add(Add(s, x), y) == Add(Add(s, y), x)
  {
  }

  /** The order of the intervals does not matter. */
  lemma {:induction false} SummaryOrderFree(xs: seq<nat>, ys: seq<nat>)
    requires multiset(xs) == multiset(ys)
    ensures Summary(xs) == Summary(ys)
  {
    if xs == [] {
      assert |multiset(ys)| == 0;
    } else {
      var x, front := xs[|xs| - 1], xs[..|xs| - 1];
      assert xs == front + [x];
      assert x in multiset(ys);
      var i :| 0 <= i < |ys| && ys[i] == x;
      var rest := ys[..i] + ys[i + 1..];
      assert ys == ys[..i] + [x] + ys[i + 1..];
      assert multiset(rest) == multiset(ys) - multiset{x};
      SummaryOrderFree(front, rest);
      SummaryMoves(ys, i);
    }
  }

  function Same(x: nat): nat { x }

  /** sum_time is the sum of the intervals. */
  lemma {:induction false} SummarySums(xs: seq<nat>)
    ensures Summary(xs).sum == Sum(xs, Same) && Summary(xs).events == |xs|
  {
    if xs != [] {
      var front, x := xs[..|xs| - 1], xs[|xs| - 1];
      SummarySums(front);
      assert xs == front + [x];
      SumPush(front, x, Same);
    }
  }

  /** min and max are those of the intervals... */
  lemma {:induction false} SummaryMinMax(xs: seq<nat>)
    requires forall x :: x in xs ==> x <= MAX_TIME
    ensures var s := Summary(xs);
            && (forall x :: x in xs ==> s.min <= x <= s.max)
            && (xs != [] ==> s.min in xs && s.max in xs)
  {
    if xs != [] {
      var front, x := xs[..|xs| - 1], xs[|xs| - 1];
      assert xs == front + [x];
      assert forall y :: y in front ==> y in xs;
      SummaryMinMax(front);
      assert forall y :: y in xs ==> y in front || y == x;
      assert x in xs;
    }
  }

  /** ... and bound the sum. */
  lemma {:induction false} SummaryBounds(xs: seq<nat>)
    requires forall x :: x in xs ==> x <= MAX_TIME
    ensures var s := Summary(xs);
            && s.events == |xs|
            && (forall x :: x in xs ==> s.min <= x <= s.max)
            && (xs != [] ==> s.min in xs && s.max in xs)
            && s.min * s.events <= s.sum <= s.max * s.events
  {
    SummaryMinMax(xs);
    SumWithin(xs);
  }

  lemma {:induction false} SumWithin(xs: seq<nat>)
    ensures var s := Summary(xs); s.events == |xs| && s.min * s.events <= s.sum <= s.max * s.events
  {
    if xs != [] {
      var front, x := xs[..|xs| - 1], xs[|xs| - 1];
      SumWithin(front);
      var f, s := Summary(front), Summary(xs);
      BoundsStep(f.min, s.min, f.events, f.sum, x);
      BoundsStepUp(f.max, s.max, f.events, f.sum, x);
    }
  }

  lemma BoundsStep(m: nat, m1: nat, n: nat, sum: nat, x: nat)
    requires m * n <= sum && m1 <= m && m1 <= x
    ensures m1 * (n + 1) <= sum + x
  {
    assert m1 * n <= m * n;
  }

  lemma BoundsStepUp(m: nat, m1: nat, n: nat, sum: nat, x: nat)
    requires sum <= m * n && m <= m1 && x <= m1
    ensures sum + x <= m1 * (n + 1)
  {
    assert m * n <= m1 * n;
  }

  datatype TimerState = Initialized | Stopped | Running

  class Timer {
    var timeStart: nat
    var timeEnd: nat
    var timeSplit: nat
    var elapsed: nat
    var stats: Stats
    var state: TimerState
    ghost var intervals: seq<nat>   // of the stops since the last reset

    ghost predicate Valid()
      reads this
    {
      && stats == Summary(intervals)
      && (forall x :: x in intervals ==> x <= MAX_TIME)
      && (state == Initialized ==> timeStart == timeEnd == timeSplit == 0)
      && timeStart <= timeSplit
      && (state == Stopped ==> timeSplit <= timeEnd)
    }

    /** Times already read lie before `now`. */
    ghost predicate Before(now: nat)
      reads this
    {
      timeStart <= now && timeEnd <= now && timeSplit <= now
    }

    /** sb_timer_init. */
    constructor ()
      ensures Valid() && intervals == [] && state == Initialized && Before(0)
    {
      timeStart, timeEnd, timeSplit, elapsed := 0, 0, 0, 0;
      stats := NoStats;
      state := Initialized;
      intervals := [];
    }

    /** sb_timer_reset: counters only. */
    method Reset()
      requires Valid()
      modifies this`elapsed, this`stats, this`intervals
      ensures Valid() && intervals == [] && stats == NoStats && elapsed == 0
    {
      stats := NoStats;
      elapsed := 0;
      intervals := [];
    }

    /** sb_timer_start. */
    method Start(now: nat)
      requires Valid() && Before(now)
      modifies this`timeStart, this`timeSplit, this`state
      ensures Valid() && Before(now) && timeStart == timeSplit == now && state == Running
    {
      timeStart := now;
      timeSplit := timeStart;
      state := Running;
    }

    /** sb_timer_stop: counts the time since the last start, also when the timer
        was stopped already or never started. */
    method Stop(now: nat)
      requires Valid() && Before(now) && now <= MAX_TIME
      modifies this`timeEnd, this`elapsed, this`stats, this`state, this`intervals
      ensures Valid() && Before(now)
      ensures intervals == old(intervals) + [now - timeStart] && elapsed == now - timeStart && state == Stopped
      ensures timeEnd == now
    {
      hide Summary;
      timeEnd := now;
      elapsed := timeEnd - timeStart;
      stats := Stats(stats.events + 1, stats.sum + elapsed, stats.min, stats.max);
      if elapsed < stats.min {
        stats := stats.(min := elapsed);
      }
      if elapsed > stats.max {
        stats := stats.(max := elapsed);
      }
      state := Stopped;
      assert stats == Add(old(stats), elapsed);
      SummaryPush(intervals, elapsed);
      intervals := intervals + [elapsed];
    }

    /** sb_timer_split: the time since the previous split, or since the start. */
    method Split(now: nat) returns (res: nat)
      requires Valid() && Before(now)
      modifies this`elapsed, this`timeSplit
      ensures Valid() && Before(now) && intervals == old(intervals)
      ensures elapsed == if state == Running then now - timeStart else old(elapsed)
      ensures state == Initialized ==> res == 0 && timeSplit == old(timeSplit)
      ensures state != Initialized ==>
                res == timeSplit - old(timeSplit) && timeSplit == if state == Stopped then timeEnd else now
    {
      match state
      case Initialized =>
        return 0;
      case Stopped =>
        res := timeEnd - timeSplit;
        timeSplit := timeEnd;
      case Running =>
        elapsed := now - timeStart;
        res := now - timeSplit;
        timeSplit := now;
    }
  }
}
