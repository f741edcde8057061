/** Seconds and nanoseconds: adding a signed number of nanoseconds in place
    (add_ns_to_timespec), and the runner's pacing built on it. */
module TimeSpecs {

  const NS: int := 1_000_000_000

  /** C division and remainder truncate towards zero. */
  function CDiv(x: int, y: nat): int
    requires y > 0
  {
    if x >= 0 then x / y else -(-x / y)
  }

  function CMod(x: int, y: nat): int
    requires y > 0
  {
    x - CDiv(x, y) * y
  }

  lemma CModRange(x: int)
    ensures x >= 0 ==> 0 <= CMod(x, NS) < NS
    ensures x <= 0 ==> -NS < CMod(x, NS) <= 0
  {
  }

  class TimeSpec {
    var sec: int
    var nsec: int

    constructor (sec: int, nsec: int)
      ensures this.sec == sec && this.nsec == nsec
    {
      this.sec := sec;
      this.nsec := nsec;
    }

    /** The point in time, in nanoseconds. */
    function Total(): int
      reads this
    {
      sec * NS + nsec
    }

    /** add_ns_to_timespec: moves the time by exactly delta, of either sign. The
        nanoseconds stay within 0..10^9, and reach 10^9 exactly when they sum up
        to it or fall to a negative multiple of it. */
    method AddNs(delta: int)
      requires 0 <= nsec <= NS
      modifies this
      ensures Total() == old(Total()) + delta
      ensures 0 <= nsec <= NS
      ensures nsec == NS <==>
                old(nsec) + delta == NS || (old(nsec) + delta < 0 && CMod(old(nsec) + delta, NS) == 0)
    {
      var x := nsec + delta;
      CModRange(x);
      if x > NS {
        sec := sec + CDiv(x, NS);
        nsec := CMod(x, NS);
      } else if x < 0 {
        sec := sec - 1 + CDiv(x, NS);
        nsec := CMod(x, NS) + NS;
      } else {
        nsec := x;
      }
    }
  }

  /** runner_thread with a transaction rate: `nows` are the clock readings after
      each transaction, `draws` the random numbers for the jitter. The pauses aim
      at start + (k + 2) * period, k = 0, 1, ..., whatever the readings: lateness
      of one pass never moves the target of another. */
  method Pace(target: TimeSpec, period: int, jitter: nat, nows: seq<int>, draws: seq<nat>)
    returns (pauses: seq<int>)
    requires 0 <= target.nsec <= NS && jitter > 0 && |draws| == |nows|
    modifies target
    ensures target.Total() == old(target.Total()) + (|nows| + 1) * period
    ensures 0 <= target.nsec <= NS
    ensures |pauses| == |nows|
    ensures forall k :: 0 <= k < |nows| ==>
              pauses[k] == old(target.Total()) + (k + 2) * period - nows[k] - jitter / 2 + draws[k] % jitter
    ensures forall k :: 0 <= k < |nows| ==>
              -(jitter / 2) <= nows[k] + pauses[k] - (old(target.Total()) + (k + 2) * period) < jitter - jitter / 2
  {
    target.AddNs(period);
    pauses := [];
    for k := 0 to |nows|
      invariant 0 <= target.nsec <= NS && |pauses| == k
      invariant target.Total() == old(target.Total()) + (k + 1) * period
      invariant forall j :: 0 <= j < k ==>
                  pauses[j] == old(target.Total()) + (j + 2) * period - nows[j] - jitter / 2 + draws[j] % jitter
      invariant forall j :: 0 <= j < k ==>
                  -(jitter / 2) <= nows[j] + pauses[j] - (old(target.Total()) + (j + 2) * period) < jitter - jitter / 2
    {
      target.AddNs(period);
      pauses := pauses + [target.Total() - nows[k] - jitter / 2 + draws[k] % jitter];
      assert (k + 2) * period == (k + 1) * period + period;
    }
  }
}
