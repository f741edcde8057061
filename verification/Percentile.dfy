/** The response-time histogram (sb_percentile.c) against the samples it was fed.
    The logarithm and its inverse are any increasing function and its inverse;
    arithmetic is exact. */
module Percentile {

  /** log and exp. */
  datatype Log = Log(log: real -> real, exp: real -> real) {
    ghost predicate Valid() {
      && (forall x, y :: 0.0 < x < y ==> log(x) < log(y))
      && (forall y :: exp(y) > 0.0 && log(exp(y)) == y)
    }
  }

  /** What sb_percentile_init fixes. */
  datatype Scale = Scale(size: nat, rangeMin: real, rangeMax: real, deduct: real, mult: real, l: Log) {
    ghost predicate Valid() {
      && l.Valid() && size >= 2 && 0.0 < rangeMin < rangeMax
      && deduct == l.log(rangeMin)
      && l.log(rangeMax) - deduct > 0.0
      && mult == (size - 1) as real / (l.log(rangeMax) - deduct)
    }

    function Clamp(value: real): (v: real)
      requires rangeMin < rangeMax
      ensures InRange(v) && (InRange(value) ==> v == value)
      ensures forall x :: InRange(x) ==> Distance(value, v) <= Distance(value, x)
    {
      if value < rangeMin then rangeMin else if value > rangeMax then rangeMax else value
    }

    predicate InRange(v: real) { rangeMin <= v <= rangeMax }

    function Position(v: real): real { (l.log(v) - deduct) * mult }

    /** The bucket of a clamped value. */
    function Bucket(v: real): int { (Position(v) + 0.5).Floor }

    /** The value reported for a bucket. */
    function Reported(i: int): real
      requires mult != 0.0
    {
      l.exp(i as real / mult + deduct)
    }
  }

  function Distance(x: real, y: real): real {
    if x < y then y - x else x - y
  }

  lemma MultPositive(c: Scale)
    requires c.Valid()
    ensures c.mult > 0.0
    ensures (c.l.log(c.rangeMax) - c.deduct) * c.mult == (c.size - 1) as real
  {
  }

  lemma ScaledOrder(a: real, b: real, m: real)
    requires a <= b && m > 0.0
    ensures a * m <= b * m
  {
  }

  lemma BucketRange(c: Scale, v: real)
    requires c.Valid() && c.InRange(v)
    ensures 0 <= c.Bucket(v) < c.size
  {
    MultPositive(c);
    assert c.deduct <= c.l.log(v) <= c.l.log(c.rangeMax);
    ScaledOrder(0.0, c.l.log(v) - c.deduct, c.mult);
    ScaledOrder(c.l.log(v) - c.deduct, c.l.log(c.rangeMax) - c.deduct, c.mult);
  }

  lemma BucketMonotone(c: Scale, v: real, w: real)
    requires c.Valid() && c.InRange(v) && c.InRange(w) && v <= w
    ensures c.Bucket(v) <= c.Bucket(w)
  {
    MultPositive(c);
    assert c.l.log(v) <= c.l.log(w);
    ScaledOrder(c.l.log(v) - c.deduct, c.l.log(w) - c.deduct, c.mult);
  }

  // --------------------------------------------------------------------------
  // Counting samples
  // --------------------------------------------------------------------------

  function Less(s: seq<real>, q: real): nat {
    if s == [] then 0 else (if s[|s| - 1] < q then 1 else 0) + Less(s[..|s| - 1], q)
  }

  function AtMost(s: seq<real>, q: real): nat {
    if s == [] then 0 else (if s[|s| - 1] <= q then 1 else 0) + AtMost(s[..|s| - 1], q)
  }

  /** Samples in bucket i. */
  function InBucket(c: Scale, s: seq<real>, i: int): nat {
    if s == [] then 0 else (if c.Bucket(s[|s| - 1]) == i then 1 else 0) + InBucket(c, s[..|s| - 1], i)
  }

  /** Samples in buckets up to i. */
  function UpToBucket(c: Scale, s: seq<real>, i: int): nat {
    if s == [] then 0 else (if c.Bucket(s[|s| - 1]) <= i then 1 else 0) + UpToBucket(c, s[..|s| - 1], i)
  }

  ghost predicate AllInRange(c: Scale, s: seq<real>) {
    forall i :: 0 <= i < |s| ==> c.InRange(s[i])
  }

  lemma {:induction false} UpToBucketStep(c: Scale, s: seq<real>, i: int)
    ensures UpToBucket(c, s, i) == UpToBucket(c, s, i - 1) + InBucket(c, s, i)
    ensures UpToBucket(c, s, i) <= |s|
  {
    if s != [] { UpToBucketStep(c, s[..|s| - 1], i); }
  }

  lemma {:induction false} UpToBucketEnds(c: Scale, s: seq<real>)
    requires c.Valid() && AllInRange(c, s)
    ensures UpToBucket(c, s, -1) == 0 && UpToBucket(c, s, c.size - 1) == |s|
  {
    if s != [] {
      BucketRange(c, s[|s| - 1]);
      UpToBucketEnds(c, s[..|s| - 1]);
    }
  }

  lemma {:induction false} UpToBucketMonotone(c: Scale, s: seq<real>, i: int, j: int)
    requires i <= j
    ensures UpToBucket(c, s, i) <= UpToBucket(c, s, j)
  {
    if s != [] { UpToBucketMonotone(c, s[..|s| - 1], i, j); }
  }

  // --------------------------------------------------------------------------
  // The order statistic
  // --------------------------------------------------------------------------

  /** q is the k-th smallest sample. */
  ghost predicate KthSmallest(s: seq<real>, k: nat, q: real) {
    q in s && Less(s, q) < k <= AtMost(s, q)
  }

  lemma {:induction false} CountsMonotone(s: seq<real>, p: real, q: real)
    requires p < q
    ensures AtMost(s, p) <= Less(s, q)
  {
    if s != [] { CountsMonotone(s[..|s| - 1], p, q); }
  }

  lemma KthSmallestUnique(s: seq<real>, k: nat, p: real, q: real)
    requires KthSmallest(s, k, p) && KthSmallest(s, k, q)
    ensures p == q
  {
    if p < q { CountsMonotone(s, p, q); }
    if q < p { CountsMonotone(s, q, p); }
  }

  lemma {:induction false} LessOrIn(s: seq<real>, q: real)
    ensures Less(s, q) <= AtMost(s, q) <= |s|
    ensures q !in s ==> Less(s, q) == AtMost(s, q)
  {
    if s != [] { LessOrIn(s[..|s| - 1], q); }
  }

  /** The k-th smallest of s and a further sample x. */
  lemma {:induction false} KthSmallestExists(s: seq<real>, k: nat) returns (q: real)
    requires 1 <= k <= |s|
    ensures KthSmallest(s, k, q)
  {
    var front, x := s[..|s| - 1], s[|s| - 1];
    assert s == front + [x];
    LessOrIn(front, x);
    if k <= Less(front, x) {
      q := KthSmallestExists(front, k);
      if x < q { CountsMonotone(front, x, q); }
      if x == q { assert false; }
    } else if k <= AtMost(front, x) + 1 {
      q := x;
    } else {
      q := KthSmallestExists(front, k - 1);
      if q < x { CountsMonotone(front, q, x); }
      if x == q { assert false; }
    }
  }

  // --------------------------------------------------------------------------
  // The index the search finds
  // --------------------------------------------------------------------------

  function Max(a: int, b: int): int { if a > b then a else b }

  /** The least index from 1 on whose cumulative count reaches k. */
  ghost predicate Found(c: Scale, s: seq<real>, k: nat, i: int) {
    && 1 <= i < c.size
    && UpToBucket(c, s, i) >= k
    && (forall j :: 1 <= j < i ==> UpToBucket(c, s, j) < k)
  }

  /** Samples below the bucket of q are smaller than q; samples up to q are in buckets up to q's. */
  lemma {:induction false} BucketBounds(c: Scale, s: seq<real>, q: real, j: int)
    requires c.Valid() && AllInRange(c, s) && c.InRange(q)
    ensures AtMost(s, q) <= UpToBucket(c, s, c.Bucket(q))
    ensures j < c.Bucket(q) ==> UpToBucket(c, s, j) <= Less(s, q)
  {
    if s != [] {
      var x := s[|s| - 1];
      BucketBounds(c, s[..|s| - 1], q, j);
      if x <= q { BucketMonotone(c, x, q); }
      if q <= x { BucketMonotone(c, q, x); }
    }
  }

  /** The index found is the bucket of the k-th smallest sample, save that
      bucket 0 is reported as bucket 1. */
  lemma FoundIsOrderStatistic(c: Scale, s: seq<real>, k: nat, i: int, q: real)
    requires c.Valid() && AllInRange(c, s) && Found(c, s, k, i) && KthSmallest(s, k, q)
    ensures i == Max(1, c.Bucket(q)) && 0 <= c.Bucket(q) < c.size
  {
    BucketRange(c, q);
    BucketBounds(c, s, q, i);
    if c.Bucket(q) < 1 {
      UpToBucketMonotone(c, s, c.Bucket(q), 1);
    }
  }

  /** The value reported for that index has a logarithm within half a bucket of
      the sample's exactly when the sample is not in bucket 0. */
  lemma ReportedNear(c: Scale, q: real)
    requires c.Valid() && c.InRange(q)
    ensures c.mult > 0.0
    ensures var err := c.l.log(c.Reported(Max(1, c.Bucket(q)))) - c.l.log(q);
            -0.5 / c.mult <= err <= 0.5 / c.mult <==> c.Bucket(q) != 0
  {
    MultPositive(c);
    BucketRange(c, q);
    var i := Max(1, c.Bucket(q));
    var err := c.l.log(c.Reported(i)) - c.l.log(q);
    ErrorScaled(i as real, c.deduct, c.l.log(q), c.mult);
    assert err * c.mult == i as real - c.Position(q);
    NearestInteger(c.Position(q));
    WithinHalf(err, c.mult);
  }

  lemma NearestInteger(z: real)
    requires (z + 0.5).Floor >= 0
    ensures var i := Max(1, (z + 0.5).Floor);
            -0.5 <= i as real - z <= 0.5 <==> (z + 0.5).Floor != 0
  {
  }

  lemma WithinHalf(err: real, m: real)
    requires m > 0.0
    ensures -0.5 / m <= err <= 0.5 / m <==> -0.5 <= err * m <= 0.5
  {
    assert (0.5 / m) * m == 0.5 && (-0.5 / m) * m == -0.5;
    ScaledIff(err, 0.5 / m, m);
    ScaledIff(-0.5 / m, err, m);
  }

  lemma ErrorScaled(i: real, d: real, lq: real, m: real)
    requires m > 0.0
    ensures (i / m + d - lq) * m == i - (lq - d) * m
  {
    assert (i / m) * m == i;
  }

  lemma ScaledIff(a: real, b: real, m: real)
    requires m > 0.0
    ensures a <= b <==> a * m <= b * m
  {
    if a > b {
      assert (a - b) * m > 0.0;
    } else {
      ScaledOrder(a, b, m);
    }
  }

  /** nmax: the rank for a percentage. */
  function Rank(total: nat, percent: real): int {
    (total as real * percent / 100.0 + 0.5).Floor
  }

  lemma RankRange(total: nat, percent: real)
    requires 0.0 <= percent <= 100.0
    ensures 0 <= Rank(total, percent) <= total
  {
    ScaledOrder(0.0, percent, total as real + 1.0);
    assert 0.0 <= total as real * percent;
    assert total as real * percent <= total as real * 100.0 by {
      if total > 0 { ScaledOrder(percent, 100.0, total as real); }
    }
  }

  method MemCpy(dst: array<nat>, src: array<nat>)
    requires dst != src && dst.Length == src.Length
    modifies dst
    ensures forall j :: 0 <= j < src.Length ==> dst[j] == src[j]
  {
    for k := 0 to src.Length
      invariant forall j :: 0 <= j < k ==> dst[j] == src[j]
    {
      dst[k] := src[k];
    }
  }

  /** percent of the samples, rounded to the nearest, lie at or below q and not
      all of them below it. */
  ghost predicate Splits(s: seq<real>, percent: real, q: real) {
    Less(s, q) as real + 0.5 <= |s| as real * percent / 100.0 < AtMost(s, q) as real + 0.5
  }

  /** The index belongs to the sample that percent of the samples reach, or is 1
      when they are less than half a sample. */
  ghost predicate Reaches(c: Scale, s: seq<real>, percent: real, i: int) {
    || (|s| as real * percent / 100.0 < 0.5 && i == 1)
    || exists q :: q in s && Splits(s, percent, q) && i == Max(1, c.Bucket(q))
  }

  class Histogram {
    const c: Scale
    const values: array<nat>
    const tmp: array<nat>
    var total: nat
    ghost var samples: seq<real>   // clamped samples since the last reset

    /** The histogram counts the samples, and nothing else. */
    ghost predicate Valid()
      reads this, values
    {
      && c.Valid() && AllInRange(c, samples)
      && values != tmp && values.Length == tmp.Length == c.size
      && total == |samples|
      && (forall i :: 0 <= i < c.size ==> values[i] == InBucket(c, samples, i))
    }

    /** sb_percentile_init. */
    constructor (size: nat, rangeMin: real, rangeMax: real, l: Log)
      requires size >= 2 && 0.0 < rangeMin < rangeMax && l.Valid()
      ensures Valid() && samples == [] && fresh(values) && fresh(tmp)
      ensures c.size == size && c.rangeMin == rangeMin && c.rangeMax == rangeMax && c.l == l
    {
      var deduct := l.log(rangeMin);
      var mult := (size - 1) as real / (l.log(rangeMax) - deduct);
      c := Scale(size, rangeMin, rangeMax, deduct, mult, l);
      values := new nat[size](_ => 0);
      tmp := new nat[size](_ => 0);
      total := 0;
      samples := [];
    }

    /** sb_percentile_update. */
    method Update(value: real)
      requires Valid()
      modifies this`total, this`samples, values
      ensures Valid() && samples == old(samples) + [c.Clamp(value)]
    {
      var v := c.Clamp(value);
      BucketRange(c, v);
      var n := c.Bucket(v);
      total := total + 1;
      values[n] := values[n] + 1;
      samples := samples + [v];
      assert samples[..|samples| - 1] == old(samples);
    }

    /** sb_percentile_calculate: the value reported, and the index it comes from. */
    method Calculate(percent: real) returns (r: real, i: nat)
      requires Valid() && 0.0 <= percent <= 100.0
      modifies tmp
      ensures total == 0 ==> r == 0.0
      ensures total > 0 ==> c.mult != 0.0 && r == c.Reported(i)
      ensures total > 0 ==> 0 <= Rank(total, percent) && Found(c, samples, Rank(total, percent), i)
      ensures total > 0 ==> Reaches(c, samples, percent, i)
    {
      if total == 0 {
        return 0.0, 0;
      }
      MultPositive(c);
      assert c.size >= 2;
      hide InBucket, UpToBucket, AllInRange, Rank, Scale.Valid, Scale.Reported;
      MemCpy(tmp, values);
      var nmax := Rank(total, percent);
      RankRange(total, percent);
      UpToBucketEnds(c, samples);
      UpToBucketStep(c, samples, 0);
      var ncur := tmp[0];
      i := 1;
      while i < c.size
        invariant 1 <= i <= c.size
        invariant forall j :: 0 <= j < c.size ==> tmp[j] == InBucket(c, samples, j)
        invariant ncur == UpToBucket(c, samples, i - 1)
        invariant forall j :: 1 <= j < i ==> UpToBucket(c, samples, j) < nmax
      {
        ncur := ncur + tmp[i];
        UpToBucketStep(c, samples, i);
        if ncur >= nmax {
          break;
        }
        i := i + 1;
      }
      r := c.Reported(i);
      IndexReaches(c, samples, percent, i);
    }

    /** sb_percentile_reset. */
    method Reset()
      requires Valid()
      modifies this`total, this`samples, values
      ensures Valid() && samples == []
    {
      total := 0;
      for k := 0 to c.size
        invariant total == 0
        invariant forall j :: 0 <= j < k ==> values[j] == 0
      {
        values[k] := 0;
      }
      samples := [];
    }
  }

  /** The whole of it, for any samples and any percentage: the index found is
      max(1, bucket of the sample of rank nmax), the one that percent of the
      samples reach, or 1 when that is none. */
  lemma PercentileIsOrderStatistic(c: Scale, s: seq<real>, percent: real, i: int)
    requires c.Valid() && AllInRange(c, s) && s != [] && 0.0 <= percent <= 100.0
    requires 0 <= Rank(|s|, percent) && Found(c, s, Rank(|s|, percent), i)
    ensures 1 <= i < c.size
    ensures Rank(|s|, percent) == 0 ==> i == 1
    ensures Rank(|s|, percent) > 0 ==> exists q :: KthSmallest(s, Rank(|s|, percent), q)
    ensures forall q :: KthSmallest(s, Rank(|s|, percent), q) ==> i == Max(1, c.Bucket(q))
    ensures forall q :: KthSmallest(s, Rank(|s|, percent), q) ==> Splits(s, percent, q)
    ensures Rank(|s|, percent) == 0 <==> |s| as real * percent / 100.0 < 0.5
  {
    var k := Rank(|s|, percent);
    RankRange(|s|, percent);
    if k == 0 {
      assert i > 1 ==> UpToBucket(c, s, 1) < 0;
    } else {
      var q := KthSmallestExists(s, k);
    }
    forall q | KthSmallest(s, k, q) ensures i == Max(1, c.Bucket(q)) {
      FoundIsOrderStatistic(c, s, k, i, q);
    }
  }

  /** The buckets add up to the total. */
  lemma BucketsAddUp(h: Histogram)
    requires h.Valid()
    ensures SumTo(h.values[..], h.c.size) == h.total
  {
    SumIsUpToBucket(h.c, h.samples, h.values[..], h.c.size);
    UpToBucketEnds(h.c, h.samples);
  }

  function SumTo(v: seq<nat>, n: nat): nat
    requires n <= |v|
  {
    if n == 0 then 0 else SumTo(v, n - 1) + v[n - 1]
  }

  lemma {:induction false} SumIsUpToBucket(c: Scale, s: seq<real>, v: seq<nat>, n: nat)
    requires c.Valid() && AllInRange(c, s) && n <= |v| == c.size
    requires forall i :: 0 <= i < |v| ==> v[i] == InBucket(c, s, i)
    ensures SumTo(v, n) == UpToBucket(c, s, n - 1)
  {
    if n == 0 {
      UpToBucketEnds(c, s);
    } else {
      SumIsUpToBucket(c, s, v, n - 1);
      UpToBucketStep(c, s, n - 1);
    }
  }

  lemma IndexReaches(c: Scale, s: seq<real>, percent: real, i: int)
    requires c.Valid() && AllInRange(c, s) && s != [] && 0.0 <= percent <= 100.0
    requires 0 <= Rank(|s|, percent) && Found(c, s, Rank(|s|, percent), i)
    ensures Reaches(c, s, percent, i)
  {
    PercentileIsOrderStatistic(c, s, percent, i);
    if Rank(|s|, percent) > 0 {
      var q :| KthSmallest(s, Rank(|s|, percent), q);
    }
  }
}
