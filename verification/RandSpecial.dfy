/** The 'special' random distribution (sb_rand_special). */
module RandSpecial {
  import opened Common
  import opened NumberTheory

  /** rand_iter, rand_pct, rand_res. */
  datatype Params = Params(iter: nat, pct: nat, res: nat)

  const UINT_RANGE: nat := 0x1_0000_0000
  const INT_RANGE: nat := 0x8000_0000

  function RangeSize(t: nat, c: Params): (r: nat)
    requires c.res < 100
    ensures r >= t
  {
    var wider := 100 / (100 - c.res);
    MulMono(1, wider, t);
    t * wider
  }

  /** The first draw, reduced to the widened range. */
  function FirstOf(draw: nat, t: nat, c: Params): nat
    requires c.res < 100 && t > 0
  {
    draw % RangeSize(t, c)
  }

  /** No intermediate result for a range of t values leaves its C type. */
  ghost predicate NoOverflow(t: nat, c: Params)
    requires c.res < 100
  {
    && RangeSize(t, c) < UINT_RANGE && t * c.pct < UINT_RANGE
    && c.iter * t < INT_RANGE
  }

  /** Sum of the first n draws, each reduced modulo t. */
  function SumMod(draws: seq<nat>, n: nat, t: nat): nat
    requires n <= |draws| && t > 0
  {
    if n == 0 then 0 else SumMod(draws, n - 1, t) + draws[n - 1] % t
  }

  lemma SumModNext(draws: seq<nat>, n: nat, t: nat)
    requires n < |draws| && t > 0
    ensures SumMod(draws, n + 1, t) == SumMod(draws, n, t) + draws[n] % t
    ensures SumMod(draws, 0, t) == 0
  {
  }

  lemma {:induction false} SumModBound(draws: seq<nat>, n: nat, t: nat)
    requires n <= |draws| && t > 0
    ensures SumMod(draws, n, t) <= n * (t - 1)
  {
    if n > 0 {
      SumModBound(draws, n - 1, t);
      assert n * (t - 1) == (n - 1) * (t - 1) + (t - 1);
    }
  }

  function Same(x: nat): nat { x }

  /** Draws below t simply add up... */
  lemma {:induction false} SumModPlain(draws: seq<nat>, n: nat, t: nat)
    requires n <= |draws| && t > 0 && forall i :: 0 <= i < n ==> draws[i] < t
    ensures SumMod(draws, n, t) == Sum(draws[..n], Same)
  {
    if n > 0 {
      SumModPlain(draws, n - 1, t);
      SmallRemainder(t, draws[n - 1]);
      assert draws[..n] == draws[..n - 1] + [draws[n - 1]];
      SumPush(draws[..n - 1], draws[n - 1], Same);
    }
  }

  /** ... and other draws count as what they leave modulo t. */
  lemma {:induction false} SumModCongruent(draws: seq<nat>, others: seq<nat>, n: nat, t: nat)
    requires n <= |draws| == |others| && t > 0
    requires forall i :: 0 <= i < n ==> Divides(t, draws[i] as int - others[i] as int)
    ensures SumMod(draws, n, t) == SumMod(others, n, t)
  {
    if n > 0 {
      SumModCongruent(draws, others, n - 1, t);
      SameRemainder(t, draws[n - 1], others[n - 1]);
    }
  }

  /** The first draw counts as what it leaves modulo the widened range. */
  lemma FirstIsRemainder(draw: nat, t: nat, c: Params)
    requires c.res < 100 && t > 0
    ensures 0 <= FirstOf(draw, t, c) < t * Wider(c) && Divides(t * Wider(c), draw - FirstOf(draw, t, c))
  {
    DrawBelow(draw, t, c);
    var n, r := RangeSize(t, c), FirstOf(draw, t, c);
    assert draw - r == draw / n * n;
  }

  /** The range is widened by 100 / (100 - rand_res), rounded down. */
  lemma WiderIs(c: Params)
    requires c.res < 100
    ensures Wider(c) * (100 - c.res) <= 100 < (Wider(c) + 1) * (100 - c.res)
  {
    var d := 100 - c.res;
    assert 100 == 100 / d * d + 100 % d;
    assert (Wider(c) + 1) * d == Wider(c) * d + d;
  }

  /** The window is rand_pct percent of the range, rounded down, and never empty. */
  lemma WindowSizeIs(t: nat, c: Params)
    ensures t * c.pct >= 100 ==> 100 * WindowSize(t, c) <= t * c.pct < 100 * (WindowSize(t, c) + 1)
    ensures t * c.pct < 100 ==> WindowSize(t, c) == 1
  {
    var x := t * c.pct;
    assert x == x / 100 * 100 + x % 100;
  }

  /** Width of the window of special values. */
  function WindowSize(t: nat, c: Params): (d: nat)
    ensures d > 0
  {
    if t * c.pct / 100 < 1 then 1 else t * c.pct / 100
  }

  /** Where the window starts in the range. */
  function WindowStart(t: nat, c: Params): int {
    t / 2 - t * c.pct / 200
  }

  /** The offset of a special value. C computes it in unsigned ints; a negative
      one comes back as the same number when it is added to a and stored in an int. */
  function SpecialOffset(draw: nat, t: nat, c: Params): int
    requires c.res < 100 && t > 0
  {
    FirstOf(draw, t, c) % WindowSize(t, c) + WindowStart(t, c)
  }

  lemma OffsetParts(draw: nat, t: nat, c: Params)
    requires c.res < 100 && t > 0
    ensures SpecialOffset(draw, t, c) == FirstOf(draw, t, c) % WindowSize(t, c) + WindowStart(t, c)
  {
  }

  /** How many times the range was widened. */
  function Wider(c: Params): nat
    requires c.res < 100
  {
    100 / (100 - c.res)
  }

  /** What a caller can check: no draw is special, or the window is no wider than
      the range, or it is so wide that it begins where the special draws do. */
  predicate StaysInside(t: nat, c: Params)
    requires c.res < 100
  {
    || Wider(c) == 1
    || t * c.pct / 100 <= t
    || (Wider(c) == 2 && t * c.pct / 200 == t / 2 + t)
  }

  /** The window of special values lies inside the range, in its middle: its two
      margins differ by at most one. */
  lemma WindowInside(t: nat, c: Params)
    requires t >= 2 && t * c.pct / 100 <= t
    ensures 0 <= WindowStart(t, c)
    ensures WindowStart(t, c) + WindowSize(t, c) <= t
    ensures t * c.pct >= 100 ==>
              -1 <= (t - WindowStart(t, c) - WindowSize(t, c)) - WindowStart(t, c) <= 1
  {
    HalfWindow(t, c);
  }

  /** Half the window, rounded down. */
  lemma HalfWindow(t: nat, c: Params)
    ensures t * c.pct / 200 == (t * c.pct / 100) / 2
  {
    var x := t * c.pct;
    assert x / 200 == (x / 100) / 2;
  }

  /** At most 100 percent is enough. */
  lemma PercentEnough(t: nat, c: Params)
    requires c.pct <= 100 && c.res < 100
    ensures StaysInside(t, c)
  {
    MulMono(c.pct, 100, t);
    var x := t * c.pct;
    assert x <= 100 * t;
  }

  /** A draw inside the widened range is its own remainder. */
  lemma DrawSelf(r: nat, t: nat, c: Params)
    requires c.res < 100 && t > 0 && r < RangeSize(t, c)
    ensures FirstOf(r, t, c) == r
  {
  }

  lemma DrawBelow(draw: nat, t: nat, c: Params)
    requires c.res < 100 && t > 0
    ensures FirstOf(draw, t, c) < RangeSize(t, c) == t * Wider(c)
  {
  }

  ghost predicate AllSpecialInside(t: nat, c: Params)
    requires c.res < 100 && t > 0
  {
    forall draw: nat :: FirstOf(draw, t, c) >= t ==> 0 <= SpecialOffset(draw, t, c) < t
  }

  /** Every special draw stays in the range exactly under that condition. */
  lemma SpecialInsideIff(t: nat, c: Params)
    requires c.res < 100 && t >= 2
    ensures AllSpecialInside(t, c) <==> StaysInside(t, c)
  {
    if StaysInside(t, c) {
      forall draw: nat | FirstOf(draw, t, c) >= t
        ensures 0 <= SpecialOffset(draw, t, c) < t
      {
        InsideDraw(draw, t, c);
      }
    } else {
      OutsideDraw(t, c);
    }
  }

  /** The offset, by the window's width. */
  function Middle(r: nat, t: nat, d: nat): int {
    r % (if d < 1 then 1 else d) + t / 2 - d / 2
  }

  lemma OffsetIsMiddle(draw: nat, t: nat, c: Params)
    requires c.res < 100 && t > 0
    ensures SpecialOffset(draw, t, c) == Middle(FirstOf(draw, t, c), t, t * c.pct / 100)
  {
    hide FirstOf;
    HalfWindow(t, c);
  }

  lemma SmallMod(r: nat, d: nat)
    requires d > 0
    ensures r < d ==> r % d == r
    ensures r == d ==> r % d == 0
    ensures 0 <= r % d < d
  {
  }

  lemma InsideMiddle(r: nat, t: nat, d: nat, w: nat)
    requires t >= 2 && t <= r < t * w
    requires w == 1 || d <= t || (w == 2 && d / 2 == t / 2 + t)
    ensures 0 <= Middle(r, t, d) < t
  {
    SmallMod(r, if d < 1 then 1 else d);
    TimesAtLeast(t, w);
  }

  lemma InsideDraw(draw: nat, t: nat, c: Params)
    requires c.res < 100 && t >= 2 && FirstOf(draw, t, c) >= t && StaysInside(t, c)
    ensures 0 <= SpecialOffset(draw, t, c) < t
  {
    DrawBelow(draw, t, c);
    HalfWindow(t, c);
    OffsetIsMiddle(draw, t, c);
    hide FirstOf, SpecialOffset, RangeSize, Wider;
    InsideMiddle(FirstOf(draw, t, c), t, t * c.pct / 100, Wider(c));
  }

  /** Two draws whose offsets are a whole range apart, or one that is outside. */
  lemma OutsideMiddle(t: nat, d: nat, w: nat) returns (r: nat)
    requires t >= 2 && w >= 2 && d > t && !(w == 2 && d / 2 == t / 2 + t)
    ensures t <= r < t * w && !(0 <= Middle(r, t, d) < t)
  {
    TimesAtLeast(t, w);
    var low, high := t, if w == 2 then 2 * t - 1 else 2 * t;
    if d <= high {
      low, high := d - 1, d;
    }
    SmallMod(low, d);
    SmallMod(high, d);
    r := if 0 <= Middle(low, t, d) < t then high else low;
  }

  lemma OutsideDraw(t: nat, c: Params)
    requires c.res < 100 && t >= 2 && !StaysInside(t, c)
    ensures !AllSpecialInside(t, c)
  {
    HalfWindow(t, c);
    WiderPositive(c);
    var r := OutsideMiddle(t, t * c.pct / 100, Wider(c));
    DrawBelow(r, t, c);
    DrawSelf(r, t, c);
    OffsetIsMiddle(r, t, c);
  }

  lemma WiderPositive(c: Params)
    requires c.res < 100
    ensures Wider(c) >= 1
  {
  }

  lemma TimesAtLeast(t: nat, w: nat)
    ensures w == 1 ==> t * w == t
    ensures w == 2 ==> t * w == 2 * t
    ensures w >= 3 ==> t * w >= 3 * t
  {
  }

  /** The gaussian part: the mean of n draws below t. */
  method Mean(draws: seq<nat>, n: nat, t: nat) returns (mean: nat)
    requires 0 < n <= |draws| && t > 0
    ensures mean == SumMod(draws, n, t) / n && mean < t
  {
    hide SumMod;
    var sum := 0;
    SumModNext(draws, 0, t);
    for i := 0 to n
      invariant sum == SumMod(draws, i, t)
    {
      SumModNext(draws, i, t);
      sum := sum + draws[i] % t;
    }
    SumModBound(draws, n, t);
    MeanBound(sum, n, t);
    mean := sum / n;
  }

  /** sb_rand_special with the values the generator will return: the first draw
      chooses the part, the next rand_iter draws make the gaussian value. */
  method Special(a: int, b: int, c: Params, draws: seq<nat>) returns (v: int)
    requires a < b ==> c.iter >= 1 && c.res < 100 && NoOverflow(b - a + 1, c)
    requires |draws| >= c.iter + 1
    ensures a >= b ==> v == 0
    ensures a < b && FirstOf(draws[0], b - a + 1, c) < b - a + 1 ==>
              a <= v <= b && v == a + SumMod(draws[1..], c.iter, b - a + 1) / c.iter
    ensures a < b && FirstOf(draws[0], b - a + 1, c) >= b - a + 1 ==>
              v == a + SpecialOffset(draws[0], b - a + 1, c)
    ensures a < b && StaysInside(b - a + 1, c) ==> a <= v <= b
  {
    if a >= b {
      return 0;
    }
    var t: nat := b - a + 1;
    hide RangeSize, WindowSize, WindowStart, FirstOf, NoOverflow, StaysInside, SpecialOffset, SumMod;
    var res := FirstOf(draws[0], t, c);
    if res < t {
      var mean := Mean(draws[1..], c.iter, t);
      return a + mean;
    }
    var d := WindowSize(t, c);
    res := res % d;
    v := a + (res + WindowStart(t, c));
    OffsetParts(draws[0], t, c);
    if StaysInside(t, c) { InsideDraw(draws[0], t, c); }
  }

  lemma MeanBound(sum: nat, n: nat, t: nat)
    requires n > 0 && t > 0 && sum <= n * (t - 1)
    ensures sum / n <= t - 1
  {
    var q := sum / n;
    assert sum == q * n + sum % n;
    if q <= t - 1 {
    } else {
      MulMono(t, q, n);
      MulMono(t - 1, t, n);
    }
  }

  /** A range that is left: with 101 percent, and half of the draws special,
      1..100 yields 101. */
  lemma AboveHundredPercent(t: nat, c: Params)
    requires t == 100 && c.pct == 101 && c.res == 50
    ensures !StaysInside(t, c) && FirstOf(100, t, c) >= t && SpecialOffset(100, t, c) == t
  {
    DrawBelow(100, t, c);
    DrawSelf(100, t, c);
    OffsetIsMiddle(100, t, c);
  }

  /** 101 percent of a range of two values do no harm, and a window of exactly
      three times the range does none either. */
  lemma HarmlessPercents(c: Params)
    requires c.res == 50
    ensures c.pct == 101 ==> StaysInside(2, c)
    ensures c.pct == 300 ==> StaysInside(100, c)
  {
  }
}
