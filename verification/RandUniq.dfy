/** Unique random ids (sb_rand_uniq): any number of threads draw from one seed
    under a mutex. */
module RandUniq {
  import opened Common
  import opened Runs
  import opened NumberTheory
  import opened Primality

  const LARGE_PRIME: nat := 2147483647

  /** rnd_seed is an unsigned long long. */
  const WORD: nat := 0x1_0000_0000_0000_0000

  datatype Pc =
    | Outside
    | Locking(a: int, b: int)
    | Drawing(a: int, b: int)
    | Advancing(a: int, b: int, res: nat)
    | Unlocking(a: int, b: int, res: nat)
    | Returned(a: int, b: int, value: int)

  /** What a thread drew in which of its calls. */
  datatype Draw = Draw(thread: nat, call: nat, a: int, b: int, value: int)

  /** A thread, and how many calls it has begun. */
  datatype Thread = Thread(pc: Pc, calls: nat)

  /** `draws`: in the order in which the calls held the mutex. */
  datatype State = State(seed: nat, mutex: Option<nat>, ts: seq<Thread>, draws: seq<Draw>)

  datatype Label = Call(thread: nat, a: int, b: int) | Go(thread: nat)

  function Init(threads: nat): State {
    State(LARGE_PRIME, None, seq(threads, _ => Thread(Outside, 0)), [])
  }

  function At(s: State, t: nat, pc: Pc): State
    requires t < |s.ts|
  {
    s.(ts := s.ts[t := s.ts[t].(pc := pc)])
  }

  /** One statement of sb_rand_uniq(a, b), a <= b, by one thread. */
  function Step(s: State, l: Label): Option<State> {
    var t := l.thread;
    if t >= |s.ts| then None
    else if l.Call? then
      (if (s.ts[t].pc.Outside? || s.ts[t].pc.Returned?) && l.a <= l.b
       then Some(s.(ts := s.ts[t := Thread(Locking(l.a, l.b), s.ts[t].calls + 1)])) else None)
    else
      match s.ts[t].pc
      case Outside => None
      case Returned(_, _, _) => None
      case Locking(a, b) => if s.mutex.None? then Some(At(s, t, Drawing(a, b)).(mutex := Some(t))) else None
      case Drawing(a, b) =>
        if a <= b then
          var res := s.seed % (b - a + 1);
          Some(At(s, t, Advancing(a, b, res)).(draws := s.draws + [Draw(t, s.ts[t].calls, a, b, a + res)]))
        else None
      case Advancing(a, b, res) => Some(At(s, t, Unlocking(a, b, res)).(seed := (s.seed + LARGE_PRIME) % WORD))
      case Unlocking(a, b, res) => Some(At(s, t, Returned(a, b, res + a)).(mutex := None))
  }

  ghost predicate Reachable(s: State) {
    exists n: nat :: Leads(Step, Init(n), s)
  }

  /** The seed the k-th draw sees. */
  function SeedOf(k: nat): nat {
    (k + 1) * LARGE_PRIME % WORD
  }

  /** Inside the mutex. */
  predicate Holding(t: Thread) {
    t.pc.Drawing? || t.pc.Advancing? || t.pc.Unlocking?
  }

  predicate BeforeDraw(t: Thread) { t.pc.Drawing? }

  /** Drawn, but the seed not moved on yet. */
  predicate BeforeAdvance(t: Thread) { t.pc.Advancing? }

  predicate BeforeUnlock(t: Thread) { t.pc.Unlocking? }

  ghost predicate DrawsRight(draws: seq<Draw>) {
    forall k: nat :: k < |draws| ==>
      draws[k].a <= draws[k].b
      && draws[k].value == draws[k].a + SeedOf(k) % (draws[k].b - draws[k].a + 1)
  }

  /** Every call draws at most once. */
  ghost predicate DrawsApart(draws: seq<Draw>) {
    forall j, k :: 0 <= j < k < |draws| ==> (draws[j].thread, draws[j].call) != (draws[k].thread, draws[k].call)
  }

  /** The running call of thread t has drawn nothing before its draw, and what
      the thread holds or returns is what it drew in that call. */
  ghost predicate OwnDraws(draws: seq<Draw>, t: nat, th: Thread) {
    && (forall k :: 0 <= k < |draws| && draws[k].thread == t ==> draws[k].call <= th.calls)
    && (th.pc.Locking? || th.pc.Drawing? ==>
          forall k :: 0 <= k < |draws| && draws[k].thread == t ==> draws[k].call < th.calls)
    && (th.pc.Advancing? || th.pc.Unlocking? ==> Draw(t, th.calls, th.pc.a, th.pc.b, th.pc.a + th.pc.res) in draws)
    && (th.pc.Returned? ==> Draw(t, th.calls, th.pc.a, th.pc.b, th.pc.value) in draws)
  }

  ghost predicate Inv(s: State) {
    && CountIf(s.ts, Holding) == (if s.mutex.Some? then 1 else 0)
    && CountIf(s.ts, BeforeAdvance) <= |s.draws|
    && s.seed == SeedOf(|s.draws| - CountIf(s.ts, BeforeAdvance))
    && DrawsRight(s.draws)
    && DrawsApart(s.draws)
    && (forall t: nat :: t < |s.ts| ==> OwnDraws(s.draws, t, s.ts[t]))
    && (forall k :: 0 <= k < |s.draws| ==> s.draws[k].thread < |s.ts|)
  }

  lemma {:induction false} HoldingSplits(ts: seq<Thread>)
    ensures CountIf(ts, Holding)
         == CountIf(ts, BeforeDraw) + CountIf(ts, BeforeAdvance) + CountIf(ts, BeforeUnlock)
  {
    if ts != [] { HoldingSplits(ts[1..]); }
  }

  /** Adding before or after a wrap comes to the same. */
  lemma WrapsOnce(p: nat, d: nat, w: nat)
    requires w > 0
    ensures (p % w + d) % w == (p + d) % w
  {
    assert (p % w + d) - (p + d) == -(p / w) * w;
    SameRemainder(w, p % w + d, p + d);
  }

  lemma SeedSteps(k: nat)
    ensures (SeedOf(k) + LARGE_PRIME) % WORD == SeedOf(k + 1)
  {
    WrapsOnce((k + 1) * LARGE_PRIME, LARGE_PRIME, WORD);
  }

  lemma StepKeepsCounts(s: State, l: Label)
    requires Inv(s) && Step(s, l).Some?
    ensures var s1 := Step(s, l).value;
            && CountIf(s1.ts, Holding) == (if s1.mutex.Some? then 1 else 0)
            && CountIf(s1.ts, BeforeAdvance) <= |s1.draws|
            && s1.seed == SeedOf(|s1.draws| - CountIf(s1.ts, BeforeAdvance))
            && (s.ts[l.thread].pc.Drawing? ==> CountIf(s.ts, BeforeAdvance) == 0)
  {
    hide DrawsRight, DrawsApart, OwnDraws, SeedOf;
    var th := Step(s, l).value.ts[l.thread];
    CountUpdate(s.ts, l.thread, th, Holding);
    CountUpdate(s.ts, l.thread, th, BeforeAdvance);
    HoldingSplits(s.ts);
    CountBounds(s.ts, Holding);
    CountBounds(s.ts, BeforeDraw);
    CountBounds(s.ts, BeforeAdvance);
    SeedSteps(|s.draws| - CountIf(s.ts, BeforeAdvance));
  }

  /** A draw of another thread does not touch what thread u has drawn. */
  lemma OthersKeep(draws: seq<Draw>, d: Draw, u: nat, th: Thread)
    requires OwnDraws(draws, u, th) && d.thread != u
    ensures OwnDraws(draws + [d], u, th)
  {
  }

  lemma OwnDrawAdded(draws: seq<Draw>, d: Draw, th: Thread)
    requires OwnDraws(draws, d.thread, th) && th.pc.Drawing? && d.call == th.calls && DrawsApart(draws)
    requires d.a == th.pc.a && d.b == th.pc.b && d.value >= d.a
    ensures DrawsApart(draws + [d])
    ensures OwnDraws(draws + [d], d.thread, th.(pc := Advancing(d.a, d.b, d.value - d.a)))
  {
    assert (draws + [d])[|draws|] == d;
  }

  lemma StepKeepsDraws(s: State, l: Label)
    requires Inv(s) && Step(s, l).Some?
    ensures var s1 := Step(s, l).value;
            && DrawsApart(s1.draws)
            && (forall t: nat :: t < |s1.ts| ==> OwnDraws(s1.draws, t, s1.ts[t]))
            && (forall k :: 0 <= k < |s1.draws| ==> s1.draws[k].thread < |s1.ts|)
  {
    hide DrawsApart, DrawsRight, CountIf, SeedOf;
    var u, s1 := l.thread, Step(s, l).value;
    assert OwnDraws(s.draws, u, s.ts[u]);
    if s.ts[u].pc.Drawing? {
      var d := s1.draws[|s.draws|];
      OwnDrawAdded(s.draws, d, s.ts[u]);
      forall t: nat | t < |s1.ts| && t != u ensures OwnDraws(s1.draws, t, s1.ts[t]) {
        assert OwnDraws(s.draws, t, s.ts[t]);
        OthersKeep(s.draws, d, t, s.ts[t]);
      }
    } else {
      forall t: nat | t < |s1.ts| ensures OwnDraws(s1.draws, t, s1.ts[t]) {
        assert OwnDraws(s.draws, t, s.ts[t]);
      }
    }
  }

  lemma StepKeepsInv(s: State, l: Label)
    requires Inv(s) && Step(s, l).Some?
    ensures Inv(Step(s, l).value)
  {
    StepKeepsCounts(s, l);
    StepKeepsDraws(s, l);
  }

  lemma InitInv(n: nat)
    ensures Inv(Init(n))
  {
    CountBounds(Init(n).ts, Holding);
    CountBounds(Init(n).ts, BeforeAdvance);
  }

  lemma ReachableInv(s: State)
    requires Reachable(s)
    ensures Inv(s)
  {
    hide Inv, Step;
    var n: nat :| Leads(Step, Init(n), s);
    var ls :| Exec(Step, Init(n), ls) == Some(s);
    InitInv(n);
    forall s, l | Inv(s) && Step(s, l).Some? ensures Inv(Step(s, l).value) {
      StepKeepsInv(s, l);
    }
    ExecKeeps(Step, Inv, Init(n), ls);
  }

  /** Whatever the interleaving, the k-th call to get the mutex draws
      a + seed_k % (b - a + 1) with seed_k = (k + 1) * LARGE_PRIME modulo 2^64,
      and every call returns its own draw, the only one it makes. */
  lemma DrawsDetermined(s: State)
    requires Reachable(s)
    ensures DrawsRight(s.draws)
    ensures DrawsApart(s.draws)
    ensures forall t: nat :: t < |s.ts| && s.ts[t].pc.Returned? ==>
              Draw(t, s.ts[t].calls, s.ts[t].pc.a, s.ts[t].pc.b, s.ts[t].pc.value) in s.draws
  {
    ReachableInv(s);
    forall t: nat | t < |s.ts| && s.ts[t].pc.Returned?
      ensures Draw(t, s.ts[t].calls, s.ts[t].pc.a, s.ts[t].pc.b, s.ts[t].pc.value) in s.draws
    {
      assert OwnDraws(s.draws, t, s.ts[t]);
    }
  }

  // --------------------------------------------------------------------------
  // n consecutive draws from a range of size n
  // --------------------------------------------------------------------------

  /** The offset of the k-th draw in a range of size n, when the seed has lost
      `lost` to wraps. */
  function Offset(k: nat, n: nat, lost: int): nat
    requires n > 0
  {
    ((k + 1) * LARGE_PRIME - lost) % n
  }

  lemma OffsetsRepeat(n: nat, i: nat, j: nat, lost: int)
    requires n > 0
    ensures Offset(i, n, lost) == Offset(j, n, lost) <==> Divides(n, (i - j) * LARGE_PRIME)
  {
    var x, y := (i + 1) * LARGE_PRIME - lost, (j + 1) * LARGE_PRIME - lost;
    assert x - y == (i - j) * LARGE_PRIME;
    SameRemainder(n, x, y);
  }

  lemma OffsetsDiffer(n: nat, i: nat, j: nat, lost: int)
    requires n > 0 && Gcd(n, LARGE_PRIME) == 1 && i < j < i + n
    ensures Offset(i, n, lost) != Offset(j, n, lost)
  {
    OffsetsRepeat(n, j, i, lost);
    if Offset(i, n, lost) == Offset(j, n, lost) {
      Cancel(n, LARGE_PRIME, j - i);
      var k: int :| j - i == k * n;
      SmallMultiple(n, k);
    }
  }

  /** Every offset comes up in every window of n draws. */
  lemma OffsetDrawn(n: nat, from: nat, r: nat, lost: int) returns (k: nat)
    requires n > 0 && Gcd(n, LARGE_PRIME) == 1 && r < n
    ensures from <= k < from + n && Offset(k, n, lost) == r
  {
    var m := Inverse(n, LARGE_PRIME, r + lost);
    var q;
    k, q := IntoWindow(n, from, m - 1);
    ShiftedWindow(n, m, q, k, r + lost, LARGE_PRIME);
    assert (k + 1) * LARGE_PRIME - (r + lost) == ((k + 1) * LARGE_PRIME - lost) - r;
    SameRemainder(n, (k + 1) * LARGE_PRIME - lost, r);
    SmallRemainder(n, r);
  }

  /** x, moved by whole ranges into the window that starts at `from`. */
  lemma IntoWindow(n: nat, from: nat, x: int) returns (k: nat, q: int)
    requires n > 0
    ensures from <= k < from + n && k == x - q * n
  {
    q := (x - from) / n;
    k := from + (x - from) % n;
    assert x - from == q * n + (x - from) % n;
  }

  lemma ShiftedWindow(n: nat, m: int, q: int, k: int, r: int, p: nat)
    requires Divides(n, m * p - r) && k + 1 == m - q * n
    ensures Divides(n, (k + 1) * p - r)
  {
    var i: int :| m * p - r == i * n;
    assert (m - q * n) * p == m * p - (q * p) * n;
    assert (k + 1) * p - r == (i - q * p) * n;
  }

  /** With what was lost, every offset is a multiple of a common factor. */
  lemma OffsetsShareFactor(n: nat, k: nat, lost: int)
    requires n > 0
    ensures Divides(Gcd(n, LARGE_PRIME), Offset(k, n, lost) + lost)
  {
    var g := Gcd(n, LARGE_PRIME);
    GcdDivides(n, LARGE_PRIME);
    var x := (k + 1) * LARGE_PRIME;
    DividesTimes(g, 0);
    DividesCombination(g, 0, LARGE_PRIME, k + 1);
    var y := (x - lost) / n;
    assert x - lost == y * n + (x - lost) % n;
    assert Offset(k, n, lost) + lost == x + (-y) * n;
    DividesCombination(g, x, n, -y);
  }

  /** Exactly one of the draws from..from+n-1 has value v. */
  ghost predicate DrawnOnce(draws: seq<Draw>, from: nat, n: nat, v: int)
    requires from + n <= |draws|
  {
    exists k: nat :: from <= k < from + n && draws[k].value == v
      && forall j: nat :: from <= j < from + n && draws[j].value == v ==> j == k
  }

  ghost predicate DrawnAllOnce(draws: seq<Draw>, from: nat, n: nat, a: int)
    requires from + n <= |draws|
  {
    forall v :: a <= v < a + n ==> DrawnOnce(draws, from, n, v)
  }

  /** The seed does not wrap between the draws from..from+n-1. */
  predicate NoWrapInside(from: nat, n: nat) {
    (from + 1) * LARGE_PRIME / WORD == (from + n) * LARGE_PRIME / WORD
  }

  /** n consecutive draws, by any threads in any interleaving, from a range a..b
      of size n, with no wrap of the 64-bit seed between them, return every value
      of a..b exactly once: exactly when n is coprime to LARGE_PRIME. */
  lemma PermutationIffCoprime(s: State, from: nat, a: int, b: int)
    requires Reachable(s) && a <= b && from + (b - a + 1) <= |s.draws|
    requires forall k: nat :: from <= k < from + (b - a + 1) ==> s.draws[k].a == a && s.draws[k].b == b
    requires NoWrapInside(from, b - a + 1)
    ensures DrawnAllOnce(s.draws, from, b - a + 1, a) <==> Gcd(b - a + 1, LARGE_PRIME) == 1
  {
    var n := b - a + 1;
    var lost := (from + 1) * LARGE_PRIME / WORD * WORD;
    DrawsDetermined(s);
    forall k: nat | from <= k < from + n ensures s.draws[k].value == a + Offset(k, n, lost) {
      SeedInside(from, n, k);
    }
    if Gcd(n, LARGE_PRIME) == 1 {
      forall v | a <= v < a + n ensures DrawnOnce(s.draws, from, n, v) {
        var k := OffsetDrawn(n, from, v - a, lost);
        forall j: nat | from <= j < from + n && s.draws[j].value == v ensures j == k {
          if j < k { OffsetsDiffer(n, j, k, lost); }
          if k < j { OffsetsDiffer(n, k, j, lost); }
        }
      }
    } else {
      MissedValue(s.draws, from, a, b, lost);
    }
  }

  lemma SeedInside(from: nat, n: nat, k: nat)
    requires from <= k < from + n && NoWrapInside(from, n)
    ensures SeedOf(k) == (k + 1) * LARGE_PRIME - (from + 1) * LARGE_PRIME / WORD * WORD
  {
    MulMono(from + 1, k + 1, LARGE_PRIME);
    MulMono(k + 1, from + n, LARGE_PRIME);
  }

  /** With a common factor, a or the value after it never comes up. */
  lemma MissedValue(draws: seq<Draw>, from: nat, a: int, b: int, lost: int)
    requires a <= b && from + (b - a + 1) <= |draws| && Gcd(b - a + 1, LARGE_PRIME) != 1
    requires forall k: nat :: from <= k < from + (b - a + 1) ==> draws[k].value == a + Offset(k, b - a + 1, lost)
    ensures a + 1 <= b && !(DrawnOnce(draws, from, b - a + 1, a) && DrawnOnce(draws, from, b - a + 1, a + 1))
  {
    var n := b - a + 1;
    var g := Gcd(n, LARGE_PRIME);
    GcdDivides(n, LARGE_PRIME);
    if n == 1 {
      var i: int :| 1 == i * g;
      UnitFactor(i, g);
    }
    if DrawnOnce(draws, from, n, a) && DrawnOnce(draws, from, n, a + 1) {
      var j: nat :| from <= j < from + n && draws[j].value == a;
      var k: nat :| from <= k < from + n && draws[k].value == a + 1;
      OffsetsShareFactor(n, j, lost);
      OffsetsShareFactor(n, k, lost);
      DividesSum(g, 1 + lost, lost);
      var i: int :| 1 == i * g;
      UnitFactor(i, g);
    }
  }

  /** Since b - a + 1 is an int: every range size gives a permutation but the
      greatest one, LARGE_PRIME itself. */
  lemma PermutationOfInts(s: State, from: nat, a: int, b: int)
    requires Reachable(s) && a <= b && from + (b - a + 1) <= |s.draws|
    requires forall k: nat :: from <= k < from + (b - a + 1) ==> s.draws[k].a == a && s.draws[k].b == b
    requires NoWrapInside(from, b - a + 1)
    requires b - a + 1 <= 0x7FFF_FFFF
    ensures DrawnAllOnce(s.draws, from, b - a + 1, a) <==> b - a + 1 != LARGE_PRIME
  {
    PermutationIffCoprime(s, from, a, b);
    if b - a + 1 == LARGE_PRIME {
      GcdSelf(LARGE_PRIME);
    } else {
      P31Coprime(b - a + 1);
    }
  }

  // --------------------------------------------------------------------------
  // Windows in which the seed wraps
  // --------------------------------------------------------------------------

  /** What the seed of the k-th draw has lost to wraps. */
  function Lost(k: nat): nat {
    (k + 1) * LARGE_PRIME / WORD * WORD
  }

  lemma SeedLost(k: nat)
    ensures SeedOf(k) == (k + 1) * LARGE_PRIME - Lost(k)
  {
  }

  /** At most one wrap falls into a window: each draw of it has lost as much as
      the first, or one word more, and the draws after the wrap stay after it. */
  lemma OneWrap(from: nat, n: nat, j: nat, k: nat)
    requires from <= j <= k < from + n && n <= 0x7FFF_FFFF
    ensures Lost(from) <= Lost(j) <= Lost(k)
    ensures Lost(k) == Lost(from) || Lost(k) == Lost(from) + WORD
  {
    var x, y, z := (from + 1) * LARGE_PRIME, (j + 1) * LARGE_PRIME, (k + 1) * LARGE_PRIME;
    assert 0 <= y - x && 0 <= z - y && z - x < WORD;
    Quotients(x, y);
    Quotients(y, z);
    Quotients(x, z);
  }

  lemma Quotients(x: nat, y: nat)
    requires x <= y < x + WORD
    ensures y / WORD == x / WORD || y / WORD == x / WORD + 1
  {
  }

  lemma WrapMeans(from: nat, n: nat)
    requires n > 0
    ensures NoWrapInside(from, n) <==> Lost(from) == Lost(from + n - 1)
  {
  }

  /** The draws of the window, whatever they have lost. */
  ghost predicate Window(draws: seq<Draw>, from: nat, n: nat, a: int)
    requires n > 0 && from + n <= |draws|
  {
    forall k: nat :: from <= k < from + n ==> draws[k].value == a + Offset(k, n, Lost(k))
  }

  lemma WindowDrawn(s: State, from: nat, a: int, b: int)
    requires Reachable(s) && a <= b && from + (b - a + 1) <= |s.draws|
    requires forall k: nat :: from <= k < from + (b - a + 1) ==> s.draws[k].a == a && s.draws[k].b == b
    ensures Window(s.draws, from, b - a + 1, a)
  {
    DrawsDetermined(s);
    forall k: nat | from <= k < from + (b - a + 1)
      ensures s.draws[k].value == a + Offset(k, b - a + 1, Lost(k))
    {
      SeedLost(k);
    }
  }

  /** Two draws that agree leave no permutation. */
  lemma Twice(draws: seq<Draw>, from: nat, n: nat, a: int, i: nat, j: nat)
    requires n > 0 && from + n <= |draws| && Window(draws, from, n, a)
    requires from <= i < j < from + n && Offset(i, n, Lost(i)) == Offset(j, n, Lost(j))
    ensures !DrawnAllOnce(draws, from, n, a)
  {
    var v := draws[i].value;
    assert draws[j].value == v && a <= v < a + n;
    assert !DrawnOnce(draws, from, n, v);
  }

  /** A word lost makes no difference to the offsets exactly when n divides it. */
  lemma WordLost(n: nat, k: nat, lost: int)
    requires n > 0
    ensures Offset(k, n, lost) == Offset(k, n, lost + WORD) <==> Divides(n, WORD)
  {
    var x := (k + 1) * LARGE_PRIME - lost;
    SameRemainder(n, x, x - WORD);
  }

  /** A wrap by a multiple of n does no harm. */
  lemma HarmlessWrap(draws: seq<Draw>, from: nat, n: nat, a: int)
    requires 0 < n <= 0x7FFF_FFFF && from + n <= |draws| && Window(draws, from, n, a)
    requires Gcd(n, LARGE_PRIME) == 1 && Divides(n, WORD)
    ensures DrawnAllOnce(draws, from, n, a)
  {
    var lost := Lost(from);
    forall k: nat | from <= k < from + n ensures draws[k].value == a + Offset(k, n, lost) {
      OneWrap(from, n, k, k);
      WordLost(n, k, lost);
    }
    forall v | a <= v < a + n ensures DrawnOnce(draws, from, n, v) {
      var k := OffsetDrawn(n, from, v - a, lost);
      forall j: nat | from <= j < from + n && draws[j].value == v ensures j == k {
        if j < k { OffsetsDiffer(n, j, k, lost); }
        if k < j { OffsetsDiffer(n, k, j, lost); }
      }
    }
  }

  /** The first draw after the wrap. */
  lemma FirstAfterWrap(from: nat, n: nat) returns (w: nat)
    requires 0 < n <= 0x7FFF_FFFF && !NoWrapInside(from, n)
    ensures from < w < from + n
    ensures forall k: nat :: from <= k < w ==> Lost(k) == Lost(from)
    ensures forall k: nat :: w <= k < from + n ==> Lost(k) == Lost(from) + WORD
  {
    WrapMeans(from, n);
    w := from;
    while Lost(w) == Lost(from)
      invariant from <= w < from + n
      invariant forall k: nat :: from <= k < w ==> Lost(k) == Lost(from)
      decreases from + n - w
    {
      w := w + 1;
    }
    forall k: nat | w <= k < from + n ensures Lost(k) == Lost(from) + WORD {
      OneWrap(from, n, w, k);
      OneWrap(from, n, w, w);
    }
  }

  /** Otherwise the draw that should have come at the wrap comes later, and the
      one before it a second time just before. */
  lemma HarmfulWrap(draws: seq<Draw>, from: nat, n: nat, a: int)
    requires 0 < n <= 0x7FFF_FFFF && from + n <= |draws| && Window(draws, from, n, a)
    requires Gcd(n, LARGE_PRIME) == 1 && !Divides(n, WORD) && !NoWrapInside(from, n)
    ensures !DrawnAllOnce(draws, from, n, a)
  {
    var w := FirstAfterWrap(from, n);
    var lost := Lost(from);
    var v := a + Offset(w, n, lost);
    if DrawnAllOnce(draws, from, n, a) {
      assert DrawnOnce(draws, from, n, v);
      var j: nat :| from <= j < from + n && draws[j].value == v;
      if j < w { OffsetsDiffer(n, j, w, lost); }
      WordLost(n, w, lost);
      assert j > w;
      StepBack(n, w, j, lost);
      Twice(draws, from, n, a, w - 1, j - 1);
    }
  }

  lemma StepBack(n: nat, w: nat, j: nat, lost: int)
    requires n > 0 && w > 0 && j > 0 && Offset(w, n, lost) == Offset(j, n, lost + WORD)
    ensures Offset(w - 1, n, lost) == Offset(j - 1, n, lost + WORD)
  {
    var x, y := (w + 1) * LARGE_PRIME - lost, (j + 1) * LARGE_PRIME - lost - WORD;
    SameRemainder(n, x, y);
    SameRemainder(n, x - LARGE_PRIME, y - LARGE_PRIME);
    assert x - LARGE_PRIME == w * LARGE_PRIME - lost && y - LARGE_PRIME == j * LARGE_PRIME - lost - WORD;
  }

  /** A range of LARGE_PRIME values gives one value again and again, with at most
      one change between. */
  lemma PrimeRange(draws: seq<Draw>, from: nat, n: nat, a: int)
    requires 3 <= n <= 0x7FFF_FFFF && Divides(n, LARGE_PRIME)
    requires from + n <= |draws| && Window(draws, from, n, a)
    ensures !DrawnAllOnce(draws, from, n, a)
  {
    hide Lost, Offset;
    OneWrap(from, n, from + 1, from + 1);
    OneWrap(from, n, from + 1, from + 2);
    var i := if Lost(from + 1) == Lost(from) then from else from + 1;
    SameAgain(n, i, Lost(i));
    Twice(draws, from, n, a, i, i + 1);
  }

  lemma SameAgain(n: nat, i: nat, lost: int)
    requires n > 0 && Divides(n, LARGE_PRIME)
    ensures Offset(i, n, lost) == Offset(i + 1, n, lost)
  {
    OffsetsRepeat(n, i + 1, i, lost);
    assert (i + 1 - i) * LARGE_PRIME == LARGE_PRIME;
  }

  /** All windows, all int sizes: n consecutive draws from a range of size n, by
      any threads in any interleaving and wherever the 64-bit seed wraps, return
      every value exactly once if and only if n is not LARGE_PRIME and the seed
      does not wrap between them or n divides 2^64. */
  lemma PermutationIff(s: State, from: nat, a: int, b: int)
    requires Reachable(s) && a <= b && from + (b - a + 1) <= |s.draws|
    requires forall k: nat :: from <= k < from + (b - a + 1) ==> s.draws[k].a == a && s.draws[k].b == b
    requires b - a + 1 <= 0x7FFF_FFFF
    ensures DrawnAllOnce(s.draws, from, b - a + 1, a)
       <==> b - a + 1 != LARGE_PRIME && (NoWrapInside(from, b - a + 1) || Divides(b - a + 1, WORD))
  {
    var n := b - a + 1;
    WindowDrawn(s, from, a, b);
    if n == LARGE_PRIME {
      DividesTimes(n, 1);
      PrimeRange(s.draws, from, n, a);
    } else if NoWrapInside(from, n) {
      PermutationOfInts(s, from, a, b);
    } else {
      P31Coprime(n);
      if Divides(n, WORD) {
        HarmlessWrap(s.draws, from, n, a);
      } else {
        HarmfulWrap(s.draws, from, n, a);
      }
    }
  }

  lemma GcdSelf(n: nat)
    requires n > 0
    ensures Gcd(n, n) == n
  {
    assert n % n == 0;
    assert Gcd(n, 0) == n;
  }
}
