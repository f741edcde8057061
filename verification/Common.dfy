/** Definitions shared by the models: an option type, counting in a sequence,
    divisibility. */
module Common {

  datatype Option<+T> = None | Some(value: T)

  function Least(a: nat, b: nat): nat { if a < b then a else b }

  /** Number of elements of s that satisfy p. */
  function CountIf<T>(s: seq<T>, p: T -> bool): nat {
    if s == [] then 0 else (if p(s[0]) then 1 else 0) + CountIf(s[1..], p)
  }

  lemma {:induction false} CountUpdate<T>(s: seq<T>, i: nat, v: T, p: T -> bool)
    requires i < |s|
    ensures CountIf(s[i := v], p)
         == CountIf(s, p) - (if p(s[i]) then 1 else 0) + (if p(v) then 1 else 0)
  {
    if i == 0 {
      assert s[0 := v][1..] == s[1..];
    } else {
      assert s[i := v][1..] == s[1..][i - 1 := v];
      CountUpdate(s[1..], i - 1, v, p);
    }
  }

  /** A count lies between 0 and the length; it is positive exactly when some element is counted. */
  lemma {:induction false} CountBounds<T>(s: seq<T>, p: T -> bool)
    ensures CountIf(s, p) <= |s|
    ensures CountIf(s, p) > 0 <==> exists i :: 0 <= i < |s| && p(s[i])
  {
    if s != [] {
      CountBounds(s[1..], p);
      assert forall i :: 0 < i < |s| ==> s[i] == s[1..][i - 1];
      if CountIf(s[1..], p) > 0 {
        var i :| 0 <= i < |s[1..]| && p(s[1..][i]);
        assert p(s[i + 1]);
      }
    }
  }

  /** Sum of f over the elements of s. */
  function Sum<T>(s: seq<T>, f: T -> nat): nat {
    if s == [] then 0 else f(s[0]) + Sum(s[1..], f)
  }

  lemma {:induction false} SumUpdate<T>(s: seq<T>, i: nat, v: T, f: T -> nat)
    requires i < |s|
    ensures Sum(s[i := v], f) == Sum(s, f) - f(s[i]) + f(v)
  {
    if i == 0 {
      assert s[0 := v][1..] == s[1..];
    } else {
      assert s[i := v][1..] == s[1..][i - 1 := v];
      SumUpdate(s[1..], i - 1, v, f);
    }
  }

  lemma {:induction false} SumPush<T>(s: seq<T>, v: T, f: T -> nat)
    ensures Sum(s + [v], f) == Sum(s, f) + f(v)
  {
    if s == [] {
      assert [] + [v] == [v] && [v][1..] == [];
    } else {
      assert (s + [v])[1..] == s[1..] + [v];
      SumPush(s[1..], v, f);
    }
  }

  /** A sum of terms all at most, or all at least, b. */
  lemma {:induction false} SumBounds<T>(s: seq<T>, f: T -> nat, b: nat)
    ensures (forall i :: 0 <= i < |s| ==> f(s[i]) <= b) ==> Sum(s, f) <= |s| * b
    ensures (forall i :: 0 <= i < |s| ==> f(s[i]) >= b) ==> Sum(s, f) >= |s| * b
  {
    if s != [] {
      SumBounds(s[1..], f, b);
      assert forall i :: 0 <= i < |s[1..]| ==> s[1..][i] == s[i + 1];
      assert |s| * b == |s[1..]| * b + b;
    }
  }

  /** d divides x. */
  ghost predicate Divides(d: nat, x: int) {
    exists k: int :: x == k * d
  }

  lemma DividesSum(d: nat, x: int, y: int)
    requires Divides(d, x) && Divides(d, y)
    ensures Divides(d, x + y) && Divides(d, x - y)
  {
    var j :| x == j * d;
    var k :| y == k * d;
    assert x + y == (j + k) * d;
    assert x - y == (j - k) * d;
  }

  lemma DividesTimes(d: nat, k: int)
    ensures Divides(d, k * d) && Divides(d, d * k)
  {
    assert d * k == k * d;
  }

  /** The least multiple of d above x. */
  lemma NextMultiple(d: nat, x: nat, m: int)
    requires d > 0 && Divides(d, m) && m > x
    ensures m >= (x / d + 1) * d > x
  {
    var k :| m == k * d;
    var q := x / d;
    assert x == q * d + x % d;
    assert (q + 1) * d == q * d + d;
    if k >= q + 1 {
      MulMono(q + 1, k, d);
    } else {
      MulMono(k, q, d);
    }
  }

  /** The greatest multiple of d not above x. */
  lemma LastMultiple(d: nat, x: nat, m: int)
    requires d > 0 && Divides(d, m) && m <= x
    ensures m <= (x / d) * d <= x
  {
    var k :| m == k * d;
    var q := x / d;
    assert x == q * d + x % d;
    assert (q + 1) * d == q * d + d;
    if k <= q {
      MulMono(k, q, d);
    } else {
      MulMono(q + 1, k, d);
    }
  }

  lemma MulMono(a: int, b: int, d: nat)
    requires a <= b
    ensures a * d <= b * d
  {
  }

  /** The numbers lo..hi-1. */
  function Range(lo: nat, hi: nat): (ids: set<nat>)
    ensures forall x :: x in ids <==> lo <= x < hi
    ensures |ids| == if lo <= hi then hi - lo else 0
    decreases hi - lo
  {
    if lo >= hi then {} else Range(lo + 1, hi) + {lo}
  }
}
