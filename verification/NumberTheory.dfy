/** Greatest common divisors and congruences, as far as the unique random
    numbers need them. */
module NumberTheory {
  import opened Common

  /** Euclid's algorithm. */
  function Gcd(a: nat, b: nat): nat
    decreases b
  {
    if b == 0 then a else Gcd(b, a % b)
  }

  /** The gcd is a linear combination of both numbers. */
  lemma {:induction false} Bezout(a: nat, b: nat) returns (x: int, y: int)
    ensures x * a + y * b == Gcd(a, b)
    decreases b
  {
    if b == 0 {
      x, y := 1, 0;
    } else {
      var u, v := Bezout(b, a % b);
      var q := a / b;
      assert a % b == a - q * b;
      x, y := v, u - v * q;
      Recombine(u, v, q, a, b);
    }
  }

  lemma Recombine(u: int, v: int, q: int, a: int, b: int)
    ensures v * a + (u - v * q) * b == u * b + v * (a - q * b)
  {
  }

  lemma DividesCombination(d: nat, x: int, y: int, k: int)
    requires Divides(d, x) && Divides(d, y)
    ensures Divides(d, x + k * y)
  {
    var i :| x == i * d;
    var j :| y == j * d;
    assert x + k * y == (i + k * j) * d;
  }

  /** The gcd divides both numbers. */
  lemma {:induction false} GcdDivides(a: nat, b: nat)
    ensures Divides(Gcd(a, b), a) && Divides(Gcd(a, b), b)
    decreases b
  {
    if b == 0 {
      DividesTimes(a, 1);
      DividesTimes(a, 0);
    } else {
      GcdDivides(b, a % b);
      assert a == a % b + (a / b) * b;
      DividesCombination(Gcd(a, b), a % b, b, a / b);
    }
  }

  /** Equal remainders, told by divisibility. */
  lemma SameRemainder(n: nat, x: int, y: int)
    requires n > 0
    ensures x % n == y % n <==> Divides(n, x - y)
  {
    var p, q := x / n, y / n;
    assert x == p * n + x % n && y == q * n + y % n;
    if x % n == y % n {
      assert x - y == (p - q) * n;
    }
    if Divides(n, x - y) {
      var k :| x - y == k * n;
      assert x % n - y % n == (k - p + q) * n by { Regroup(k, p, q, n); }
      SmallMultiple(n, k - p + q);
    }
  }

  lemma Regroup(k: int, p: int, q: int, n: int)
    ensures k * n - p * n + q * n == (k - p + q) * n
  {
  }

  lemma SmallMultiple(n: nat, k: int)
    requires 0 - n < k * n < n
    ensures k == 0
  {
    if k >= 1 { MulMono(1, k, n); }
    if k <= -1 { MulMono(k, -1, n); }
  }

  /** A factor coprime to n can be cancelled. */
  lemma Cancel(n: nat, p: nat, m: int)
    requires Gcd(n, p) == 1 && Divides(n, m * p)
    ensures Divides(n, m)
  {
    var x, y := Bezout(n, p);
    var k :| m * p == k * n;
    assert m == (m * x + y * k) * n by { Cancelled(m, x, y, n, p, k); }
  }

  lemma Cancelled(m: int, x: int, y: int, n: int, p: int, k: int)
    requires x * n + y * p == 1 && m * p == k * n
    ensures m == (m * x + y * k) * n
  {
    assert m == m * (x * n + y * p);
    assert m * (x * n + y * p) == m * x * n + y * (m * p);
    assert y * (m * p) == y * k * n;
    assert (m * x + y * k) * n == m * x * n + y * k * n;
  }

  /** Multiplication by a number coprime to n has an inverse modulo n. */
  lemma Inverse(n: nat, p: nat, r: int) returns (m: int)
    requires Gcd(n, p) == 1
    ensures Divides(n, m * p - r)
  {
    var x, y := Bezout(n, p);
    m := y * r;
    assert m * p - r == (-x * r) * n by { Inverted(x, y, n, p, r); }
  }

  lemma Inverted(x: int, y: int, n: int, p: int, r: int)
    requires x * n + y * p == 1
    ensures y * r * p - r == (-x * r) * n
  {
    assert y * r * p == r * (y * p);
    assert r * (y * p) == r * (1 - x * n);
    assert r * (1 - x * n) == r - r * (x * n);
    assert (-x * r) * n == -(r * (x * n));
  }

  lemma SmallRemainder(n: nat, r: nat)
    requires r < n
    ensures r % n == r
  {
  }

  lemma UnitFactor(i: int, g: nat)
    requires 1 == i * g
    ensures g == 1
  {
    if g >= 2 {
      if i <= 0 { MulMono(i, 0, g); } else { MulMono(1, i, g); }
    }
  }
}
