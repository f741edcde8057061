/** Lucas's test, for the increment of the unique random ids: a number whose
    predecessor is the order of some base is coprime to everything below it. */
module Primality {
  import opened Common
  import opened NumberTheory

  /** b to the e, modulo p. */
  function PowMod(b: nat, e: nat, p: nat): nat
    requires p > 1
  {
    if e == 0 then 1 else PowMod(b, e - 1, p) * b % p
  }

  lemma ModTimes(x: nat, y: nat, p: nat)
    requires p > 0
    ensures (x % p) * y % p == x * y % p
  {
    assert (x % p) * y - x * y == (-(x / p) * y) * p by {
      assert x == x / p * p + x % p;
      assert x * y == (x / p * p) * y + (x % p) * y;
      assert (x / p * p) * y == (x / p * y) * p;
    }
    SameRemainder(p, (x % p) * y, x * y);
  }

  lemma StepMod(x: nat, y: nat, b: nat, p: nat)
    requires p > 0
    ensures (x * y % p) * b % p == x * (y * b % p) % p
  {
    ModTimes(x * y, b, p);
    ModTimes(y * b, x, p);
    Shuffle(x, y, b);
    Swap(y * b % p, x);
  }

  lemma Shuffle(x: int, y: int, b: int)
    ensures x * y * b == y * b * x
  {
  }

  lemma Swap(x: int, y: int)
    ensures x * y == y * x
  {
  }

  lemma {:induction false} PowSum(b: nat, i: nat, j: nat, p: nat)
    requires p > 1
    ensures PowMod(b, i + j, p) == PowMod(b, i, p) * PowMod(b, j, p) % p
  {
    PowEnds(b, i, p);
    if j > 0 {
      PowSum(b, i, j - 1, p);
      PowNext(b, i + j - 1, p);
      PowNext(b, j - 1, p);
      hide PowMod;
      StepMod(PowMod(b, i, p), PowMod(b, j - 1, p), b, p);
    }
  }

  lemma PowEnds(b: nat, i: nat, p: nat)
    requires p > 1
    ensures PowMod(b, i, p) * PowMod(b, 0, p) % p == PowMod(b, i, p)
  {
    PowBelow(b, i, p);
    SmallRemainder(p, PowMod(b, i, p));
  }

  lemma PowNext(b: nat, i: nat, p: nat)
    requires p > 1
    ensures PowMod(b, i + 1, p) == PowMod(b, i, p) * b % p
  {
  }

  lemma PowBelow(b: nat, i: nat, p: nat)
    requires p > 1
    ensures PowMod(b, i, p) < p
  {
  }

  // --------------------------------------------------------------------------
  // The order of the base
  // --------------------------------------------------------------------------

  ghost predicate One(b: nat, p: nat, e: nat)
    requires p > 1
  {
    PowMod(b, e, p) == 1
  }

  lemma OneSum(b: nat, p: nat, i: nat, j: nat)
    requires p > 1 && One(b, p, j)
    ensures One(b, p, i + j) <==> One(b, p, i)
  {
    PowSum(b, i, j, p);
    PowBelow(b, i, p);
    SmallRemainder(p, PowMod(b, i, p));
  }

  lemma {:induction false} OneTimes(b: nat, p: nat, i: nat, k: nat)
    requires p > 1 && One(b, p, i)
    ensures One(b, p, k * i)
  {
    if k > 0 {
      OneTimes(b, p, i, k - 1);
      OneSum(b, p, (k - 1) * i, i);
      assert k * i == (k - 1) * i + i;
    }
  }

  lemma {:induction false} OneGcd(b: nat, p: nat, i: nat, j: nat)
    requires p > 1 && One(b, p, i) && One(b, p, j)
    ensures One(b, p, Gcd(i, j))
    decreases j
  {
    if j > 0 {
      OneTimes(b, p, j, i / j);
      assert i == i % j + i / j * j;
      OneSum(b, p, i % j, i / j * j);
      OneGcd(b, p, j, i % j);
    }
  }

  // --------------------------------------------------------------------------
  // Prime factors
  // --------------------------------------------------------------------------

  ghost predicate Prime(q: nat) {
    q > 1 && forall d: nat :: Divides(d, q) ==> d == 1 || d == q
  }

  function Product(qs: seq<nat>): nat {
    if qs == [] then 1 else qs[0] * Product(qs[1..])
  }

  /** A divisor of a product of primes is divided by one of them. */
  lemma {:induction false} FactorFound(k: nat, qs: seq<nat>) returns (q: nat)
    requires k > 1 && Divides(k, Product(qs)) && forall q :: q in qs ==> Prime(q)
    ensures q in qs && Divides(q, k)
  {
    if qs == [] {
      var i: int :| 1 == i * k;
      if i >= 1 { MulMono(1, i, k); } else { MulMono(i, 0, k); }
    } else {
      var f := qs[0];
      GcdDivides(k, f);
      if Gcd(k, f) == 1 {
        assert Product(qs) == Product(qs[1..]) * f;
        Cancel(k, f, Product(qs[1..]));
        q := FactorFound(k, qs[1..]);
      } else {
        q := f;
      }
    }
  }

  /** What makes up a certificate that p is prime. */
  ghost predicate Certified(p: nat, b: nat, qs: seq<nat>) {
    && p > 1 && Product(qs) == p - 1 && One(b, p, p - 1)
    && forall q :: q in qs ==> Prime(q) && !One(b, p, (p - 1) / q)
  }

  lemma OrderIsAll(p: nat, b: nat, qs: seq<nat>, m: nat)
    requires Certified(p, b, qs) && 0 < m < p - 1
    ensures !One(b, p, m)
  {
    hide One, Product;
    if One(b, p, m) {
      var n := p - 1;
      OneGcd(b, p, m, n);
      GcdDivides(m, n);
      var h := Gcd(m, n);
      var i: int :| m == i * h;
      var k: int :| n == k * h;
      SmallerFactor(m, n, i, k, h);
      Swap(k, h);
      assert Divides(k, n);
      var q := FactorFound(k, qs);
      var j: int :| k == j * q;
      PositiveFactor(k, j, q);
      Regrouped(j, q, h);
      Quotient(n, j * h, q);
      OneTimes(b, p, h, j);
    }
  }

  lemma Regrouped(j: int, q: int, h: int)
    ensures (j * q) * h == (j * h) * q
  {
  }

  lemma SmallerFactor(m: nat, n: nat, i: int, k: int, h: nat)
    requires 0 < m < n && m == i * h && n == k * h
    ensures h > 0 && k > 1
  {
    if i <= 0 { MulMono(i, 0, h); }
    if k <= 1 {
      MulMono(k, 1, h);
      MulMono(1, i, h);
    }
  }

  lemma PositiveFactor(k: int, j: int, q: nat)
    requires k > 0 && k == j * q
    ensures j > 0
  {
    if j <= 0 { MulMono(j, 0, q); }
  }

  lemma Quotient(n: nat, x: int, q: nat)
    requires q > 0 && n == x * q
    ensures n / q == x
  {
    assert n == n / q * q + n % q;
    assert (x - n / q) * q == x * q - n / q * q;
    SmallMultiple(q, x - n / q);
  }

  // --------------------------------------------------------------------------
  // The powers are all the residues
  // --------------------------------------------------------------------------

  lemma PowersDiffer(p: nat, b: nat, qs: seq<nat>, i: nat, j: nat)
    requires Certified(p, b, qs) && i < j < p - 1
    ensures PowMod(b, i, p) != PowMod(b, j, p)
  {
    var n := p - 1;
    PowSum(b, i, n - i, p);
    PowSum(b, j, n - i, p);
    OneSum(b, p, j - i, n);
    assert j + (n - i) == j - i + n;
    OrderIsAll(p, b, qs, j - i);
  }

  lemma PowerUnit(p: nat, b: nat, qs: seq<nat>, i: nat)
    requires Certified(p, b, qs) && i < p - 1
    ensures 0 < PowMod(b, i, p) < p && Gcd(PowMod(b, i, p), p) == 1
  {
    var x, y := PowMod(b, i, p), PowMod(b, p - 1 - i, p);
    PowSum(b, i, p - 1 - i, p);
    PowBelow(b, i, p);
    assert x * y % p == 1;
    UnitCoprime(x, y, p);
  }

  lemma UnitCoprime(x: nat, y: nat, p: nat)
    requires p > 1 && x * y % p == 1
    ensures x > 0 && Gcd(x, p) == 1
  {
    var g := Gcd(x, p);
    GcdDivides(x, p);
    assert x * y == x * y / p * p + 1;
    DividesTimes(g, 0);
    DividesCombination(g, 0, x, y);
    DividesCombination(g, y * x, p, -(x * y / p));
    var i: int :| 1 == i * g;
    UnitFactor(i, g);
  }

  /** The first n powers. */
  ghost function Powers(b: nat, p: nat, n: nat): set<nat>
    requires p > 1
  {
    if n == 0 then {} else Powers(b, p, n - 1) + {PowMod(b, n - 1, p)}
  }

  lemma {:induction false} InPowers(b: nat, p: nat, n: nat, x: nat)
    requires p > 1
    ensures x in Powers(b, p, n) <==> exists i: nat :: i < n && x == PowMod(b, i, p)
  {
    hide PowMod;
    if n > 0 {
      InPowers(b, p, n - 1, x);
      assert Powers(b, p, n) == Powers(b, p, n - 1) + {PowMod(b, n - 1, p)};
      if x in Powers(b, p, n) && x !in Powers(b, p, n - 1) {
        var i: nat := n - 1;
        assert i < n && x == PowMod(b, i, p);
      }
    }
  }

  lemma {:induction false} ManyPowers(p: nat, b: nat, qs: seq<nat>, n: nat)
    requires Certified(p, b, qs) && n <= p - 1
    ensures |Powers(b, p, n)| == n && Powers(b, p, n) <= Range(1, p)
  {
    if n > 0 {
      ManyPowers(p, b, qs, n - 1);
      PowerUnit(p, b, qs, n - 1);
      var x := PowMod(b, n - 1, p);
      InPowers(b, p, n - 1, x);
      if i: nat :| i < n - 1 && x == PowMod(b, i, p) {
        PowersDiffer(p, b, qs, i, n - 1);
      }
    }
  }

  lemma SubsetFull(a: set<nat>, b: set<nat>)
    requires a <= b && |a| == |b|
    ensures a == b
  {
    assert |b - a| == |b| - |a|;
  }

  /** Whoever has a certificate is coprime to every smaller positive number. */
  lemma CertifiedCoprime(p: nat, b: nat, qs: seq<nat>, x: nat)
    requires Certified(p, b, qs) && 0 < x < p
    ensures Gcd(x, p) == 1
  {
    ManyPowers(p, b, qs, p - 1);
    SubsetFull(Powers(b, p, p - 1), Range(1, p));
    InPowers(b, p, p - 1, x);
    var i: nat :| i < p - 1 && x == PowMod(b, i, p);
    PowerUnit(p, b, qs, i);
  }

  // --------------------------------------------------------------------------
  // The certificate of 2^31 - 1
  // --------------------------------------------------------------------------

  /** No number from d to r divides q. */
  function NoDivisor(q: nat, d: nat, r: nat): bool
    requires d > 0
    decreases r - d
  {
    d > r || (q % d != 0 && NoDivisor(q, d + 1, r))
  }

  lemma {:induction false} NoDivisorMeans(q: nat, d: nat, r: nat, x: nat)
    requires 0 < d <= x <= r && NoDivisor(q, d, r)
    ensures q % x != 0
    decreases r - d
  {
    if d < x { NoDivisorMeans(q, d + 1, r, x); }
  }

  lemma PrimeByTrial(q: nat, r: nat)
    requires 1 < q < (r + 1) * (r + 1) && r < q && NoDivisor(q, 2, r)
    ensures Prime(q)
  {
    forall d: nat | Divides(d, q) ensures d == 1 || d == q {
      var i: int :| q == i * d;
      if i <= 0 { MulMono(i, 0, d); }
      if 2 <= d <= r { Undivided(q, r, d); }
      if 2 <= i <= r {
        DividesTimes(i, d);
        Undivided(q, r, i);
      }
      if d > r && i > r {
        MulMono(r + 1, i, d);
        MulMono(r + 1, d, r + 1);
      }
    }
  }

  lemma Undivided(q: nat, r: nat, d: nat)
    requires 2 <= d <= r && NoDivisor(q, 2, r)
    ensures !Divides(d, q)
  {
    NoDivisorMeans(q, 2, r, d);
    SameRemainder(d, q, 0);
  }

  const P31: nat := 2147483647

  const Factors: seq<nat> := [2, 3, 3, 7, 11, 31, 151, 331]

  lemma SmallPrimes()
    ensures Prime(2) && Prime(3) && Prime(7) && Prime(11) && Prime(31) && Prime(151) && Prime(331)
  {
    PrimeByTrial(2, 1);
    PrimeByTrial(3, 1);
    PrimeByTrial(7, 2);
    PrimeByTrial(11, 3);
    PrimeByTrial(31, 5);
    assert NoDivisor(151, 8, 12);
    PrimeByTrial(151, 12);
    assert NoDivisor(331, 14, 18);
    assert NoDivisor(331, 8, 18);
    PrimeByTrial(331, 18);
  }

  /** 7 to the e is v. */
  ghost predicate Power(e: nat, v: nat) {
    PowMod(7, e, P31) == v
  }

  lemma PowerSum(e: nat, v: nat, f: nat, w: nat)
    requires Power(e, v) && Power(f, w)
    ensures Power(e + f, v * w % P31)
  {
    PowSum(7, e, f, P31);
  }

  /** w is v squared, s, and once more times c for a bit that is set. */
  predicate Squared(v: nat, c: nat, bit: nat, s: nat, w: nat) {
    && v * v % 2147483647 == s
    && (bit == 0 ==> w == s) && (bit != 0 ==> bit == 1 && s * c % 2147483647 == w)
  }

  /** One step of exponentiation by squaring, in powers of the i-th power of 7. */
  lemma Bit(i: nat, c: nat, e: nat, v: nat, bit: nat, s: nat, w: nat)
    requires Power(i, c) && Power(i * e, v) && Squared(v, c, bit, s, w)
    ensures Power(i * (2 * e + bit), w)
  {
    hide Power;
    PowerSum(i * e, v, i * e, v);
    assert i * e + i * e == i * (2 * e);
    if bit == 1 {
      PowerSum(i * (2 * e), s, i, c);
      assert i * (2 * e) + i == i * (2 * e + 1);
    }
  }

  /** Four such steps. */
  lemma Quad(i: nat, c: nat, e: nat, v: nat, b0: nat, b1: nat, b2: nat, b3: nat,
             s0: nat, w0: nat, s1: nat, w1: nat, s2: nat, w2: nat, s3: nat, w3: nat)
    requires Power(i, c) && Power(i * e, v)
    requires Squared(v, c, b0, s0, w0) && Squared(w0, c, b1, s1, w1)
    requires Squared(w1, c, b2, s2, w2) && Squared(w2, c, b3, s3, w3)
    ensures Power(i * (16 * e + 8 * b0 + 4 * b1 + 2 * b2 + b3), w3)
  {
    hide Power, Squared;
    Bit(i, c, e, v, b0, s0, w0);
    Bit(i, c, 2 * e + b0, w0, b1, s1, w1);
    Bit(i, c, 4 * e + 2 * b0 + b1, w1, b2, s2, w2);
    Bit(i, c, 8 * e + 4 * b0 + 2 * b1 + b2, w2, b3, s3, w3);
  }

  lemma SevenItself()
    ensures Power(1, 7)
  {
  }

  lemma FirstPowers()
    ensures Power(49981, 756450868)
  {
    hide Power;
    SevenItself();
    Quad(1, 7, 1, 7, 0, 0, 1, 0,
         49, 49, 2401, 2401, 5764801, 40353607, 370710466, 370710466);
    Bit(1, 7, 18, 370710466, 1, 707192808, 655382362);
    Bit(1, 7, 37, 655382362, 1, 16401141, 114807987);
    Bit(1, 7, 75, 114807987, 1, 1505795335, 1950632757);
    Quad(151, 1950632757, 1, 1950632757, 0, 1, 0, 0,
         2078016953, 2078016953, 334697701, 996497972, 1616927224, 1616927224, 1647259579, 1647259579);
    Quad(151, 1950632757, 20, 1647259579, 1, 0, 1, 1,
         115377429, 390846533, 1499459906, 1499459906, 348194926, 25230120, 1852570660, 756450868);
  }

  lemma PowerFor31()
    ensures Power(69273666, 512)
  {
    hide Power;
    FirstPowers();
    Quad(49981, 756450868, 1, 756450868, 0, 1, 0, 1,
         791434467, 791434467, 898653946, 560223525, 871342565, 871342565, 51022971, 1448159583);
    Quad(49981, 756450868, 21, 1448159583, 1, 0, 1, 0,
         1124258895, 1360610158, 211861912, 211861912, 1369798769, 102770519, 1880533844, 1880533844);
    Bit(49981, 756450868, 346, 1880533844, 1, 1195443047, 2146435071);
    Bit(49981, 756450868, 693, 2146435071, 0, 512, 512);
  }

  lemma PowerFor151()
    ensures Power(14221746, 535044134)
  {
    hide Power;
    SevenItself();
    Quad(1, 7, 1, 7, 1, 1, 1, 1,
         49, 343, 117649, 823543, 1765724044, 1622650073, 470211272, 1143995257);
    Quad(31, 1143995257, 1, 1143995257, 0, 1, 0, 0,
         969378910, 969378910, 2100290206, 1954899097, 1083454666, 1083454666, 889688008, 889688008);
    Quad(31, 1143995257, 20, 889688008, 1, 0, 1, 1,
         329863108, 196161744, 1778389676, 1778389676, 1227145853, 754609818, 878627494, 434014160);
    Quad(10261, 434014160, 1, 434014160, 0, 1, 0, 1,
         2047310060, 2047310060, 979130498, 473691903, 370371112, 370371112, 1371788719, 706039124);
    Quad(10261, 434014160, 21, 706039124, 1, 0, 1, 0,
         1694081498, 1755432148, 1065679835, 1065679835, 455384942, 1656021716, 1597569668, 1597569668);
    Bit(10261, 434014160, 346, 1597569668, 1, 1304215881, 21925355);
    Bit(10261, 434014160, 693, 21925355, 0, 535044134, 535044134);
  }

  lemma PowerFor331()
    ensures Power(6487866, 1761855083)
  {
    hide Power;
    SevenItself();
    Quad(1, 7, 1, 7, 1, 1, 1, 1,
         49, 343, 117649, 823543, 1765724044, 1622650073, 470211272, 1143995257);
    Quad(31, 1143995257, 1, 1143995257, 0, 0, 1, 0,
         969378910, 969378910, 2100290206, 2100290206, 1158607371, 1278215154, 1479059318, 1479059318);
    Bit(31, 1143995257, 18, 1479059318, 1, 522395024, 1671134421);
    Bit(31, 1143995257, 37, 1671134421, 1, 1917864755, 1492192799);
    Bit(31, 1143995257, 75, 1492192799, 1, 619880739, 1338456531);
    Quad(4681, 1338456531, 1, 1338456531, 0, 1, 0, 1,
         1590871391, 1590871391, 1917208117, 184149733, 1588280530, 1588280530, 1292075693, 1769489021);
    Quad(4681, 1338456531, 21, 1769489021, 1, 0, 1, 0,
         1197240091, 1164162245, 664890408, 664890408, 1950805946, 702989075, 1048668263, 1048668263);
    Bit(4681, 1338456531, 346, 1048668263, 1, 1692907881, 164185298);
    Bit(4681, 1338456531, 693, 164185298, 0, 1761855083, 1761855083);
  }

  lemma LargePower()
    ensures Power(1549411, 1901441070)
  {
    hide Power;
    FirstPowers();
    Quad(49981, 756450868, 1, 756450868, 1, 1, 1, 1,
         791434467, 210760456, 719572916, 26348469, 1157758154, 1650715800, 64613003, 1901441070);
  }

  lemma PowersFor1And2()
    ensures Power(1073741823, 2147483646)
    ensures Power(2147483646, 1)
  {
    hide Power;
    LargePower();
    Quad(1549411, 1901441070, 1, 1901441070, 0, 1, 0, 1,
         2015677618, 2015677618, 109131303, 942143378, 1451889758, 1451889758, 1501098710, 552955469);
    Quad(1549411, 1901441070, 21, 552955469, 1, 0, 1, 0,
         392483048, 1568387906, 2000131339, 2000131339, 176766909, 1620089823, 1117870447, 1117870447);
    Bit(1549411, 1901441070, 346, 1117870447, 1, 2072743358, 2147483646);
    Bit(1073741823, 2147483646, 1, 2147483646, 0, 1, 1);
  }

  lemma PowerFor3()
    ensures Power(715827882, 1513477735)
  {
    hide Power;
    LargePower();
    Quad(1549411, 1901441070, 1, 1901441070, 1, 1, 0, 0,
         2015677618, 1456607871, 1754643616, 1515198632, 1259913995, 1259913995, 1152961492, 1152961492);
    Quad(1549411, 1901441070, 28, 1152961492, 1, 1, 1, 0,
         1743735532, 417630851, 421579528, 392282378, 728334443, 1513477736, 1513477735, 1513477735);
  }

  lemma PowerFor7()
    ensures Power(306783378, 1205362885)
  {
    hide Power;
    LargePower();
    Quad(1549411, 1901441070, 1, 1901441070, 1, 0, 0, 0,
         2015677618, 1456607871, 1754643616, 1754643616, 1924097454, 1924097454, 185081787, 185081787);
    Bit(1549411, 1901441070, 24, 185081787, 1, 311572625, 918576807);
    Bit(1549411, 1901441070, 49, 918576807, 1, 686457322, 610312904);
    Bit(1549411, 1901441070, 99, 610312904, 0, 1205362885, 1205362885);
  }

  lemma PowerFor11()
    ensures Power(195225786, 1969212174)
  {
    hide Power;
    LargePower();
    Quad(1549411, 1901441070, 1, 1901441070, 1, 1, 1, 1,
         2015677618, 1456607871, 1754643616, 1515198632, 1259913995, 1689239032, 1429973598, 814151739);
    Bit(1549411, 1901441070, 31, 814151739, 1, 14427671, 1327797538);
    Bit(1549411, 1901441070, 63, 1327797538, 0, 1969212174, 1969212174);
  }

  lemma P31Certified()
    ensures Certified(P31, 7, Factors)
  {
    SmallPrimes();
    PowersFor1And2();
    PowerFor3();
    PowerFor7();
    PowerFor11();
    PowerFor31();
    PowerFor151();
    PowerFor331();
    hide PowMod, Prime;
    FactorsMultiply();
  }

  lemma FactorsMultiply()
    ensures Product(Factors) == P31 - 1
  {
  }

  /** 2^31 - 1 is coprime to every smaller positive number. */
  lemma P31Coprime(x: nat)
    requires 0 < x < P31
    ensures Gcd(x, P31) == 1
  {
    P31Certified();
    CertifiedCoprime(P31, 7, Factors, x);
  }
}
