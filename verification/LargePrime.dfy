/** A prime just above 2^31, certified by an element of large prime order: it decides from which epoch on
    the page count of nrghash/nrghash.cpp no longer fits 31 bits. */
module LargePrime {
  import opened Powers
  import opened DagSizes

  // ----- Remainders -----

  lemma RemIs(n: nat, m: nat, q: nat, r: nat)
    requires n == q * m + r && r < m
    ensures Rem(n, m) == r
  {
    Euclid(n, m, q, r);
  }

  lemma RemSplit(n: nat, m: nat) returns (q: nat)
    requires m > 0
    ensures n == q * m + Rem(n, m)
  {
    q := n / m;
  }

  /** A product's remainder depends on the remainders of its factors. */
  lemma RemMul(a: nat, b: nat, m: nat)
    requires m > 0
    ensures Rem(a * b, m) == Rem(Rem(a, m) * Rem(b, m), m)
  {
    hide Rem;
    var q := RemSplit(a, m);
    var r := RemSplit(b, m);
    var x, y := Rem(a, m), Rem(b, m);
    var z := RemSplit(x * y, m);
    Expand(q, r, x, y, m);
    assert (q * (r * m + y) + x * r) * m + z * m == (q * (r * m + y) + x * r + z) * m;
    RemIs(a * b, m, q * (r * m + y) + x * r + z, Rem(x * y, m));
  }

  lemma Expand(q: nat, r: nat, x: nat, y: nat, m: nat)
    ensures (q * m + x) * (r * m + y) == (q * (r * m + y) + x * r) * m + x * y
  {
    var b := r * m + y;
    assert (q * m + x) * b == q * m * b + x * b;
    assert x * b == x * r * m + x * y;
    assert q * m * b == q * b * m;
    assert (q * b + x * r) * m == q * b * m + x * r * m;
  }

  /** A remainder modulo a divisor can be taken from the remainder modulo the multiple. */
  lemma RemOfRem(n: nat, m: nat, d: nat)
    requires m > 0 && Divides(d, m)
    ensures Rem(Rem(n, m), d) == Rem(n, d)
  {
    hide Rem;
    var q := RemSplit(n, m);
    var k := m / d;
    var z := RemSplit(Rem(n, m), d);
    assert m == k * d;
    assert q * (k * d) == q * k * d;
    assert q * k * d + z * d == (q * k + z) * d;
    RemIs(n, d, q * k + z, Rem(Rem(n, m), d));
  }

  lemma RemOne(m: nat)
    requires m > 1
    ensures Rem(1, m) == 1
  {
  }

  lemma RemSmall(n: nat, m: nat)
    requires n < m
    ensures Rem(n, m) == n
  {
  }

  // ----- Powers modulo d -----

  function PowRem(y: nat, e: nat, d: nat): nat
    requires d > 0
  {
    Rem(Pow(y, e), d)
  }

  lemma {:induction false} PowRemAdd(y: nat, a: nat, b: nat, d: nat)
    requires d > 0
    ensures PowRem(y, a + b, d) == Rem(PowRem(y, a, d) * PowRem(y, b, d), d)
  {
    hide Pow, Rem;
    PowAdd(y, a, b);
    RemMul(Pow(y, a), Pow(y, b), d);
  }

  /** Adding a multiple of an exponent that gives one changes nothing. */
  lemma {:induction false} PowRemPeriod(y: nat, e: nat, k: nat, r: nat, d: nat)
    requires d > 1 && PowRem(y, e, d) == 1
    ensures PowRem(y, k * e + r, d) == PowRem(y, r, d)
    decreases k
  {
    hide Pow, Rem, PowRem;
    if k > 0 {
      PowRemPeriod(y, e, k - 1, r, d);
      assert k * e + r == e + ((k - 1) * e + r);
      PowRemAdd(y, e, (k - 1) * e + r, d);
      PowRemTwice(y, r, d);
    }
  }

  lemma PowRemTwice(y: nat, r: nat, d: nat)
    requires d > 0
    ensures Rem(1 * PowRem(y, r, d), d) == PowRem(y, r, d)
  {
    hide Pow;
    RemSmall(PowRem(y, r, d), d);
  }

  /** y has order l modulo p, and y - 1 is invertible. */
  ghost predicate HasOrder(y: nat, l: nat, p: nat, u: nat) {
    y > 0 && IsPrime(l) && p > 1 && PowRem(y, l, p) == 1 && Rem(u * (y - 1), p) == 1
  }

  lemma {:induction false} OrderModDivisor(y: nat, l: nat, p: nat, u: nat, d: nat)
    requires HasOrder(y, l, p, u) && d >= 2 && Divides(d, p)
    ensures PowRem(y, l, d) == 1 && PowRem(y, 1, d) != 1
  {
    hide Pow, Rem, IsPrime, Divides;
    RemOfRem(Pow(y, l), p, d);
    RemOfRem(u * (y - 1), p, d);
    RemOne(d);
    FirstPower(y);
    if PowRem(y, 1, d) == 1 { NotInvertible(y, u, d); }
  }

  lemma FirstPower(y: nat)
    ensures Pow(y, 1) == y
  {
  }

  lemma NotInvertible(y: nat, u: nat, d: nat)
    requires y > 0 && d >= 2 && Rem(y, d) == 1
    ensures Rem(u * (y - 1), d) == 0
  {
    hide Rem;
    var q := RemSplit(y, d);
    assert u * (q * d) == u * q * d;
    RemIs(u * (y - 1), d, u * q, 0);
  }

  /** No smaller exponent gives one: by Euclid's descent from the prime order. */
  lemma {:induction false} NoSmallerOrder(y: nat, l: nat, d: nat, e: nat)
    requires d > 1 && IsPrime(l) && PowRem(y, l, d) == 1 && PowRem(y, 1, d) != 1 && 0 < e < l
    ensures PowRem(y, e, d) != 1
    decreases e
  {
    hide Pow, Rem, PowRem;
    if PowRem(y, e, d) == 1 && e > 1 {
      var k, r := l / e, l % e;
      assert !Divides(e, l);
      PowRemPeriod(y, e, k, r, d);
      NoSmallerOrder(y, l, d, r);
    }
  }

  lemma {:induction false} PowersDiffer(y: nat, l: nat, d: nat, i: nat, j: nat)
    requires d > 1 && IsPrime(l) && PowRem(y, l, d) == 1 && PowRem(y, 1, d) != 1 && i < j < l
    ensures PowRem(y, i, d) != PowRem(y, j, d)
  {
    hide Pow, Rem, PowRem, IsPrime;
    PowRemAdd(y, l - i, i, d);
    PowRemAdd(y, l - i, j, d);
    PowRemPeriod(y, l, 1, j - i, d);
    NoSmallerOrder(y, l, d, j - i);
  }

  // ----- Pigeonholes -----

  lemma {:induction false} Pigeons(s: seq<nat>, d: nat)
    requires (forall i :: 0 <= i < |s| ==> s[i] < d) && (forall i, j :: 0 <= i < j < |s| ==> s[i] != s[j])
    ensures |s| <= d
  {
    var holes := Below(d);
    var used := Members(s);
    assert used <= holes;
    Fewer(used, holes);
  }

  lemma {:induction false} Fewer(a: set<nat>, b: set<nat>)
    requires a <= b
    ensures |a| <= |b|
  {
    if a != {} {
      var x :| x in a;
      Fewer(a - {x}, b - {x});
    }
  }

  ghost function Below(d: nat): (r: set<nat>)
    ensures |r| == d && forall x: nat :: x in r <==> x < d
  {
    if d == 0 then {} else Below(d - 1) + {d - 1}
  }

  ghost function Members(s: seq<nat>): (r: set<nat>)
    requires forall i, j :: 0 <= i < j < |s| ==> s[i] != s[j]
    ensures |r| == |s| && forall x :: x in r <==> x in s
  {
    if s == [] then {} else
      var last := |s| - 1;
      assert s == s[..last] + [s[last]];
      Members(s[..last]) + {s[last]}
  }

  /** The powers of y are that many different remainders: every divisor is at least the order. */
  lemma {:induction false} DivisorsAreLarge(y: nat, l: nat, p: nat, u: nat, d: nat)
    requires HasOrder(y, l, p, u) && d >= 2 && Divides(d, p)
    ensures d >= l
  {
    hide PowRem, IsPrime, Divides;
    OrderModDivisor(y, l, p, u, d);
    var s := seq(l, i requires 0 <= i < l => PowRem(y, i, d));
    forall i | 0 <= i < l ensures s[i] < d { SmallRem(y, i, d); }
    forall i, j | 0 <= i < j < l ensures s[i] != s[j] { PowersDiffer(y, l, d, i, j); }
    Pigeons(s, d);
  }

  lemma SmallRem(y: nat, e: nat, d: nat)
    requires d > 0
    ensures PowRem(y, e, d) < d
  {
    hide Pow, Rem;
  }

  /** An element of prime order above the square root certifies a prime. */
  lemma {:induction false} OrderCertifies(y: nat, l: nat, p: nat, u: nat)
    requires HasOrder(y, l, p, u) && l * l > p
    ensures IsPrime(p)
  {
    forall d | 2 <= d < l
      ensures !Divides(d, p)
    {
      if Divides(d, p) { DivisorsAreLarge(y, l, p, u, d); }
    }
    SmallDivisorsSuffice(p, l);
  }

  // ----- The certificate -----

  const PRIME: nat := 2147513177
  const ORDER: nat := 65617
  const BASE: nat := 1199189085

  /** None of 2 .. k divides n. */
  predicate Tried(n: nat, k: nat) {
    k < 2 || (n % k != 0 && Tried(n, k - 1))
  }

  lemma {:induction false} TriedIs(n: nat, k: nat)
    requires Tried(n, k)
    ensures NoDivisor(n, k + 1)
  {
    if k >= 2 { TriedIs(n, k - 1); }
  }

  lemma OrderTriedTo64()
    ensures Tried(65617, 64)
  {
    assert Tried(65617, 8); assert Tried(65617, 16); assert Tried(65617, 24); assert Tried(65617, 32);
    assert Tried(65617, 40); assert Tried(65617, 48); assert Tried(65617, 56); assert Tried(65617, 64);
  }

  lemma OrderTriedTo128()
    ensures Tried(65617, 128)
  {
    OrderTriedTo64();
    assert Tried(65617, 72); assert Tried(65617, 80); assert Tried(65617, 88); assert Tried(65617, 96);
    assert Tried(65617, 104); assert Tried(65617, 112); assert Tried(65617, 120); assert Tried(65617, 128);
  }

  lemma OrderTriedTo192()
    ensures Tried(65617, 192)
  {
    OrderTriedTo128();
    assert Tried(65617, 136); assert Tried(65617, 144); assert Tried(65617, 152); assert Tried(65617, 160);
    assert Tried(65617, 168); assert Tried(65617, 176); assert Tried(65617, 184); assert Tried(65617, 192);
  }

  lemma OrderTriedTo256()
    ensures Tried(65617, 256)
  {
    OrderTriedTo192();
    assert Tried(65617, 200); assert Tried(65617, 208); assert Tried(65617, 216); assert Tried(65617, 224);
    assert Tried(65617, 232); assert Tried(65617, 240); assert Tried(65617, 248); assert Tried(65617, 256);
  }

  lemma OrderIsPrime()
    ensures IsPrime(ORDER)
  {
    hide Tried;
    OrderTriedTo256();
    TriedIs(ORDER, 256);
    SmallDivisorsSuffice(ORDER, 257);
  }

  /** One multiplication of the power ladder. */
  lemma Ladder(a: nat, x: nat, b: nat, y: nat, z: nat)
    requires PowRem(BASE, a, PRIME) == x && PowRem(BASE, b, PRIME) == y && (x * y) % PRIME == z
    ensures PowRem(BASE, a + b, PRIME) == z
  {
    hide Pow;
    PowRemAdd(BASE, a, b, PRIME);
  }

  lemma LadderStart()
    ensures PowRem(BASE, 1, PRIME) == BASE
  {
    FirstPower(BASE);
    RemSmall(BASE, PRIME);
  }

  lemma LadderTo256()
    ensures PowRem(BASE, 16, PRIME) == 297879669 && PowRem(BASE, 64, PRIME) == 1283308807 && PowRem(BASE, 256, PRIME) == 535238297
  {
    hide PowRem;
    LadderStart();
    Ladder(1, 1199189085, 1, 1199189085, 2032794534);
    Ladder(2, 2032794534, 2, 2032794534, 423114996);
    Ladder(4, 423114996, 4, 423114996, 2021458826);
    Ladder(8, 2021458826, 8, 2021458826, 297879669);
    Ladder(16, 297879669, 16, 297879669, 1265501582);
    Ladder(32, 1265501582, 32, 1265501582, 1283308807);
    Ladder(64, 1283308807, 64, 1283308807, 1344441502);
    Ladder(128, 1344441502, 128, 1344441502, 535238297);
  }

  lemma LadderTo65536()
    ensures PowRem(BASE, 65536, PRIME) == 5884053
  {
    hide PowRem;
    LadderTo256();
    Ladder(256, 535238297, 256, 535238297, 770262830);
    Ladder(512, 770262830, 512, 770262830, 1525112570);
    Ladder(1024, 1525112570, 1024, 1525112570, 1040267329);
    Ladder(2048, 1040267329, 2048, 1040267329, 1945857681);
    Ladder(4096, 1945857681, 4096, 1945857681, 1067113637);
    Ladder(8192, 1067113637, 8192, 1067113637, 1166992062);
    Ladder(16384, 1166992062, 16384, 1166992062, 965621095);
    Ladder(32768, 965621095, 32768, 965621095, 5884053);
  }

  lemma {:induction false} PrimeAbove31Bits()
    ensures IsPrime(PRIME) && 0x8000_0000 <= PRIME < 0x8000_0000 + 0x1_0000
  {
    hide PowRem, IsPrime;
    LadderStart();
    LadderTo256();
    LadderTo65536();
    Ladder(65536, 5884053, 64, 1283308807, 1267971849);
    Ladder(65600, 1267971849, 16, 297879669, 1975402607);
    Ladder(65616, 1975402607, 1, 1199189085, 1);
    OrderIsPrime();
    OrderCertifies(BASE, ORDER, PRIME, 987227547);
  }
}
