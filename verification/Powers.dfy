/** Powers and right shifts of natural numbers, shared by the arithmetic and tree modules. */
module Powers {

  function Pow(b: nat, e: nat): (r: nat)
    ensures b > 0 ==> r > 0
  {
    if e == 0 then 1 else b * Pow(b, e - 1)
  }

  /** n >> k, one bit at a time. */
  function Shr(n: nat, k: nat): (r: nat)
    ensures r <= n
  {
    if k == 0 then n else Shr(n, k - 1) / 2
  }

  /** Bit k of n, as tested by n & (1 << k). */
  predicate Bit(n: nat, k: nat) {
    Shr(n, k) % 2 == 1
  }

  lemma {:induction false} ShrAgree(a: nat, b: nat, k: nat, l: nat)
    requires k <= l && Shr(a, k) == Shr(b, k)
    ensures Shr(a, l) == Shr(b, l)
  {
    if k < l { ShrAgree(a, b, k, l - 1); }
  }

  lemma {:induction false} ShrMono(a: nat, b: nat, k: nat)
    requires a <= b
    ensures Shr(a, k) <= Shr(b, k)
  {
    if k > 0 { ShrMono(a, b, k - 1); }
  }

  lemma {:induction false} ShrDecreases(n: nat, k: nat, l: nat)
    requires k <= l
    ensures Shr(n, l) <= Shr(n, k)
  {
    if k < l { ShrDecreases(n, k, l - 1); }
  }

  lemma {:induction false} ShrOfHalf(n: nat, k: nat)
    ensures Shr(n / 2, k) == Shr(n, k + 1)
  {
    if k > 0 { ShrOfHalf(n, k - 1); }
  }

  /** Bits of a number, from its half. */
  lemma BitOfHalf(n: nat, k: nat)
    ensures Bit(n, 0) <==> n % 2 == 1
    ensures k > 0 ==> (Bit(n, k) <==> Bit(n / 2, k - 1))
  {
    if k > 0 { ShrOfHalf(n, k - 1); }
  }

  lemma MulLe(a: int, b: int, c: nat)
    requires a <= b
    ensures a * c <= b * c
  {
  }

  lemma HalveBounds(n: nat, q: nat, p: nat)
    requires q * p <= n < (q + 1) * p
    ensures (q / 2) * (2 * p) <= n < (q / 2 + 1) * (2 * p)
  {
    var m := q / 2;
    if q == 2 * m {
      assert m * (2 * p) == q * p;
      assert (m + 1) * (2 * p) == (q + 1) * p + p;
    } else {
      assert q == 2 * m + 1;
      assert m * (2 * p) == q * p - p;
      assert (m + 1) * (2 * p) == (q + 1) * p;
    }
  }

  /** Shr is division by a power of two. */
  lemma {:induction false} ShrBounds(n: nat, k: nat)
    ensures Shr(n, k) * Pow(2, k) <= n < (Shr(n, k) + 1) * Pow(2, k)
  {
    if k > 0 {
      ShrBounds(n, k - 1);
      HalveBounds(n, Shr(n, k - 1), Pow(2, k - 1));
    }
  }

  lemma PowerOf32()
    ensures Pow(2, 32) == 0x1_0000_0000 && Pow(2, 31) == 0x8000_0000
  {
    assert Pow(2, 8) == 256;
    assert Pow(2, 16) == 65536;
    assert Pow(2, 24) == 0x100_0000;
  }

  lemma Associate(a: nat, b: nat, c: nat)
    ensures a * (b * c) == a * b * c
  {
  }

  lemma {:induction false} PowAdd(b: nat, m: nat, n: nat)
    ensures Pow(b, m + n) == Pow(b, m) * Pow(b, n)
  {
    if m == 0 {
    } else {
      PowAdd(b, m - 1, n);
      Associate(b, Pow(b, m - 1), Pow(b, n));
    }
  }

  lemma {:induction false} PowMono(b: nat, m: nat, n: nat)
    requires b > 0 && m <= n
    ensures Pow(b, m) <= Pow(b, n)
  {
    if m < n {
      PowMono(b, m, n - 1);
      MulLe(1, b, Pow(b, n - 1));
    }
  }

  lemma {:induction false} PowerSplit(k: nat, n: nat)
    requires k <= n
    ensures Pow(2, n) == Pow(2, n - k) * Pow(2, k) && Pow(2, n) >= Pow(2, k)
  {
    PowAdd(2, n - k, k);
  }

  lemma {:induction false} BytePow(k: nat)
    ensures Pow(256, k) == Pow(2, 8 * k)
  {
    if k > 0 {
      BytePow(k - 1);
      PowAdd(2, 8, 8 * (k - 1));
      assert Pow(2, 8) == 256;
    }
  }

  /** The top bit of a number that fits k + 1 bits. */
  lemma {:induction false} HighBit(x: nat, k: nat)
    requires x < Pow(2, k + 1)
    ensures Bit(x, k) <==> Pow(2, k) <= x
  {
    ShrBounds(x, k);
    hide Shr;
    var p := Pow(2, k);
    if Shr(x, k) >= 2 { MulLe(2, Shr(x, k), p); }
    if Shr(x, k) == 0 { assert (0 + 1) * p == p; }
  }

  /** n % m, under a name that proofs can hide. */
  function Rem(n: nat, m: nat): (r: nat)
    requires m > 0
    ensures r < m
  {
    n % m
  }

  /** Quotient and remainder, from a decomposition. */
  lemma Euclid(n: nat, m: nat, q: nat, r: nat)
    requires n == q * m + r && r < m
    ensures n % m == r && n / m == q
  {
    var d := n / m;
    assert n == d * m + n % m;
    assert (d + 1) * m == d * m + m && (q + 1) * m == q * m + m;
    if d < q { MulLe(d + 1, q, m); }
    if q < d { MulLe(q + 1, d, m); }
  }
}
