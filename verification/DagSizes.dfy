/** Cache and dataset sizes: the largest prime number of units below a linearly growing start. */
module DagSizes {
  import opened NrghashConstants
  import opened Powers

  const UINT64: nat := 0x1_0000_0000_0000_0000

  const DATASET_BYTES_GROWTH: nat := 0x80_0000
  const DATASET_BYTES_INIT: nat := 0x4000_0000 + DATASET_BYTES_GROWTH * 182
  const CACHE_BYTES_GROWTH: nat := 0x2_0000
  const CACHE_BYTES_INIT: nat := 0x100_0000 + CACHE_BYTES_GROWTH * 182

  // ----- Primes -----

  ghost predicate Divides(d: nat, n: nat) {
    d > 0 && n % d == 0
  }

  ghost predicate IsPrime(n: nat) {
    n >= 2 && forall d :: 2 <= d < n ==> !Divides(d, n)
  }

  /** No divisor in 2 .. bound - 1. */
  ghost predicate NoDivisor(n: nat, bound: nat) {
    forall d :: 2 <= d < bound ==> !Divides(d, n)
  }

  lemma {:induction false} Cofactor(d: nat, n: nat)
    requires 2 <= d < n && Divides(d, n)
    ensures 2 <= n / d < n && Divides(n / d, n) && (n / d) * d == n
  {
    var e := n / d;
    assert n == e * d;
    if e <= 1 { MulLe(e, 1, d); }
    MulLe(2, d, e);
    assert d * e == e * d;
    assert n % e == 0 by { ModOfProduct(d, e); }
  }

  lemma ModOfProduct(a: nat, b: nat)
    requires b > 0
    ensures (a * b) % b == 0
  {
    var q, r := (a * b) / b, (a * b) % b;
    assert a * b == q * b + r;
    assert (q + 1) * b == q * b + b;
    if q < a { MulLe(q + 1, a, b); }
    assert (a + 1) * b == a * b + b;
    if a < q { MulLe(a + 1, q, b); }
  }

  lemma LargeProduct(b: nat, d: nat, e: nat)
    requires d >= b && e >= b
    ensures e * d >= b * b
  {
    MulLe(b, e, d);
    MulLe(b, d, b);
    assert d * b == b * d;
  }

  /** Trial division up to the square root decides primality. */
  lemma {:induction false} SmallDivisorsSuffice(n: nat, bound: nat)
    requires n >= 2 && bound >= 2 && NoDivisor(n, bound) && bound * bound > n
    ensures IsPrime(n)
  {
    forall d | 2 <= d < n
      ensures !Divides(d, n)
    {
      if Divides(d, n) {
        Cofactor(d, n);
        var e := n / d;
        if d >= bound && e >= bound { LargeProduct(bound, d, e); }
      }
    }
  }

  /** is_prime; it also answers true for 0 and 1. */
  method TrialDivision(x: nat) returns (prime: bool)
    ensures prime <==> x < 2 || IsPrime(x)
  {
    hide Divides;
    var i := 2;
    while i * i <= x
      invariant i >= 2 && NoDivisor(x, i) && (i == 2 || (i - 1) * (i - 1) <= x)
      decreases x - i * i
    {
      if x % i == 0 {
        NotPrime(x, i);
        return false;
      }
      StillNoDivisor(x, i);
      assert (i + 1) * (i + 1) == i * i + 2 * i + 1;
      i := i + 1;
    }
    if x >= 2 { SmallDivisorsSuffice(x, i); }
    return true;
  }

  lemma NotPrime(x: nat, i: nat)
    requires i >= 2 && i * i <= x && x % i == 0
    ensures !IsPrime(x) && x >= 2
  {
    MulLe(2, i, i);
    assert Divides(i, x);
  }

  lemma StillNoDivisor(x: nat, i: nat)
    requires i >= 2 && NoDivisor(x, i) && x % i != 0
    ensures NoDivisor(x, i + 1)
  {
  }

  /** The largest prime that is at most n. */
  ghost function PrimeAtMost(n: nat): (p: nat)
    requires n >= 2
    ensures IsPrime(p) && p <= n && forall q :: p < q <= n ==> !IsPrime(q)
  {
    if IsPrime(n) then n else
      assert n != 2 by { TwoIsPrime(); }
      PrimeAtMost(n - 1)
  }

  lemma TwoIsPrime()
    ensures IsPrime(2) && IsPrime(3)
  {
    assert !Divides(2, 3);
  }

  lemma EvenIsNotPrime(n: nat)
    requires n > 2 && n % 2 == 0
    ensures !IsPrime(n)
  {
    assert Divides(2, n);
  }

  lemma PrimesFromTwo(n: nat)
    requires n < 2
    ensures !IsPrime(n)
  {
  }

  // ----- Sizes -----

  /** x - y in 64 bits. */
  function Minus(x: nat, y: nat): nat
    requires x < UINT64 && y <= UINT64
  {
    if x >= y then x - y else x + UINT64 - y
  }

  /** Where the search for the dataset size starts, in 64-bit arithmetic. */
  function DatasetStart(block: nat): nat {
    Minus((DATASET_BYTES_INIT + DATASET_BYTES_GROWTH * (block / EPOCH_LENGTH)) % UINT64, MIX_BYTES)
  }

  function CacheStart(block: nat): nat {
    Minus((CACHE_BYTES_INIT + CACHE_BYTES_GROWTH * (block / EPOCH_LENGTH)) % UINT64, HASH_BYTES)
  }

  /** One unit below an even number of units. */
  lemma BelowEven(x: nat, unit: nat, h: nat)
    requires unit > 0 && h >= 2 && x == unit * (2 * h)
    ensures x >= unit && (x - unit) % unit == 0 && (x - unit) / unit == 2 * h - 1
  {
    assert unit * (2 * h) == (2 * h - 1) * unit + unit;
    MulLe(0, 2 * h - 1, unit);
    Euclid(x - unit, unit, 2 * h - 1, 0);
  }

  /** The start of a size that grows by 2 * g units, g at least 2, times c, in 64-bit arithmetic. */
  lemma StartIs(c: nat, unit: nat, g: nat, turn: nat)
    requires unit > 0 && g >= 2 && turn > 0 && unit * (2 * (g * turn)) == UINT64
    ensures var start := Minus((unit * (2 * g) * c) % UINT64, unit);
      start < UINT64 && start % unit == 0 && (start / unit) % 2 == 1 && start / unit >= 3
  {
    var k, m := c / turn, c % turn;
    assert c == turn * k + m;
    var x := unit * (2 * (g * m));
    Wraps(c, unit, g, turn, k, m);
    var h := if m > 0 then g * m else g * turn;
    MulLe(1, if m > 0 then m else turn, g);
    BelowEven(unit * (2 * h), unit, h);
  }

  lemma Wraps(c: nat, unit: nat, g: nat, turn: nat, k: nat, m: nat)
    requires unit > 0 && g > 0 && c == turn * k + m && m < turn && unit * (2 * (g * turn)) == UINT64
    ensures (unit * (2 * g) * c) % UINT64 == unit * (2 * (g * m)) < UINT64
    ensures unit * (2 * (g * m)) == 0 <==> m == 0
  {
    var u := unit * (2 * g);
    Associate(unit, 2 * g, turn);
    Associate(2, g, turn);
    Associate(unit, 2 * g, m);
    Associate(2, g, m);
    assert u * turn == UINT64 && u * m == unit * (2 * (g * m));
    assert u > 0;
    Shares(u, turn, k, m);
    MulLe(m + 1, turn, u);
    Euclid(u * c, UINT64, k, u * m);
  }

  lemma Shares(u: nat, turn: nat, k: nat, m: nat)
    ensures u * (turn * k + m) == k * (u * turn) + u * m
  {
    Associate(u, turn, k);
    assert u * turn * k == k * (u * turn);
  }

  /** Both starts are an odd number of units, at least three, even where the arithmetic wraps. */
  lemma StartsAreOdd(block: nat)
    ensures DatasetStart(block) < UINT64 && DatasetStart(block) % MIX_BYTES == 0
    ensures (DatasetStart(block) / MIX_BYTES) % 2 == 1 && DatasetStart(block) / MIX_BYTES >= 3
    ensures CacheStart(block) < UINT64 && CacheStart(block) % HASH_BYTES == 0
    ensures (CacheStart(block) / HASH_BYTES) % 2 == 1 && CacheStart(block) / HASH_BYTES >= 3
  {
    var e := block / EPOCH_LENGTH;
    assert DATASET_BYTES_INIT + DATASET_BYTES_GROWTH * e == MIX_BYTES * (2 * 0x8000) * (310 + e);
    assert CACHE_BYTES_INIT + CACHE_BYTES_GROWTH * e == HASH_BYTES * (2 * 0x400) * (310 + e);
    StartIs(310 + e, MIX_BYTES, 0x8000, 0x200_0000_0000);
    StartIs(310 + e, HASH_BYTES, 0x400, 0x8000_0000_0000);
  }

  /** Below the 64-bit wrap both starts are 310 growths and one per epoch, less one unit. */
  lemma StartsGrow(epoch: nat)
    requires epoch < 0x100_0000_0000
    ensures DatasetStart(epoch * 7200) == 0x80_0000 * (310 + epoch) - 128
    ensures CacheStart(epoch * 7200) == 0x2_0000 * (310 + epoch) - 64
  {
    assert epoch * 7200 / EPOCH_LENGTH == epoch;
  }

  ghost function FullSize(block: nat): nat {
    StartsAreOdd(block);
    PrimeAtMost(DatasetStart(block) / MIX_BYTES) * MIX_BYTES
  }

  ghost function CacheSize(block: nat): nat {
    StartsAreOdd(block);
    PrimeAtMost(CacheStart(block) / HASH_BYTES) * HASH_BYTES
  }

  /** The odd numbers from q + 2 up to the start are not prime, so the largest prime is at most q. */
  lemma {:induction false} SkipTwo(start: nat, q: nat)
    requires 3 <= q <= start && q % 2 == 1 && !IsPrime(q) && PrimeAtMost(start) <= q
    ensures q >= 5 && PrimeAtMost(start) <= q - 2
  {
    TwoIsPrime();
    EvenIsNotPrime(q - 1);
    assert IsPrime(PrimeAtMost(start));
  }

  /** while (!is_prime(size / unit)) size -= 2 * unit */
  method SearchDown(start: nat, unit: nat) returns (size: nat)
    requires unit > 0 && start % unit == 0 && (start / unit) % 2 == 1 && start / unit >= 3
    ensures size == PrimeAtMost(start / unit) * unit
  {
    hide PrimeAtMost, IsPrime;
    ghost var top := start / unit;
    size := start;
    ghost var q := top;
    PrimeBounds(top);
    assert start == q * unit;
    while true
      invariant size == q * unit && 3 <= q <= top && q % 2 == 1 && PrimeAtMost(top) <= q
      decreases q
    {
      QuotientIs(q, unit);
      var prime := TrialDivision(size / unit);
      if prime {
        PrimeBounds(top);
        return;
      }
      SkipTwo(top, q);
      assert q * unit - 2 * unit == (q - 2) * unit;
      size := size - 2 * unit;
      q := q - 2;
    }
  }

  lemma QuotientIs(q: nat, unit: nat)
    requires unit > 0
    ensures (q * unit) / unit == q
  {
    ModOfProduct(q, unit);
    var r := (q * unit) / unit;
    assert q * unit == r * unit;
  }

  lemma PrimeBounds(n: nat)
    requires n >= 2
    ensures PrimeAtMost(n) <= n && IsPrime(PrimeAtMost(n)) && forall q :: PrimeAtMost(n) < q <= n ==> !IsPrime(q)
  {
  }

  /** get_full_size */
  method GetFullSize(block: nat) returns (size: nat)
    ensures size == FullSize(block) && size % MIX_BYTES == 0 && IsPrime(size / MIX_BYTES)
    ensures forall q :: size / MIX_BYTES < q <= DatasetStart(block) / MIX_BYTES ==> !IsPrime(q)
  {
    StartsAreOdd(block);
    hide PrimeAtMost, IsPrime, DatasetStart;
    size := SearchDown(DatasetStart(block), MIX_BYTES);
    PrimeBounds(DatasetStart(block) / MIX_BYTES);
  }

  /** get_cache_size */
  method GetCacheSize(block: nat) returns (size: nat)
    ensures size == CacheSize(block) && size % HASH_BYTES == 0 && IsPrime(size / HASH_BYTES)
    ensures forall q :: size / HASH_BYTES < q <= CacheStart(block) / HASH_BYTES ==> !IsPrime(q)
  {
    StartsAreOdd(block);
    hide PrimeAtMost, IsPrime, CacheStart;
    size := SearchDown(CacheStart(block), HASH_BYTES);
    PrimeBounds(CacheStart(block) / HASH_BYTES);
  }
}
