/** Numbers as sequences of 32-bit limbs, least significant first, and the bit operations of
    primitives/arith_uint256.cpp read on natural numbers. */
module Limbs {
  import opened Powers

  const BASE: nat := 0x1_0000_0000
  const WIDTH: nat := 8

  type Word = x: nat | x < 0x1_0000_0000

  function Value(s: seq<Word>): nat {
    if s == [] then 0 else Value(s[..|s| - 1]) + s[|s| - 1] * Pow(BASE, |s| - 1)
  }

  /** x | y */
  function BitOr(x: nat, y: nat): nat {
    if x == 0 then y else if y == 0 then x
    else 2 * BitOr(x / 2, y / 2) + if x % 2 == 1 || y % 2 == 1 then 1 else 0
  }

  /** Or works bit by bit. */
  lemma {:induction false} OrBit(x: nat, y: nat, k: nat)
    ensures Bit(BitOr(x, y), k) <==> Bit(x, k) || Bit(y, k)
    decreases k
  {
    hide Bit;
    BitOfHalf(x, k);
    BitOfHalf(y, k);
    BitOfHalf(BitOr(x, y), k);
    OrHalf(x, y);
    if k > 0 { OrBit(x / 2, y / 2, k - 1); }
  }

  lemma OrHalf(x: nat, y: nat)
    ensures BitOr(x, y) / 2 == BitOr(x / 2, y / 2) && (BitOr(x, y) % 2 == 1 <==> x % 2 == 1 || y % 2 == 1)
  {
  }

  lemma {:induction false} OrIsSum(x: nat, y: nat, k: nat)
    requires y < Pow(2, k)
    ensures BitOr(x * Pow(2, k), y) == x * Pow(2, k) + y
  {
    if k > 0 && x > 0 && y > 0 {
      var p := Pow(2, k - 1);
      assert x * Pow(2, k) == 2 * (x * p);
      OrIsSum(x, y / 2, k - 1);
    }
  }

  lemma {:induction false} ValueBound(s: seq<Word>)
    ensures Value(s) < Pow(BASE, |s|)
  {
    if s != [] {
      var n := |s| - 1;
      ValueBound(s[..n]);
      MulLe(s[n], BASE - 1, Pow(BASE, n));
      assert Pow(BASE, n + 1) == (BASE - 1) * Pow(BASE, n) + Pow(BASE, n);
    }
  }

  lemma {:induction false} ValuePrefix(s: seq<Word>, i: nat)
    requires i < |s|
    ensures Value(s[..i + 1]) == Value(s[..i]) + s[i] * Pow(BASE, i)
  {
    assert s[..i + 1][..i] == s[..i];
  }

  lemma {:induction false} ValueSplit(s: seq<Word>, k: nat)
    requires k <= |s|
    ensures Value(s) == Value(s[..k]) + Value(s[k..]) * Pow(BASE, k)
  {
    if k == |s| {
      assert s[..k] == s;
    } else {
      var n := |s| - 1;
      ValueSplit(s[..n], k);
      assert s[..n][..k] == s[..k] && s[..n][k..] == s[k..][..n - k];
      PowAdd(BASE, n - k, k);
      SplitArith(Value(s[k..][..n - k]), s[n], Pow(BASE, n - k), Pow(BASE, k));
    }
  }

  lemma SplitArith(v: nat, d: nat, p: nat, q: nat)
    ensures (v + d * p) * q == v * q + d * (p * q)
  {
  }

  lemma {:induction false} ZeroValue(s: seq<Word>)
    requires forall i :: 0 <= i < |s| ==> s[i] == 0
    ensures Value(s) == 0
  {
    if s != [] { ZeroValue(s[..|s| - 1]); }
  }

  /** 2^256 as a power of the limb base. */
  const TWO256: nat := Pow(BASE, WIDTH)

  /** What is left of n in 256 bits. */
  function Wrap256(n: nat): (r: nat)
    ensures r < TWO256
  {
    n % TWO256
  }
}
