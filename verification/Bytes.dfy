/** Bytes and little-endian integers, the base of every serialized form in common/serialize.h. */
module Bytes {
  import opened Options
  import opened Powers

  type Byte = b: nat | b < 256

  /** The k little-endian bytes of n. */
  function LE(n: nat, k: nat): (r: seq<Byte>)
    ensures |r| == k
    decreases k
  {
    if k == 0 then [] else
      var low: Byte := n % 256;
      [low] + LE(n / 256, k - 1)
  }

  function FromLE(b: seq<Byte>): nat {
    if b == [] then 0 else b[0] + 256 * FromLE(b[1..])
  }

  /** Byte i is the one of weight 256^i. */
  lemma {:induction false} LEByte(n: nat, k: nat, i: nat)
    requires i < k
    ensures LE(n, k)[i] == (n / Pow(256, i)) % 256
  {
    if i > 0 {
      LEByte(n / 256, k - 1, i - 1);
      DivTwice(n, 256, Pow(256, i - 1));
    }
  }

  lemma DivTwice(n: nat, a: nat, b: nat)
    requires a > 0 && b > 0
    ensures a * b > 0 && n / a / b == n / (a * b)
  {
    var q, r := n / a, n % a;
    var h, l := q / b, q % b;
    assert n == q * a + r && q == h * b + l;
    TwoDigits(n, q, r, h, l, a, b);
    Euclid(n, a * b, h, l * a + r);
  }

  lemma TwoDigits(n: nat, q: nat, r: nat, h: nat, l: nat, a: nat, b: nat)
    requires n == q * a + r && r < a && q == h * b + l && l < b
    ensures n == h * (a * b) + (l * a + r) && l * a + r < a * b
  {
    Associate(h, b, a);
    assert (h * b + l) * a == h * b * a + l * a;
    MulLe(l + 1, b, a);
    assert (l + 1) * a == l * a + a;
  }

  lemma {:induction false} FromLEOfLE(n: nat, k: nat)
    requires n < Pow(256, k)
    ensures FromLE(LE(n, k)) == n
  {
    if k > 0 {
      FromLEOfLE(n / 256, k - 1);
      assert LE(n, k)[1..] == LE(n / 256, k - 1);
    }
  }

  lemma {:induction false} LEOfFromLE(b: seq<Byte>)
    ensures LE(FromLE(b), |b|) == b && FromLE(b) < Pow(256, |b|)
  {
    if b != [] {
      LEOfFromLE(b[1..]);
      assert FromLE(b) % 256 == b[0] && FromLE(b) / 256 == FromLE(b[1..]);
    }
  }

  lemma PowersOf256()
    ensures Pow(256, 1) == 0x100 && Pow(256, 2) == 0x1_0000 && Pow(256, 4) == 0x1_0000_0000
    ensures Pow(256, 8) == 0x1_0000_0000_0000_0000
  {
    assert Pow(256, 2) == 0x1_0000;
    assert Pow(256, 4) == 0x1_0000_0000;
    assert Pow(256, 6) == 0x1_0000_0000_0000;
  }

  // ----- Taking a field off the front of a byte string -----

  /** What a reader returns: the value and the bytes it leaves. */
  type Parsed<T> = Option<(T, seq<Byte>)>

  function TakeBytes(b: seq<Byte>, k: nat): Parsed<seq<Byte>> {
    if |b| < k then None else Some((b[..k], b[k..]))
  }

  lemma TakeBytesIff(b: seq<Byte>, k: nat, x: seq<Byte>, rest: seq<Byte>)
    ensures TakeBytes(b, k) == Some((x, rest)) <==> |x| == k && b == x + rest
  {
    if |b| >= k { assert b == b[..k] + b[k..]; }
  }

  function TakeLE(b: seq<Byte>, k: nat): Parsed<nat> {
    if |b| < k then None else Some((FromLE(b[..k]), b[k..]))
  }

  lemma {:induction false} TakeLEIff(b: seq<Byte>, k: nat, n: nat, rest: seq<Byte>)
    ensures TakeLE(b, k) == Some((n, rest)) <==> n < Pow(256, k) && b == LE(n, k) + rest
  {
    hide FromLE, LE, Pow;
    if TakeLE(b, k) == Some((n, rest)) {
      LEOfFromLE(b[..k]);
      assert b == b[..k] + b[k..];
    }
    if n < Pow(256, k) && b == LE(n, k) + rest {
      FromLEOfLE(n, k);
      assert b[..k] == LE(n, k) && b[k..] == rest;
    }
  }
}
