/** CScriptNum of primitives/script.h: sign-and-magnitude integers in the fewest bytes. */
module ScriptNum {
  import opened Options
  import opened Powers
  import opened Bytes
  import Limbs

  const INT64_BOUND: int := 0x8000_0000_0000_0000

  /** Little-endian bytes without leading zeros. */
  function Magnitude(a: nat): seq<Byte> {
    if a == 0 then [] else
      var low: Byte := a % 256;
      [low] + Magnitude(a / 256)
  }

  function Abs(n: int): nat { if n < 0 then -n else n }

  function Negate(n: int): int { -n }

  function Last(b: seq<Byte>): Byte
    requires b != []
  {
    b[|b| - 1]
  }

  /** The sign goes into the top bit of the last byte, or into a byte of its own when that bit is taken. */
  function Signed(m: seq<Byte>, neg: bool): seq<Byte>
    requires m != []
  {
    if Last(m) >= 0x80 then m + [if neg then 0x80 else 0]
    else if neg then m[..|m| - 1] + [Last(m) + 0x80]
    else m
  }

  function Encoding(n: int): seq<Byte> {
    MagnitudeNonEmpty(Abs(n));
    if n == 0 then [] else Signed(Magnitude(Abs(n)), n < 0)
  }

  lemma MagnitudeNonEmpty(a: nat)
    ensures a != 0 ==> Magnitude(a) != []
  {
  }

  /** The value of an encoding: the bytes without the sign bit, negated when it is set. */
  function Value(b: seq<Byte>): int {
    if b == [] then 0
    else if Last(b) >= 0x80 then Negate(FromLE(b[..|b| - 1] + [Last(b) - 0x80]))
    else FromLE(b)
  }

  /** The check that rejects redundant encodings. */
  predicate Minimal(b: seq<Byte>) {
    b != [] && Last(b) % 128 == 0 ==> |b| > 1 && b[|b| - 2] >= 0x80
  }

  // ----- Magnitudes -----

  lemma {:induction false} MagnitudeIs(a: nat)
    ensures FromLE(Magnitude(a)) == a && (a > 0 ==> Magnitude(a) != [] && Last(Magnitude(a)) != 0)
  {
    if a > 0 {
      MagnitudeIs(a / 256);
      var m := Magnitude(a);
      assert m[1..] == Magnitude(a / 256);
      if a / 256 > 0 { assert Last(m) == Last(m[1..]); } else { assert m == [a]; }
    }
  }

  lemma {:induction false} MagnitudeOf(m: seq<Byte>)
    requires m != [] ==> Last(m) != 0
    ensures Magnitude(FromLE(m)) == m && (m != [] ==> FromLE(m) > 0)
  {
    if m != [] {
      assert m[1..] != [] ==> Last(m[1..]) == Last(m);
      MagnitudeOf(m[1..]);
      var v := FromLE(m);
      assert v % 256 == m[0] && v / 256 == FromLE(m[1..]);
      assert v > 0;
    }
  }

  lemma {:induction false} FromLEAppend(m: seq<Byte>, x: Byte)
    ensures FromLE(m + [x]) == FromLE(m) + Pow(256, |m|) * x
  {
    if m == [] {
      NoBytes();
      assert [] + [x] == [x] && [x][1..] == [];
      assert FromLE([x]) == x;
    } else {
      FromLEAppend(m[1..], x);
      assert (m + [x])[1..] == m[1..] + [x];
      assert 256 * (Pow(256, |m| - 1) * x) == 256 * Pow(256, |m| - 1) * x;
    }
  }

  // ----- Every number has exactly one minimal encoding -----

  lemma {:induction false} SignedIs(m: seq<Byte>, neg: bool)
    requires m != [] && Last(m) != 0
    ensures Signed(m, neg) != [] && Minimal(Signed(m, neg))
    ensures Value(Signed(m, neg)) == if neg then Negate(FromLE(m)) else FromLE(m)
  {
    hide FromLE;
    var k := |m| - 1;
    assert m == m[..k] + [Last(m)];
    if Last(m) >= 0x80 {
      FromLEAppend(m, 0);
      assert (m + [0x80])[..|m|] == m;
    } else if neg {
      var b := m[..k] + [Last(m) + 0x80];
      assert b[..k] == m[..k] && Last(b) == Last(m) + 0x80;
      assert b[..k] + [Last(b) - 0x80] == m;
    }
  }

  lemma {:induction false} EncodingIs(n: int)
    ensures Minimal(Encoding(n)) && Value(Encoding(n)) == n
  {
    hide Magnitude, FromLE, Signed;
    if n != 0 {
      MagnitudeIs(Abs(n));
      SignedIs(Magnitude(Abs(n)), n < 0);
    }
  }

  /** A minimal encoding is a sign put on a magnitude without leading zeros. */
  lemma {:induction false} MinimalIsSigned(b: seq<Byte>) returns (m: seq<Byte>, neg: bool)
    requires b != [] && Minimal(b)
    ensures m != [] && Last(m) != 0 && b == Signed(m, neg)
  {
    var k := |b| - 1;
    neg := Last(b) >= 0x80;
    assert b == b[..k] + [Last(b)];
    if Last(b) % 128 == 0 {
      m := b[..k];
      assert Last(m) == b[k - 1];
      assert Last(b) == if neg then 0x80 else 0;
    } else if neg {
      m := b[..k] + [Last(b) - 0x80];
      assert m[..k] == b[..k];
    } else {
      m := b;
    }
  }

  /** serialize(n) is the one minimal encoding of n. */
  lemma {:induction false} EncodingIsUnique(b: seq<Byte>, n: int)
    ensures b == Encoding(n) <==> Minimal(b) && Value(b) == n
  {
    hide Minimal, Value, Magnitude, FromLE;
    EncodingIs(n);
    if Minimal(b) && Value(b) == n {
      if b == [] {
        NothingIsZero();
      } else {
        var m, neg := MinimalIsSigned(b);
        SignedIs(m, neg);
        MagnitudeOf(m);
      }
    }
  }

  lemma NothingIsZero()
    ensures Value([]) == 0
  {
  }

  /** Every number above -2^63 takes at most eight bytes. */
  lemma {:induction false} EncodingFits(n: int)
    requires -INT64_BOUND < n < INT64_BOUND
    ensures |Encoding(n)| <= 8
  {
    hide FromLE, Magnitude, Pow;
    if n != 0 {
      var m := Magnitude(Abs(n));
      MagnitudeIs(Abs(n));
      TopByte(m);
    }
  }

  lemma {:induction false} TopByte(m: seq<Byte>)
    requires m != [] && Last(m) != 0 && FromLE(m) < INT64_BOUND
    ensures |m| < 8 || (|m| == 8 && Last(m) < 0x80)
  {
    hide FromLE, Pow;
    var k := |m| - 1;
    assert m == m[..k] + [Last(m)];
    FromLEAppend(m[..k], Last(m));
    if k > 7 || (k == 7 && Last(m) >= 0x80) { BigTop(k, Last(m)); }
  }

  lemma {:induction false} BigTop(k: nat, top: nat)
    requires top >= 1 && (k > 7 || (k == 7 && top >= 0x80))
    ensures Pow(256, k) * top >= INT64_BOUND
  {
    hide Pow;
    SevenBytes();
    if k > 7 {
      PowMono(256, 8, k);
      MulLe(1, top, Pow(256, k));
    } else {
      MulLe(0x80, top, Pow(256, 7));
    }
  }

  lemma SevenBytes()
    ensures 0x80 * Pow(256, 7) == INT64_BOUND && Pow(256, 8) == 2 * INT64_BOUND
  {
    assert Pow(256, 4) == 0x1_0000_0000;
    assert Pow(256, 6) == 0x1_0000_0000_0000;
  }

  /** The examples in the comment of the minimality check, and their neighbours. */
  lemma DocumentedNumbers()
    ensures Encoding(0) == [] && Encoding(1) == [0x01] && Encoding(-1) == [0x81] && Encoding(127) == [0x7f]
    ensures Encoding(255) == [0xff, 0x00] && Encoding(-255) == [0xff, 0x80] && Encoding(256) == [0x00, 0x01]
  {
    assert Magnitude(1) == [1] && Magnitude(127) == [127] && Magnitude(255) == [255];
    assert Magnitude(256) == [0, 1];
  }

  // ----- The loops -----

  lemma MagnitudeStep(a: nat)
    ensures Magnitude(a) == if a == 0 then [] else [a % 256] + Magnitude(a / 256)
  {
  }

  method Serialize(value: int) returns (result: seq<Byte>)
    requires -INT64_BOUND < value < INT64_BOUND
    ensures result == Encoding(value)
  {
    hide Magnitude, Limbs.BitOr;
    if value == 0 { return []; }
    result := [];
    var neg := value < 0;
    var absvalue: nat := if neg then -value else value;
    ghost var a := absvalue;
    MagnitudeNonEmpty(a);
    while absvalue != 0
      invariant result + Magnitude(absvalue) == Magnitude(a)
    {
      var low: Byte := absvalue % 256;
      MagnitudeStep(absvalue);
      assert result + ([low] + Magnitude(absvalue / 256)) == result + [low] + Magnitude(absvalue / 256);
      result := result + [low];
      absvalue := absvalue / 256;
    }
    MagnitudeStep(0);
    assert result == Magnitude(a);
    if result[|result| - 1] >= 0x80 {
      result := result + [if neg then 0x80 else 0];
    } else if neg {
      SignBit(result[|result| - 1]);
      result := result[|result| - 1 := Limbs.BitOr(0x80, result[|result| - 1])];
    }
  }

  lemma SignBit(x: Byte)
    requires x < 0x80
    ensures Limbs.BitOr(0x80, x) == x + 0x80
  {
    hide Limbs.BitOr;
    assert Pow(2, 7) == 0x80;
    Limbs.OrIsSum(1, x, 7);
  }

  /** A byte shifted above the bytes before it lands on clear bits. */
  lemma {:induction false} NextByte(m: seq<Byte>, x: Byte)
    ensures Limbs.BitOr(x * Pow(256, |m|), FromLE(m)) == FromLE(m + [x])
  {
    hide FromLE, Pow, Limbs.BitOr;
    BytePow(|m|);
    LEOfFromLE(m);
    Limbs.OrIsSum(x, FromLE(m), 8 * |m|);
    FromLEAppend(m, x);
    assert x * Pow(256, |m|) == Pow(256, |m|) * x;
  }

  /** x & ~(1 << b) */
  function ClearBit(x: nat, b: nat): int { if Bit(x, b) then x - Pow(2, b) else x }

  /** None: a shift by 64 bits or more, which the language does not define. The accumulated word is a bit pattern. */
  method SetVch(vch: seq<Byte>) returns (r: Option<int>)
    ensures r == if |vch| > 8 then None else Some(Value(vch))
  {
    hide FromLE, Pow, Limbs.BitOr, ClearBit;
    if vch == [] { return Some(0); }
    if |vch| > 8 { return None; }
    var result: nat, shift: nat := 0, 1;
    NoBytes();
    for i := 0 to |vch|
      invariant shift == Pow(256, i) && result == FromLE(vch[..i])
    {
      NextByte(vch[..i], vch[i]);
      assert vch[..i + 1] == vch[..i] + [vch[i]];
      PowStep(i);
      result := Limbs.BitOr(vch[i] * shift, result);
      shift := shift * 256;
    }
    assert vch[..|vch|] == vch;
    if Last(vch) >= 0x80 {
      var k := |vch| - 1;
      ClearSign(vch[..k], Last(vch));
      assert vch == vch[..k] + [Last(vch)];
      r := Some(-ClearBit(result, 8 * k + 7));
    } else {
      r := Some(result);
    }
  }

  lemma NoBytes()
    ensures Pow(256, 0) == 1 && FromLE([]) == 0
  {
  }

  lemma PowStep(i: nat)
    ensures Pow(256, i + 1) == 256 * Pow(256, i)
  {
  }

  lemma {:induction false} ClearSign(m: seq<Byte>, x: Byte)
    requires x >= 0x80
    ensures ClearBit(FromLE(m + [x]), 8 * |m| + 7) == FromLE(m + [x - 0x80])
  {
    hide FromLE, Pow, Bit;
    var p := Pow(256, |m|);
    FromLEAppend(m, x);
    FromLEAppend(m, x - 0x80);
    assert p * x == p * (x - 0x80) + 0x80 * p;
    MulLe(0x80, x, p);
    TopBitWeight(|m|);
    LEOfFromLE(m + [x]);
    HighBit(FromLE(m + [x]), 8 * |m| + 7);
  }

  lemma TopBitWeight(k: nat)
    ensures Pow(2, 8 * k + 7) == 0x80 * Pow(256, k) && Pow(2, 8 * k + 8) == Pow(256, k + 1)
  {
    hide Pow;
    BytePow(k);
    BytePow(k + 1);
    PowAdd(2, 7, 8 * k);
    SevenBits();
  }

  lemma SevenBits()
    ensures Pow(2, 7) == 0x80
  {
  }

  datatype Decoded = Number(n: int) | Error | Undefined

  /** The constructor from bytes: Error is the scriptnum_error. */
  method FromVch(vch: seq<Byte>, fRequireMinimal: bool, nMaxNumSize: nat) returns (r: Decoded)
    ensures r.Error? <==> |vch| > nMaxNumSize || (fRequireMinimal && !Minimal(vch))
    ensures r.Undefined? <==> !r.Error? && |vch| > 8
    ensures r.Number? ==> r.n == Value(vch)
  {
    hide Value;
    if |vch| > nMaxNumSize { return Error; }
    if fRequireMinimal && |vch| > 0 {
      if vch[|vch| - 1] % 128 == 0 {
        if |vch| <= 1 || vch[|vch| - 2] < 0x80 { return Error; }
      }
    }
    var v := SetVch(vch);
    r := if v.Some? then Number(v.value) else Undefined;
  }
}
