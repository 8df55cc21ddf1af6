/** The compact target format of arith_uint256: 8 bits of exponent, a sign bit, 23 bits of mantissa. */
module Compact {
  import opened Powers
  import opened Limbs
  import opened Arith256
  import opened Shifts256

  const SIGN: nat := 0x80_0000
  const EXPONENT: nat := 0x100_0000

  // ----- The format -----

  /** Number of bytes of x. */
  function Bytes(x: nat): nat {
    if x == 0 then 0 else 1 + Bytes(x / 256)
  }

  /** x shifted by k bytes. */
  function Up(x: nat, k: nat): nat { x * Pow(256, k) }
  function Down(x: nat, k: nat): nat { x / Pow(256, k) }

  /** The three leading bytes of x, shifted up when there are fewer. */
  function Leading(x: nat): nat {
    if Bytes(x) <= 3 then Up(x, 3 - Bytes(x)) else Down(x, Bytes(x) - 3)
  }

  /** One more exponent step keeps the mantissa clear of the sign bit. */
  function Mantissa(x: nat): nat {
    if Leading(x) >= SIGN then Leading(x) / 256 else Leading(x)
  }

  function Exponent(x: nat): nat {
    if Leading(x) >= SIGN then Bytes(x) + 1 else Bytes(x)
  }

  function Encode(x: nat): nat {
    Mantissa(x) + Exponent(x) * EXPONENT
  }

  /** The magnitude that a mantissa and an exponent denote, rounded down. */
  function Denoted(m: nat, e: nat): nat {
    if e <= 3 then Down(m, 3 - e) else Up(m, e - 3)
  }

  /** The documented number: mantissa times 256^(exponent - 3), rounded down. */
  lemma {:induction false} DenotedIs(m: nat, e: nat)
    ensures e >= 3 ==> Denoted(m, e) == m * Pow(256, e - 3)
    ensures e < 3 ==> Denoted(m, e) * Pow(256, 3 - e) <= m < (Denoted(m, e) + 1) * Pow(256, 3 - e)
  {
    Pow256();
    hide Pow;
    if e < 3 {
      var p, d := Pow(256, 3 - e), m / Pow(256, 3 - e);
      assert m == d * p + m % p;
      assert (d + 1) * p == d * p + p;
    }
  }

  lemma {:induction false} BytesBounds(x: nat)
    ensures x < Pow(256, Bytes(x)) && (x == 0 <==> Bytes(x) == 0)
    ensures x > 0 ==> Bytes(x) > 0 && Pow(256, Bytes(x) - 1) <= x
  {
    if x > 0 { BytesBounds(x / 256); }
  }

  lemma {:induction false} BytesUnique(x: nat, s: nat)
    requires x > 0 && s > 0 && Pow(256, s - 1) <= x < Pow(256, s)
    ensures Bytes(x) == s
  {
    BytesBounds(x);
    hide Pow;
    if s < Bytes(x) { PowMono(256, s, Bytes(x) - 1); }
    if Bytes(x) < s { PowMono(256, Bytes(x), s - 1); }
  }

  lemma {:induction false} BytesMono(x: nat, y: nat)
    requires x <= y
    ensures Bytes(x) <= Bytes(y)
  {
    if x > 0 { BytesMono(x / 256, y / 256); }
  }

  /** The leading bytes fill three bytes exactly, unless x is zero. */
  lemma {:induction false} LeadingBounds(x: nat)
    ensures Leading(x) < 0x100_0000 && (x > 0 ==> 0x1_0000 <= Leading(x))
  {
    hide Pow, Bytes;
    BytesBounds(x);
    Pow256();
    var s := Bytes(x);
    if 0 < s <= 3 {
      PowAdd(256, s, 3 - s);
      PowAdd(256, s - 1, 3 - s);
      ScaleBetween(x, Pow(256, s - 1), Pow(256, s), Pow(256, 3 - s));
    } else if s > 3 {
      PowAdd(256, 3, s - 3);
      PowAdd(256, 2, s - 3);
      DivBetween(x, Pow(256, 2), Pow(256, 3), Pow(256, s - 3));
    }
  }

  lemma ScaleBetween(x: nat, lo: nat, hi: nat, p: nat)
    requires p > 0 && lo <= x < hi
    ensures lo * p <= x * p < hi * p
  {
    MulLe(lo, x, p);
    MulLe(x + 1, hi, p);
    assert (x + 1) * p == x * p + p;
  }

  lemma DivBetween(x: nat, lo: nat, hi: nat, p: nat)
    requires p > 0 && lo * p <= x < hi * p
    ensures lo <= x / p < hi
  {
    var q := x / p;
    assert x == q * p + x % p;
    assert (q + 1) * p == q * p + p;
    if q < lo { MulLe(q + 1, lo, p); }
    if q >= hi { MulLe(hi, q, p); }
  }

  lemma Pow256()
    ensures Pow(256, 0) == 1 && Pow(256, 1) == 256 && Pow(256, 2) == 0x1_0000 && Pow(256, 3) == 0x100_0000
  {
  }

  /** The mantissa fits 23 bits and the exponent a byte: both assertions of GetCompact hold. */
  lemma {:induction false} EncodeFits(x: nat)
    requires x < TWO256
    ensures Mantissa(x) < SIGN && Exponent(x) <= 33 && (x > 0 ==> Mantissa(x) >= 0x8000)
  {
    hide Pow, Bytes, Leading;
    LeadingBounds(x);
    BytesBounds(x);
    BasePow(WIDTH);
    BytePow(32);
    if Bytes(x) > 32 { PowMono(256, 32, Bytes(x) - 1); }
  }

  // ----- Round trips -----

  lemma TwoDigits(c: nat, d: nat, b: nat, p: nat, q: nat)
    requires d < q && b < p
    ensures (c * q + d) * p + b == (d * p + b) + c * (p * q) && d * p + b < p * q
  {
    assert (c * q + d) * p == c * (p * q) + d * p;
    MulLe(d + 1, q, p);
    assert (d + 1) * p == d * p + p && q * p == p * q;
  }

  lemma DivMod(x: nat, p: nat)
    requires p > 0
    ensures x == (x / p) * p + x % p
  {
  }

  lemma DivDiv(x: nat, p: nat, q: nat, r: nat)
    requires p > 0 && q > 0 && r == p * q && r > 0
    ensures (x / p) / q == x / r
  {
    var a, b := x / p, x % p;
    var c, d := a / q, a % q;
    DivMod(x, p);
    DivMod(a, q);
    TwoDigits(c, d, b, p, q);
    Euclid(x, r, c, d * p + b);
  }

  lemma DivOfProduct(x: nat, p: nat)
    requires p > 0
    ensures (x * p) / p == x
  {
    Euclid(x * p, p, x, 0);
  }

  /** The mantissa is x scaled to the exponent, exactly or rounded down. */
  lemma {:induction false} MantissaIs(x: nat)
    ensures var e := Exponent(x);
            Mantissa(x) == if e <= 3 then x * Pow(256, 3 - e) else x / Pow(256, e - 3)
  {
    hide Pow, Bytes;
    Pow256();
    if Leading(x) >= SIGN {
      var s := Bytes(x);
      if s <= 2 {
        PowAdd(256, 2 - s, 1);
        assert x * Pow(256, 3 - s) == (x * Pow(256, 2 - s)) * 256;
        DivOfProduct(x * Pow(256, 2 - s), 256);
      } else if s > 3 {
        PowAdd(256, s - 3, 1);
        DivDiv(x, Pow(256, s - 3), 256, Pow(256, s - 2));
      }
    }
  }

  /** x without the bytes that its compact form drops. */
  function RoundDown(x: nat): nat {
    if Exponent(x) <= 3 then x else x - x % Pow(256, Exponent(x) - 3)
  }

  /** Decoding an encoded target gives it rounded down to a multiple of 256^(exponent-3). */
  lemma {:induction false} DecodeEncode(x: nat)
    ensures Denoted(Mantissa(x), Exponent(x)) == RoundDown(x)
    ensures RoundDown(x) <= x
  {
    hide Pow, Mantissa, Exponent;
    MantissaIs(x);
    var e := Exponent(x);
    if e <= 3 {
      DivOfProduct(x, Pow(256, 3 - e));
    } else {
      var p := Pow(256, e - 3);
      assert x == (x / p) * p + x % p;
    }
  }

  /** A mantissa of 16 to 23 bits and an exponent above 3 are the encoding of all they cover. */
  lemma {:induction false} EncodingOf(x: nat, m: nat, e: nat)
    requires e > 3 && 0x8000 <= m < SIGN && m * Pow(256, e - 3) <= x < (m + 1) * Pow(256, e - 3)
    ensures Mantissa(x) == m && Exponent(x) == e
  {
    hide Pow, Bytes;
    Pow256();
    var p := Pow(256, e - 3);
    if m >= 0x1_0000 {
      PowAdd(256, 2, e - 3);
      PowAdd(256, 3, e - 3);
      MulLe(0x1_0000, m, p);
      MulLe(m + 1, 0x100_0000, p);
      BytesUnique(x, e);
      DivBetween(x, m, m + 1, p);
    } else {
      PowAdd(256, 1, e - 3);
      PowAdd(256, 2, e - 3);
      MulLe(0x8000, m, p);
      MulLe(m + 1, 0x1_0000, p);
      MulLe(0x100, 0x8000, p);
      BytesUnique(x, e - 1);
      LeadingIsWider(x, m, e);
    }
  }

  lemma {:induction false} LeadingIsWider(x: nat, m: nat, e: nat)
    requires e > 3 && 0x8000 <= m && Bytes(x) == e - 1 && m * Pow(256, e - 3) <= x < (m + 1) * Pow(256, e - 3)
    ensures Leading(x) >= SIGN && Leading(x) / 256 == m
  {
    hide Pow, Bytes;
    Pow256();
    PowAdd(256, 1, e - 4);
    var q := Pow(256, e - 4);
    assert m * (256 * q) == (m * 256) * q && (m + 1) * (256 * q) == (m * 256 + 256) * q;
    DivBetween(x, m * 256, m * 256 + 256, q);
  }

  /** Encoding is idempotent across the trip. */
  lemma {:induction false} EncodeDecodeEncode(x: nat)
    ensures Encode(RoundDown(x)) == Encode(x)
  {
    hide Pow, Bytes, Mantissa, Exponent;
    var m, e := Mantissa(x), Exponent(x);
    if e > 3 {
      var p := Pow(256, e - 3);
      DecodeEncode(x);
      MantissaRange(x);
      assert (m + 1) * p == m * p + p;
      EncodingOf(RoundDown(x), m, e);
    }
  }

  lemma {:induction false} MantissaRange(x: nat)
    ensures Mantissa(x) < SIGN && (x > 0 ==> Mantissa(x) >= 0x8000) && (x == 0 ==> Exponent(x) == 0)
  {
    hide Pow, Bytes, Leading;
    LeadingBounds(x);
    BytesBounds(x);
    if x == 0 { LeadingZero(); }
  }

  lemma LeadingZero()
    ensures Leading(0) == 0
  {
  }

  lemma {:induction false} LeadingMono(x: nat, y: nat)
    requires x <= y && Bytes(x) == Bytes(y)
    ensures Leading(x) <= Leading(y)
  {
    hide Pow, Bytes;
    var s := Bytes(x);
    if s <= 3 { MulLe(x, y, Pow(256, 3 - s)); } else { DivMono(x, y, Pow(256, s - 3)); }
  }

  lemma DivMono(x: nat, y: nat, p: nat)
    requires x <= y && p > 0
    ensures x / p <= y / p
  {
    var a, b := x / p, y / p;
    assert x == a * p + x % p && y == b * p + y % p;
    assert (b + 1) * p == b * p + p;
    if b < a { MulLe(b + 1, a, p); }
  }

  /** Larger targets have larger compact forms. */
  lemma {:induction false} EncodeMono(x: nat, y: nat)
    requires x <= y
    ensures Encode(x) <= Encode(y)
  {
    hide Pow, Bytes, Leading;
    BytesMono(x, y);
    LeadingBounds(x);
    LeadingBounds(y);
    BytesBounds(y);
    if Bytes(x) == Bytes(y) { LeadingMono(x, y); }
  }

  // ----- Negative and overflowing forms -----

  /** The mantissa of a compact form, the exponent and the sign bit. */
  function MantissaOf(c: nat): nat { c % SIGN }
  function ExponentOf(c: nat): nat { c / EXPONENT }
  predicate SignOf(c: nat) { (c / SIGN) % 2 == 1 }

  /** The fields of an encoded magnitude with a sign. */
  lemma FieldsOf(m: nat, e: nat, negative: bool)
    requires m < SIGN
    ensures var c := m + e * EXPONENT + if negative then SIGN else 0;
            MantissaOf(c) == m && ExponentOf(c) == e && SignOf(c) == negative
  {
    var c := m + e * EXPONENT + if negative then SIGN else 0;
    assert c == m + (2 * e + if negative then 1 else 0) * SIGN;
  }

  /** nWord and nSize as SetCompact sees them overflow exactly when the denoted number needs more than 256 bits. */
  predicate Overflows(word: nat, size: nat) {
    word != 0 && (size > 34 || (word > 0xff && size > 33) || (word > 0xffff && size > 32))
  }

  lemma {:induction false} OverflowExact(m: nat, e: nat)
    requires m < SIGN
    ensures Overflows(if e <= 3 then m / Pow(256, 3 - e) else m, e) <==> Denoted(m, e) >= TWO256
  {
    hide Pow;
    BasePow(WIDTH);
    BytePow(32);
    Pow256();
    if e <= 3 {
      PowMono(256, 3, 32);
      MulLe(1, Pow(256, 3 - e), m);
      DivLe(m, Pow(256, 3 - e));
    } else {
      var p := Pow(256, e - 3);
      if e <= 32 {
        PowAdd(256, 3, e - 3);
        PowMono(256, e, 32);
        MulLe(m + 1, 0x100_0000, p);
        assert (m + 1) * p == m * p + p;
      } else if e == 33 {
        PowAdd(256, 2, 30);
        Threshold(m, 0x1_0000, p);
      } else if e == 34 {
        PowAdd(256, 1, 31);
        Threshold(m, 0x100, p);
      } else {
        PowMono(256, 32, e - 3);
        if m > 0 { MulLe(1, m, p); }
      }
    }
  }

  lemma DivLe(m: nat, p: nat)
    requires p > 0
    ensures m / p <= m
  {
    assert m == (m / p) * p + m % p;
    MulLe(1, p, m / p);
    assert p * (m / p) == (m / p) * p;
  }

  lemma Threshold(m: nat, t: nat, p: nat)
    requires p > 0
    ensures m * p >= t * p <==> m >= t
  {
    if m >= t { MulLe(t, m, p); } else { MulLe(m + 1, t, p); assert (m + 1) * p == m * p + p; }
  }

  // ----- SetCompact and GetCompact -----

  lemma {:induction false} BytesOfBits(x: nat, r: nat)
    requires IsBitLength(x, r)
    ensures Bytes(x) == (r + 7) / 8
  {
    hide Pow, Bytes;
    if x == 0 {
      BytesBounds(0);
    } else {
      var s := (r + 7) / 8;
      BytePow(s);
      BytePow(s - 1);
      PowMono(2, 8 * (s - 1), r - 1);
      PowMono(2, r, 8 * s);
      BytesUnique(x, s);
    }
  }

  lemma {:induction false} ShrHalf(x: nat, k: nat)
    requires k > 0
    ensures Shr(x, k) == Shr(x / 2, k - 1)
  {
    if k > 1 { ShrHalf(x, k - 1); }
  }

  /** or-ing in a clear bit adds it. */
  lemma {:induction false} OrSetsBit(x: nat, k: nat)
    requires !Bit(x, k)
    ensures BitOr(x, Pow(2, k)) == x + Pow(2, k)
  {
    if k > 0 && x > 0 {
      ShrHalf(x, k);
      OrSetsBit(x / 2, k - 1);
    }
  }

  lemma {:induction false} TwoLimbs(s: seq<Word>)
    requires |s| == WIDTH
    ensures s[0] + s[1] * BASE == Value(s) % (BASE * BASE)
  {
    ValueSplit(s, 2);
    ValuePrefix(s, 1);
    OneLimb(s[0]);
    assert s[..1] == [s[0]];
    hide Value;
    assert Pow(BASE, 1) == BASE && Pow(BASE, 2) == BASE * BASE;
    Euclid(Value(s), BASE * BASE, Value(s[2..]), s[0] + s[1] * BASE);
  }

  /** GetLow64 */
  method GetLow64(pn: array<Word>) returns (r: nat)
    requires pn.Length == WIDTH
    ensures r == Value(pn[..]) % (BASE * BASE)
  {
    hide Value;
    TwoLimbs(pn[..]);
    r := pn[0] + pn[1] * BASE;
  }

  lemma SmallMods(y: nat)
    requires y < BASE
    ensures y % (BASE * BASE) == y && y % BASE == y
  {
  }

  lemma {:induction false} FewBytes(x: nat, size: nat)
    requires size == Bytes(x) <= 3
    ensures x < BASE && Up(x, 3 - size) == Leading(x) < BASE
  {
    hide Pow, Bytes, Up;
    BytesBounds(x);
    Pow256();
    PowMono(256, size, 3);
    LeadingBounds(x);
  }

  lemma {:induction false} ManyBytes(x: nat, size: nat)
    requires size == Bytes(x) > 3
    ensures x / Pow(2, 8 * (size - 3)) == Leading(x) < BASE
  {
    hide Pow, Bytes;
    LeadingBounds(x);
    BytePow(size - 3);
  }

  /** The first 24 bits that GetCompact collects are the leading bytes. */
  method LeadingBytes(pn: array<Word>, size: nat) returns (r: nat)
    requires pn.Length == WIDTH && size == Bytes(Value(pn[..]))
    ensures r == Leading(Value(pn[..]))
  {
    hide Value, Pow, Bytes, Leading, Up;
    ghost var x := Value(pn[..]);
    if size <= 3 {
      FewBytes(x, size);
      var low := GetLow64(pn);
      SmallMods(x);
      SmallMods(Leading(x));
      r := Up(low, 3 - size) % BASE;
    } else {
      ManyBytes(x, size);
      var bn := Copy(pn);
      ShiftRight(bn, 8 * (size - 3));
      var low := GetLow64(bn);
      SmallMods(Leading(x));
      r := low % BASE;
    }
  }

  /** GetCompact; its two assertions are proved. */
  method GetCompact(pn: array<Word>, negative: bool) returns (c: nat)
    requires pn.Length == WIDTH
    ensures c == Encode(Value(pn[..])) + if negative && Value(pn[..]) != 0 then SIGN else 0
  {
    hide Value, Pow, Bytes, Leading, Bit, BitOr;
    ghost var x := Value(pn[..]);
    ValueBound(pn[..]);
    EncodeFits(x);
    LeadingBounds(x);
    if x == 0 { LeadingZero(); }
    Pow2Of23();
    var bits := Bits(pn);
    BytesOfBits(x, bits);
    var size := (bits + 7) / 8;
    c := LeadingBytes(pn, size);
    HighBit(c, 23);
    if Bit(c, 23) {
      c := c / 256;
      size := size + 1;
    }
    assert c == Mantissa(x) && size == Exponent(x);
    assert c < SIGN && size < 256;
    OrIsSum(size, c, 24);
    OrComm(c, size * EXPONENT);
    c := BitOr(c, size * EXPONENT);
    if negative && c % SIGN != 0 {
      MiddleBitClear(Mantissa(x), size);
      OrSetsBit(c, 23);
      c := BitOr(c, SIGN);
    }
  }

  lemma Pow2Of23()
    ensures Pow(2, 23) == SIGN && Pow(2, 24) == EXPONENT
  {
    assert Pow(2, 8) == 256;
    assert Pow(2, 16) == 0x1_0000;
  }

  lemma {:induction false} MiddleBitClear(m: nat, e: nat)
    requires m < SIGN
    ensures !Bit(m + e * EXPONENT, 23)
  {
    var c := m + e * EXPONENT;
    ShrBounds(c, 23);
    Pow2Of23();
    hide Pow, Shr;
    assert c == m + (2 * e) * SIGN;
    var q := Shr(c, 23);
    assert q * SIGN <= c < q * SIGN + SIGN;
  }

  /** *this = v, for a 64-bit v. */
  method Assign64(pn: array<Word>, v: nat)
    requires pn.Length == WIDTH && v < BASE * BASE
    modifies pn
    ensures Value(pn[..]) == v
  {
    hide Value, Pow;
    pn[0], pn[1] := v % BASE, v / BASE;
    for i := 2 to WIDTH
      invariant pn[0] == v % BASE && pn[1] == v / BASE && forall j :: 2 <= j < i ==> pn[j] == 0
    {
      pn[i] := 0;
    }
    TwoLimbValue(pn[..]);
  }

  lemma {:induction false} TwoLimbValue(s: seq<Word>)
    requires |s| == WIDTH && forall j :: 2 <= j < WIDTH ==> s[j] == 0
    ensures Value(s) == s[0] + s[1] * BASE
  {
    ValueSplit(s, 2);
    ValuePrefix(s, 1);
    OneLimb(s[0]);
    assert s[..1] == [s[0]];
    ZeroValue(s[2..]);
    hide Value;
    assert Pow(BASE, 1) == BASE;
  }

  /** SetCompact: the value modulo 2^256, and flags that are exact. */
  method SetCompact(pn: array<Word>, c: nat) returns (negative: bool, overflow: bool)
    requires pn.Length == WIDTH && c < BASE
    modifies pn
    ensures var n := Denoted(MantissaOf(c), ExponentOf(c));
            && Value(pn[..]) == Wrap256(n)
            && (negative <==> SignOf(c) && n != 0)
            && (overflow <==> n >= TWO256)
  {
    hide Value, Pow, Wrap256;
    var size := c / EXPONENT;
    var word := c % SIGN;
    OverflowExact(word, size);
    DenotedSmall(word, size);
    if size <= 3 {
      word := Down(word, 3 - size);
      Assign64(pn, word);
    } else {
      Assign64(pn, word);
      ShiftLeft(pn, 8 * (size - 3));
      BytePow(size - 3);
    }
    negative := word != 0 && (c / SIGN) % 2 == 1;
    overflow := word != 0 && (size > 34 || (word > 0xff && size > 33) || (word > 0xffff && size > 32));
  }

  lemma {:induction false} DenotedSmall(m: nat, e: nat)
    requires m < SIGN
    ensures e <= 3 ==> Down(m, 3 - e) <= m && Wrap256(Denoted(m, e)) == Denoted(m, e)
    ensures e > 3 ==> (Denoted(m, e) != 0 <==> m != 0)
  {
    hide Pow;
    if e <= 3 {
      DivLe(m, Pow(256, 3 - e));
      BasePow(WIDTH);
      BytePow(32);
      PowMono(256, 3, 32);
      Pow256();
      Euclid(Denoted(m, e), TWO256, 0, Denoted(m, e));
    } else {
      if m > 0 { MulLe(1, m, Pow(256, e - 3)); }
    }
  }

  /** An encoded target decodes without negative or overflow flag, to the target rounded down. */
  lemma {:induction false} EncodedFields(x: nat)
    requires x < TWO256
    ensures var c := Encode(x);
            && c < BASE && !SignOf(c) && Denoted(MantissaOf(c), ExponentOf(c)) == RoundDown(x) < TWO256
            && Wrap256(RoundDown(x)) == RoundDown(x)
  {
    hide Pow, Mantissa, Exponent;
    EncodeFits(x);
    FieldsOf(Mantissa(x), Exponent(x), false);
    DecodeEncode(x);
    Euclid(RoundDown(x), TWO256, 0, RoundDown(x));
  }

  /** The two examples of the format's description. */
  lemma DocumentedTargets()
    ensures Encode(0x12_3456_0000) == 0x0512_3456 && Encode(0xc0_de00_0000) == 0x0600_c0de
    ensures Denoted(MantissaOf(0x0512_3456), ExponentOf(0x0512_3456)) == 0x12_3456_0000
    ensures Denoted(MantissaOf(0x0600_c0de), ExponentOf(0x0600_c0de)) == 0xc0_de00_0000
  {
    Pow256();
    hide Pow;
    assert Bytes(0x12) == 1;
    assert Bytes(0x12_3456) == 3;
    assert Bytes(0x12_3456_0000) == 5;
    assert Bytes(0xc0) == 1;
    assert Bytes(0xc0_de00) == 3;
    assert Bytes(0xc0_de00_0000) == 5;
  }
}
