/** operator/= of base_uint<256>: shift-and-subtract long division is the floor quotient. */
module Division256 {
  import opened Powers
  import opened Limbs
  import opened Arith256
  import opened Shifts256

  lemma LimbOfMultiple(low: nat, w: nat, hi: nat, p: nat, t: nat, r: nat, r': nat) returns (u: nat)
    requires low < p && BASE == r' * r && low + w * p + hi * (BASE * p) == t * (r * p)
    ensures w == u * r
  {
    var d := t * r - w - hi * BASE;
    assert d * p == t * (r * p) - w * p - hi * (BASE * p);
    if d >= 1 { MulLe(1, d, p); }
    if d <= -1 { MulLe(d, -1, p); }
    assert hi * BASE == hi * r' * r;
    assert w == (t - hi * r') * r;
    if t - hi * r' < 0 { MulLe(t - hi * r', -1, r); }
    u := t - hi * r';
  }

  /** Setting bit sh of a multiple of 2^(sh+1) adds 2^sh. */
  lemma {:induction false} SetBitValue(s: seq<Word>, sh: nat, t: nat)
    requires |s| == WIDTH && sh < 32 * WIDTH && Value(s) == t * Pow(2, sh + 1)
    ensures BitOr(s[sh / 32], Pow(2, sh % 32)) == s[sh / 32] + Pow(2, sh % 32) < BASE
    ensures Value(s[sh / 32 := s[sh / 32] + Pow(2, sh % 32)]) == Value(s) + Pow(2, sh)
  {
    hide Value, Pow, BitOr;
    var k, b := sh / 32, sh % 32;
    ValueSplit(s, k + 1);
    ValuePrefix(s, k);
    ValueBound(s[..k]);
    PowNext(k);
    BasePow(k);
    PowAdd(2, b + 1, 32 * k);
    PowAdd(2, b, 32 * k);
    PowerOf32();
    PowerSplit(b + 1, 32);
    var u := LimbOfMultiple(Value(s[..k]), s[k], Value(s[k + 1..]), Pow(BASE, k), t, Pow(2, b + 1), Pow(2, 32 - (b + 1)));
    TwoPow(b);
    OrIsSum(u, Pow(2, b), b + 1);
    RoomForBit(u, Pow(2, b), Pow(2, b + 1), Pow(2, 32 - (b + 1)));
    ValueUpdate(s, k, s[k] + Pow(2, b));
    assert (s[k] + Pow(2, b)) * Pow(BASE, k) == s[k] * Pow(BASE, k) + Pow(2, b) * Pow(BASE, k);
  }

  lemma TwoPow(b: nat)
    ensures Pow(2, b + 1) == 2 * Pow(2, b) && Pow(2, b) > 0
  {
  }

  lemma RoomForBit(u: nat, p: nat, r: nat, r': nat)
    requires p < r && r' * r == BASE && u * r < BASE
    ensures u * r + p < BASE
  {
    if u >= r' { MulLe(r', u, r); }
    MulLe(u + 1, r', r);
    assert (u + 1) * r == u * r + r;
  }

  ghost predicate Times(q: nat, t: nat, m: nat) {
    q == t * m
  }

  ghost predicate IsMultiple(q: nat, m: nat) {
    exists t: nat :: Times(q, t, m)
  }

  /** The division before bit e - 1 of the quotient is decided. */
  ghost predicate DivInv(q: nat, num: nat, n: nat, d: nat, e: nat) {
    n == num + q * d && num < d * Pow(2, e) && IsMultiple(q, Pow(2, e))
  }

  lemma {:induction false} DivStep(q: nat, num: nat, n: nat, d: nat, e: nat)
    requires DivInv(q, num, n, d, e + 1)
    ensures num >= d * Pow(2, e) ==> DivInv(q + Pow(2, e), num - d * Pow(2, e), n, d, e)
    ensures num < d * Pow(2, e) ==> DivInv(q, num, n, d, e)
  {
    TwoPow(e);
    hide Pow;
    var p := Pow(2, e);
    var t: nat :| Times(q, t, Pow(2, e + 1));
    assert t * (2 * p) == (2 * t) * p && (2 * t + 1) * p == (2 * t) * p + p;
    assert d * (2 * p) == d * p + d * p;
    assert (q + p) * d == q * d + d * p;
    assert Times(q, 2 * t, p) && Times(q + p, 2 * t + 1, p);
  }

  lemma {:induction false} DivEnd(q: nat, num: nat, n: nat, d: nat)
    requires DivInv(q, num, n, d, 0)
    ensures d > 0 && q == n / d && num == n % d
  {
    assert d * 1 == d;
    Euclid(n, d, q, num);
  }

  /** The aligned divisor covers the numerator. */
  lemma {:induction false} DivStart(n: nat, d: nat, nBits: nat, dBits: nat)
    requires IsBitLength(n, nBits) && IsBitLength(d, dBits) && 0 < dBits <= nBits <= 32 * WIDTH
    ensures DivInv(0, n, n, d, nBits - dBits + 1)
    ensures Wrap256(d * Pow(2, nBits - dBits)) == d * Pow(2, nBits - dBits)
  {
    var shift := nBits - dBits;
    hide Pow;
    PowAdd(2, dBits - 1, shift + 1);
    PowAdd(2, dBits, shift);
    MulLe(Pow(2, dBits - 1), d, Pow(2, shift + 1));
    MulLe(d + 1, Pow(2, dBits), Pow(2, shift));
    assert (d + 1) * Pow(2, shift) == d * Pow(2, shift) + Pow(2, shift);
    BasePow(WIDTH);
    PowerSplit(nBits, 32 * WIDTH);
    assert Times(0, 0, Pow(2, shift + 1));
    Euclid(d * Pow(2, shift), TWO256, 0, d * Pow(2, shift));
  }

  lemma {:induction false} SmallerHasFewerBits(n: nat, d: nat, nBits: nat, dBits: nat)
    requires IsBitLength(n, nBits) && IsBitLength(d, dBits) && dBits > nBits
    ensures 0 == n / d
  {
    hide Pow;
    PowZero();
    if n > 0 { PowerSplit(nBits, dBits - 1); }
    Euclid(n, d, 0, n);
  }

  /** pn[shift / 32] |= 1 << (shift & 31) */
  method SetBit(pn: array<Word>, shift: nat)
    requires pn.Length == WIDTH && shift < 32 * WIDTH && IsMultiple(Value(pn[..]), Pow(2, shift + 1))
    modifies pn
    ensures Value(pn[..]) == old(Value(pn[..])) + Pow(2, shift)
  {
    hide Value, Pow, BitOr;
    ghost var t: nat :| Times(Value(pn[..]), t, Pow(2, shift + 1));
    SetBitValue(pn[..], shift, t);
    ghost var cur := pn[..];
    var w: Word := BitOr(pn[shift / 32], Pow(2, shift % 32));
    pn[shift / 32] := w;
    assert pn[..] == cur[shift / 32 := w];
  }

  /** operator/=: x /= x included; a zero divisor throws, after *this was zeroed. */
  method DivAssign(pn: array<Word>, b: array<Word>) returns (ok: bool)
    requires pn.Length == WIDTH && b.Length == WIDTH
    modifies pn
    ensures ok <==> old(Value(b[..])) != 0
    ensures !ok ==> Value(pn[..]) == 0
    ensures ok ==> Value(pn[..]) == old(Value(pn[..])) / old(Value(b[..]))
  {
    hide Value, Pow, Wrap256, DivInv, IsBitLength;
    ghost var n, d := Value(pn[..]), Value(b[..]);
    var div := Copy(b);
    var num := Copy(pn);
    SetZero(pn);
    var numBits := Bits(num);
    var divBits := Bits(div);
    ZeroBits(d, divBits);
    if divBits == 0 {
      return false;
    }
    if divBits > numBits {
      SmallerHasFewerBits(n, d, numBits, divBits);
      return true;
    }
    var shift := numBits - divBits;
    DivStart(n, d, numBits, divBits);
    ShiftLeft(div, shift);
    while shift >= 0
      invariant -1 <= shift < 32 * WIDTH
      invariant DivInv(Value(pn[..]), Value(num[..]), n, d, shift + 1)
      invariant shift >= 0 ==> Value(div[..]) == d * Pow(2, shift)
    {
      DivStep(Value(pn[..]), Value(num[..]), n, d, shift);
      var c := CompareTo(num, div);
      if c >= 0 {
        SubAssign(num, div);
        QuotientIsMultiple(Value(pn[..]), Value(num[..]) + d * Pow(2, shift), n, d, shift + 1);
        SetBit(pn, shift);
      }
      ShiftRight(div, 1);
      HalveShifted(d, shift);
      shift := shift - 1;
    }
    DivEnd(Value(pn[..]), Value(num[..]), n, d);
    return true;
  }

  lemma ZeroBits(n: nat, r: nat)
    requires IsBitLength(n, r)
    ensures n == 0 <==> r == 0
  {
  }

  lemma QuotientIsMultiple(q: nat, num: nat, n: nat, d: nat, e: nat)
    requires DivInv(q, num, n, d, e)
    ensures IsMultiple(q, Pow(2, e))
  {
  }

  lemma HalveShifted(d: nat, shift: nat)
    ensures shift > 0 ==> (d * Pow(2, shift)) / Pow(2, 1) == d * Pow(2, shift - 1)
  {
    PowZero();
    if shift > 0 {
      TwoPow(shift - 1);
      assert d * (2 * Pow(2, shift - 1)) == 2 * (d * Pow(2, shift - 1));
    }
  }
}
