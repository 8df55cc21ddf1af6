/** base_uint<256> of primitives/arith_uint256: the object is its array of eight 32-bit limbs,
    operands may alias, and every operator is proved against the integers. */
module Arith256 {
  import opened Powers
  import opened Limbs

  /** Reading a prefix of an updated limb sequence. */
  lemma {:induction false} PrefixOfUpdate(s: seq<Word>, i: nat, w: Word)
    requires i < |s|
    ensures Value(s[i := w][..i + 1]) == Value(s[..i]) + w * Pow(BASE, i)
  {
    hide Pow;
    assert s[i := w][..i] == s[..i];
    ValuePrefix(s[i := w], i);
  }

  lemma AddCarry(x: int, y: int, z: int, carry: nat, a: nat, b: nat, n: nat, p: nat)
    requires x + carry * p == y + z && n == carry + a + b
    ensures x + (n % BASE) * p + (n / BASE) * (BASE * p) == y + a * p + (z + b * p)
  {
    assert n == n / BASE * BASE + n % BASE;
    assert n * p == (n / BASE) * (BASE * p) + (n % BASE) * p;
    assert n * p == carry * p + a * p + b * p;
  }

  lemma {:induction false} AddStep(s: seq<Word>, was: seq<Word>, bs: seq<Word>, i: nat, carry: nat, n: nat)
    requires i < |s| == |was| == |bs| && n == carry + was[i] + bs[i]
    requires Value(s[..i]) + carry * Pow(BASE, i) == Value(was[..i]) + Value(bs[..i])
    ensures Value(s[i := n % BASE][..i + 1]) + (n / BASE) * Pow(BASE, i + 1) == Value(was[..i + 1]) + Value(bs[..i + 1])
  {
    PrefixOfUpdate(s, i, n % BASE);
    ValuePrefix(was, i);
    ValuePrefix(bs, i);
    AddCarry(Value(s[..i]), Value(was[..i]), Value(bs[..i]), carry, was[i], bs[i], n, Pow(BASE, i));
  }

  /** A value with its carry out is the sum modulo 2^256. */
  lemma {:induction false} DropCarry(r: seq<Word>, carry: nat, total: nat)
    requires |r| == WIDTH && Value(r) + carry * TWO256 == total
    ensures Value(r) == Wrap256(total)
  {
    hide Value, Pow;
    ValueBound(r);
    Euclid(total, TWO256, carry, Value(r));
  }

  /** operator+=, also for x += x. */
  method AddAssign(pn: array<Word>, b: array<Word>)
    requires pn.Length == WIDTH && b.Length == WIDTH
    modifies pn
    ensures Value(pn[..]) == Wrap256(old(Value(pn[..])) + old(Value(b[..])))
  {
    hide Value, Pow, Wrap256;
    ghost var was, bs := pn[..], b[..];
    var carry: nat := 0;
    assert was[..0] == bs[..0] == [];
    ZeroValue([]);
    for i := 0 to WIDTH
      invariant carry <= 1
      invariant pn[i..] == was[i..] && b[i..] == bs[i..]
      invariant Value(pn[..i]) + carry * Pow(BASE, i) == Value(was[..i]) + Value(bs[..i])
    {
      assert pn[i] == was[i..][0] && b[i] == bs[i..][0];
      var n: nat := carry + pn[i] + b[i];
      AddStep(pn[..], was, bs, i, carry, n);
      ghost var cur := pn[..];
      var low: Word := n % BASE;
      pn[i] := low;
      assert pn[..] == cur[i := low];
      carry := n / BASE;
    }
    assert pn[..WIDTH] == pn[..] && was[..WIDTH] == was && bs[..WIDTH] == bs;
    DropCarry(pn[..], carry, Value(was) + Value(bs));
  }

  // ----- Negation and subtraction -----

  /** All limbs below i wrapped around: one was added to B^i - 1. */
  ghost predicate Carried(s: seq<Word>, was: seq<Word>, i: nat) {
    i < |s| == |was| && Value(s[..i]) == 0 && Value(was[..i]) + 1 == Pow(BASE, i)
    && s[i] == (was[i] + 1) % BASE && s[i + 1..] == was[i + 1..]
  }

  lemma {:induction false} CarriedStep(s: seq<Word>, was: seq<Word>, i: nat)
    requires Carried(s, was, i) && s[i] == 0 && i + 1 < |s|
    ensures Carried(s[i + 1 := (was[i + 1] + 1) % BASE], was, i + 1)
  {
    var t := s[i + 1 := (was[i + 1] + 1) % BASE];
    assert t[..i + 1] == s[..i + 1] && t[i + 2..] == s[i + 1..][1..] && was[i + 2..] == was[i + 1..][1..];
    ValuePrefix(s, i);
    ValuePrefix(was, i);
  }

  lemma {:induction false} CarriedEnd(s: seq<Word>, was: seq<Word>, i: nat)
    requires Carried(s, was, i) && |s| == WIDTH && (s[i] != 0 || i == WIDTH - 1)
    ensures Value(s) == Wrap256(Value(was) + 1)
  {
    hide Pow;
    ValuePrefix(s, i);
    ValuePrefix(was, i);
    ValueSplit(s, i + 1);
    ValueSplit(was, i + 1);
    if s[i] != 0 {
      assert s[i] == was[i] + 1;
      assert (was[i] + 1) * Pow(BASE, i) == was[i] * Pow(BASE, i) + Pow(BASE, i);
      DropCarry(s, 0, Value(was) + 1);
    } else {
      assert s[i + 1..] == [] && was[i + 1..] == [];
      ZeroValue([]);
      PowNext(i);
      assert (was[i] + 1) * Pow(BASE, i) == was[i] * Pow(BASE, i) + Pow(BASE, i);
      DropCarry(s, 1, Value(was) + 1);
    }
  }

  lemma PowNext(i: nat)
    ensures Pow(BASE, i + 1) == BASE * Pow(BASE, i)
  {
  }

  /** operator++ */
  method Increment(pn: array<Word>)
    requires pn.Length == WIDTH
    modifies pn
    ensures Value(pn[..]) == Wrap256(old(Value(pn[..])) + 1)
  {
    ghost var was := pn[..];
    var i := 0;
    pn[0] := (pn[0] + 1) % BASE;
    assert Carried(pn[..], was, 0);
    hide Carried, Value, Pow;
    while pn[i] == 0 && i < WIDTH - 1
      invariant 0 <= i < WIDTH && Carried(pn[..], was, i)
    {
      CarriedStep(pn[..], was, i);
      UntouchedAbove(pn[..], was, i);
      ghost var cur := pn[..];
      i := i + 1;
      var next: Word := (pn[i] + 1) % BASE;
      pn[i] := next;
      assert pn[..] == cur[i := next];
    }
    CarriedEnd(pn[..], was, i);
  }

  lemma UntouchedAbove(s: seq<Word>, was: seq<Word>, i: nat)
    requires Carried(s, was, i) && i + 1 < |s|
    ensures s[i + 1] == was[i + 1]
  {
    assert s[i + 1] == s[i + 1..][0];
  }

  lemma {:induction false} Complement(s: seq<Word>, t: seq<Word>)
    requires |s| == |t| && forall i :: 0 <= i < |s| ==> t[i] == BASE - 1 - s[i]
    ensures Value(s) + Value(t) + 1 == Pow(BASE, |s|)
  {
    if s != [] {
      var n := |s| - 1;
      Complement(s[..n], t[..n]);
      assert (s[n] + t[n]) * Pow(BASE, n) == s[n] * Pow(BASE, n) + t[n] * Pow(BASE, n);
    }
  }

  /** operator-: two's complement. */
  method Negate(b: array<Word>) returns (ret: array<Word>)
    requires b.Length == WIDTH
    ensures fresh(ret) && ret.Length == WIDTH
    ensures Value(b[..]) < TWO256 && Value(ret[..]) == Wrap256(TWO256 - Value(b[..]))
  {
    hide Value, Pow, Wrap256;
    ret := new Word[WIDTH](_ => 0);
    for i := 0 to WIDTH
      invariant forall j :: 0 <= j < i ==> ret[j] == BASE - 1 - b[j]
    {
      ret[i] := BASE - 1 - b[i];
    }
    Complement(b[..], ret[..]);
    ValueBound(b[..]);
    Increment(ret);
  }

  /** operator-=: subtraction modulo 2^256. */
  method SubAssign(pn: array<Word>, b: array<Word>)
    requires pn.Length == WIDTH && b.Length == WIDTH
    modifies pn
    ensures var x, y := old(Value(pn[..])), old(Value(b[..]));
            Value(pn[..]) == if x >= y then x - y else x + TWO256 - y
  {
    hide Value, Pow, Wrap256;
    ghost var x, y := Value(pn[..]), Value(b[..]);
    ValueBound(pn[..]);
    ValueBound(b[..]);
    var neg := Negate(b);
    AddAssign(pn, neg);
    SubtractMod(x, y);
  }

  lemma SubtractMod(x: nat, y: nat)
    requires x < TWO256 && y < TWO256
    ensures Wrap256(x + Wrap256(TWO256 - y)) == if x >= y then x - y else x + TWO256 - y
  {
    hide Pow;
    var m := TWO256;
    if y == 0 {
      Euclid(m, m, 1, 0);
      Euclid(x, m, 0, x);
    } else {
      Euclid(m - y, m, 0, m - y);
      if x >= y {
        Euclid(x + m - y, m, 1, x - y);
      } else {
        Euclid(x + m - y, m, 0, x + m - y);
      }
    }
  }

  // ----- Comparison -----

  lemma {:induction false} LessAt(s: seq<Word>, t: seq<Word>, i: nat)
    requires i < |s| == |t| && s[i] < t[i] && s[i + 1..] == t[i + 1..]
    ensures Value(s) < Value(t)
  {
    hide Pow;
    ValueSplit(s, i + 1);
    ValueSplit(t, i + 1);
    ValuePrefix(s, i);
    ValuePrefix(t, i);
    ValueBound(s[..i]);
    TopDecides(s[i], t[i], Value(s[..i]), Value(t[..i]), Pow(BASE, i));
  }

  lemma TopDecides(a: nat, b: nat, x: nat, y: nat, p: nat)
    requires a < b && x < p
    ensures x + a * p < y + b * p
  {
    MulLe(a + 1, b, p);
    assert (a + 1) * p == a * p + p;
  }

  /** CompareTo */
  method CompareTo(pn: array<Word>, b: array<Word>) returns (r: int)
    requires pn.Length == WIDTH && b.Length == WIDTH
    ensures r == if Value(pn[..]) < Value(b[..]) then -1 else if Value(pn[..]) > Value(b[..]) then 1 else 0
  {
    hide Value, Pow, Wrap256;
    var i := WIDTH - 1;
    while i >= 0
      invariant -1 <= i < WIDTH && pn[i + 1..] == b[i + 1..]
    {
      if pn[i] < b[i] {
        LessAt(pn[..], b[..], i);
        return -1;
      }
      if pn[i] > b[i] {
        LessAt(b[..], pn[..], i);
        return 1;
      }
      i := i - 1;
    }
    assert pn[..] == b[..];
    return 0;
  }

  // ----- bits -----

  lemma {:induction false} BasePow(k: nat)
    ensures Pow(BASE, k) == Pow(2, 32 * k)
  {
    if k > 0 {
      BasePow(k - 1);
      PowAdd(2, 32, 32 * (k - 1));
      PowerOf32();
    }
  }

  /** n needs exactly r bits. */
  ghost predicate IsBitLength(n: nat, r: nat) {
    if n == 0 then r == 0 else r > 0 && Pow(2, r - 1) <= n < Pow(2, r)
  }

  /** The highest non-zero limb decides the bit length. */
  lemma {:induction false} TopLimb(s: seq<Word>, pos: nat, k: nat)
    requires pos < |s| && (forall j :: pos < j < |s| ==> s[j] == 0) && Pow(2, k) <= s[pos] < Pow(2, k + 1)
    ensures IsBitLength(Value(s), 32 * pos + k + 1)
  {
    hide Pow;
    ValueSplit(s, pos + 1);
    ZeroValue(s[pos + 1..]);
    ValuePrefix(s, pos);
    ValueBound(s[..pos]);
    BasePow(pos);
    PowAdd(2, k, 32 * pos);
    PowAdd(2, k + 1, 32 * pos);
    BetweenMultiples(Value(s[..pos]), s[pos], Pow(2, k), Pow(2, k + 1), Pow(2, 32 * pos));
  }

  lemma BetweenMultiples(v: nat, x: nat, lo: nat, hi: nat, p: nat)
    requires 0 < lo <= x < hi && v < p
    ensures 0 < lo * p <= v + x * p < hi * p
  {
    MulLe(1, lo, p);
    MulLe(lo, x, p);
    MulLe(x + 1, hi, p);
    assert (x + 1) * p == x * p + p;
  }

  /** bits() */
  method Bits(pn: array<Word>) returns (r: nat)
    requires pn.Length == WIDTH
    ensures IsBitLength(Value(pn[..]), r) && r <= 32 * WIDTH
  {
    hide Value, Pow, Bit;
    PowerOf32();
    var pos := WIDTH - 1;
    while pos >= 0
      invariant -1 <= pos < WIDTH && forall j :: pos < j < WIDTH ==> pn[j] == 0
    {
      if pn[pos] != 0 {
        var bit := 31;
        while bit > 0
          invariant 0 <= bit <= 31 && pn[pos] < Pow(2, bit + 1)
        {
          HighBit(pn[pos], bit);
          if Bit(pn[pos], bit) {
            TopLimb(pn[..], pos, bit);
            return 32 * pos + bit + 1;
          }
          bit := bit - 1;
        }
        PowZero();
        TopLimb(pn[..], pos, 0);
        return 32 * pos + 1;
      }
      pos := pos - 1;
    }
    ZeroValue(pn[..]);
    return 0;
  }

  lemma PowZero()
    ensures Pow(2, 0) == 1 && Pow(2, 1) == 2
  {
  }

  // ----- Multiplication -----

  lemma MulCarry(x: int, y: int, carry: nat, b: nat, a: nat, n: nat, p: nat)
    requires x + carry * p == b * y && n == carry + b * a
    ensures x + (n % BASE) * p + (n / BASE) * (BASE * p) == b * (y + a * p)
  {
    assert n * p == (n / BASE) * (BASE * p) + (n % BASE) * p;
    assert n * p == carry * p + b * (a * p);
    assert b * (y + a * p) == b * y + b * (a * p);
  }

  lemma {:induction false} MulStep(s: seq<Word>, was: seq<Word>, b: nat, i: nat, carry: nat, n: nat)
    requires i < |s| == |was| && n == carry + b * was[i]
    requires Value(s[..i]) + carry * Pow(BASE, i) == b * Value(was[..i])
    ensures Value(s[i := n % BASE][..i + 1]) + (n / BASE) * Pow(BASE, i + 1) == b * Value(was[..i + 1])
  {
    PrefixOfUpdate(s, i, n % BASE);
    ValuePrefix(was, i);
    MulCarry(Value(s[..i]), Value(was[..i]), carry, b, was[i], n, Pow(BASE, i));
  }

  /** The 64-bit accumulator of both multiplications cannot overflow. */
  lemma AccumulatorFits(carry: Word, limb: Word, x: Word, y: Word)
    ensures carry + limb + x * y < 0x1_0000_0000_0000_0000
    ensures (carry + limb + x * y) / BASE < BASE
  {
    MulLe(x, BASE - 1, y);
    MulLe(y, BASE - 1, BASE - 1);
    assert x * y <= (BASE - 1) * (BASE - 1);
  }

  /** operator*=(uint32_t) */
  method MulAssign32(pn: array<Word>, b32: Word)
    requires pn.Length == WIDTH
    modifies pn
    ensures Value(pn[..]) == Wrap256(b32 * old(Value(pn[..])))
  {
    hide Value, Pow, Wrap256;
    ghost var was := pn[..];
    var carry: Word := 0;
    assert was[..0] == [];
    ZeroValue([]);
    for i := 0 to WIDTH
      invariant pn[i..] == was[i..]
      invariant Value(pn[..i]) + carry * Pow(BASE, i) == b32 * Value(was[..i])
    {
      assert pn[i] == was[i..][0];
      AccumulatorFits(carry, 0, b32, pn[i]);
      var n: nat := carry + b32 * pn[i];
      assert n < 0x1_0000_0000_0000_0000;
      MulStep(pn[..], was, b32, i, carry, n);
      ghost var cur := pn[..];
      var low: Word := n % BASE;
      pn[i] := low;
      assert pn[..] == cur[i := low];
      carry := n / BASE;
    }
    assert pn[..WIDTH] == pn[..] && was[..WIDTH] == was;
    DropCarry(pn[..], carry, b32 * Value(was));
  }

  lemma RowArith(x: int, y: int, z: int, carry: nat, limb: nat, a: nat, b: nat, n: nat, p: nat, q: nat, r: nat)
    requires p == q * r && x + carry * p == y + a * (q * z) && n == carry + limb + a * b
    ensures x + (n % BASE) * p + (n / BASE) * (BASE * p) == (y + limb * p) + a * (q * (z + b * r))
  {
    assert n * p == (n / BASE) * (BASE * p) + (n % BASE) * p;
    assert n * p == carry * p + limb * p + a * (b * p);
    assert q * (z + b * r) == q * z + b * p;
    assert a * (q * z + b * p) == a * (q * z) + a * (b * p);
  }

  /** Row j of the schoolbook product after i limbs: row is pn as it was before the row. */
  ghost predicate RowInv(s: seq<Word>, row: seq<Word>, a: Word, bs: seq<Word>, j: nat, i: nat, carry: nat) {
    && |s| == |row| == |bs| == WIDTH && i + j <= WIDTH && s[i + j..] == row[i + j..]
    && Value(s[..i + j]) + carry * Pow(BASE, i + j) == Value(row[..i + j]) + a * (Pow(BASE, j) * Value(bs[..i]))
  }

  lemma {:induction false} RowStep(s: seq<Word>, row: seq<Word>, a: Word, bs: seq<Word>, j: nat, i: nat, carry: nat, n: nat)
    requires RowInv(s, row, a, bs, j, i, carry) && i + j < WIDTH && n == carry + s[i + j] + a * bs[i]
    ensures RowInv(s[i + j := n % BASE], row, a, bs, j, i + 1, n / BASE)
  {
    hide Value, Pow;
    var k := i + j;
    var t := s[k := n % BASE];
    assert s[k] == s[k..][0] == row[k];
    assert t[k + 1..] == s[k..][1..] && row[k + 1..] == row[k..][1..];
    PrefixOfUpdate(s, k, n % BASE);
    ValuePrefix(row, k);
    ValuePrefix(bs, i);
    PowAdd(BASE, j, i);
    PowNext(k);
    assert i + 1 + j == k + 1;
    RowArith(Value(s[..k]), Value(row[..k]), Value(bs[..i]), carry, row[k], a, bs[i], n, Pow(BASE, k), Pow(BASE, j), Pow(BASE, i));
  }

  lemma RowEndArith(v: nat, carry: nat, row: nat, a: nat, lo: nat, hi: nat, q: nat, t: nat, m: nat, k: nat, done: nat)
    requires m == q * t && v + carry * m == row + a * (q * lo) && row + k * m == done * (lo + hi * t)
    ensures v + (k + carry + a * hi) * m == (done + a * q) * (lo + hi * t)
  {
    assert (done + a * q) * (lo + hi * t) == done * (lo + hi * t) + a * (q * lo) + (a * hi) * m by {
      assert (a * q) * (lo + hi * t) == a * (q * lo) + (a * hi) * (q * t);
    }
    assert (k + carry + a * hi) * m == k * m + carry * m + (a * hi) * m;
  }

  lemma {:induction false} RowEnd(s: seq<Word>, row: seq<Word>, as_: seq<Word>, bs: seq<Word>, j: nat, carry: nat, k: nat)
    requires j < WIDTH == |as_| && RowInv(s, row, as_[j], bs, j, WIDTH - j, carry)
    requires Value(row) + k * TWO256 == Value(as_[..j]) * Value(bs)
    ensures Value(s) + (k + carry + as_[j] * Value(bs[WIDTH - j..])) * TWO256 == Value(as_[..j + 1]) * Value(bs)
  {
    hide Value, Pow;
    assert s[..WIDTH] == s && row[..WIDTH] == row;
    ValueSplit(bs, WIDTH - j);
    ValuePrefix(as_, j);
    PowAdd(BASE, j, WIDTH - j);
    RowEndArith(Value(s), carry, Value(row), as_[j], Value(bs[..WIDTH - j]), Value(bs[WIDTH - j..]),
                Pow(BASE, j), Pow(BASE, WIDTH - j), TWO256, k, Value(as_[..j]));
  }

  lemma RowStart(row: seq<Word>, a: Word, bs: seq<Word>, j: nat)
    requires |row| == |bs| == WIDTH && j <= WIDTH
    ensures RowInv(row, row, a, bs, j, 0, 0)
  {
    assert bs[..0] == [];
  }

  ghost predicate AllZero(s: seq<Word>) {
    |s| == WIDTH && forall l :: 0 <= l < |s| ==> s[l] == 0
  }

  /** With an aliased operand the row reads zeros only. */
  ghost predicate RowState(aliased: bool, s: seq<Word>, row: seq<Word>, a: Word, bs: seq<Word>, j: nat, i: nat, carry: nat) {
    if aliased then AllZero(s) && AllZero(bs) && carry == 0 else RowInv(s, row, a, bs, j, i, carry)
  }

  /** The 64-bit accumulator, which cannot overflow. */
  function Accumulate(carry: nat, limb: nat, x: nat, y: nat): (n: nat)
    requires carry < BASE && limb < BASE && x < BASE && y < BASE
    ensures n < 0x1_0000_0000_0000_0000 && n / BASE < BASE
  {
    AccumulatorFits(carry, limb, x, y);
    carry + limb + x * y
  }

  lemma {:induction false} RowStateStep(aliased: bool, s: seq<Word>, row: seq<Word>, a: Word, bs: seq<Word>, j: nat, i: nat, carry: Word)
    requires |s| == |bs| == WIDTH && i + j < WIDTH && RowState(aliased, s, row, a, bs, j, i, carry)
    ensures var n := Accumulate(carry, s[i + j], a, bs[i]);
            RowState(aliased, s[i + j := n % BASE], row, a, if aliased then s[i + j := n % BASE] else bs, j, i + 1, n / BASE)
  {
    if !aliased {
      RowStep(s, row, a, bs, j, i, carry, Accumulate(carry, s[i + j], a, bs[i]));
    }
  }

  /** Inner loop of operator*=: adds a * b * B^j to pn, dropping what passes limb 7. */
  method MulRow(pn: array<Word>, a: Word, b: array<Word>, j: nat) returns (carry: Word)
    requires pn.Length == WIDTH && b.Length == WIDTH && j < WIDTH
    requires b == pn ==> AllZero(pn[..])
    modifies pn
    ensures RowState(b == pn, pn[..], old(pn[..]), a, b[..], j, WIDTH - j, carry)
  {
    ghost var row := pn[..];
    carry := 0;
    RowStart(row, a, b[..], j);
    assert RowState(b == pn, pn[..], row, a, b[..], j, 0, carry);
    hide RowState, Accumulate;
    var i := 0;
    while i + j < WIDTH
      invariant 0 <= i <= WIDTH - j
      invariant RowState(b == pn, pn[..], row, a, b[..], j, i, carry)
    {
      RowStateStep(b == pn, pn[..], row, a, b[..], j, i, carry);
      ghost var cur, bs := pn[..], b[..];
      var n := Accumulate(carry, pn[i + j], a, b[i]);
      var low: Word := n % BASE;
      pn[i + j] := low;
      assert pn[..] == cur[i + j := low] && b[..] == if b == pn then pn[..] else bs;
      carry := n / BASE;
      i := i + 1;
    }
  }

  /** *this = 0 */
  method SetZero(pn: array<Word>)
    requires pn.Length == WIDTH
    modifies pn
    ensures AllZero(pn[..]) && Value(pn[..]) == 0
  {
    hide Value;
    for i := 0 to WIDTH
      invariant forall l :: 0 <= l < i ==> pn[l] == 0
    {
      pn[i] := 0;
    }
    ZeroValue(pn[..]);
  }

  /** Copy constructor. */
  method Copy(b: array<Word>) returns (a: array<Word>)
    requires b.Length == WIDTH
    ensures fresh(a) && a.Length == WIDTH && a[..] == b[..]
  {
    a := new Word[WIDTH](_ => 0);
    for i := 0 to WIDTH
      invariant forall l :: 0 <= l < i ==> a[l] == b[l]
    {
      a[i] := b[i];
    }
  }

  /** Rows 0..j-1 done; k counts the multiples of 2^256 dropped. */
  ghost predicate Product(aliased: bool, s: seq<Word>, as_: seq<Word>, bs: seq<Word>, j: nat, k: nat) {
    |s| == |as_| == |bs| == WIDTH && j <= WIDTH &&
    if aliased then AllZero(s) else Value(s) + k * TWO256 == Value(as_[..j]) * Value(bs)
  }

  function Dropped(k: nat, carry: nat, a: nat, v: nat): nat {
    k + carry + a * v
  }

  lemma {:induction false} ProductStep(aliased: bool, s: seq<Word>, row: seq<Word>, as_: seq<Word>, bs: seq<Word>, j: nat, carry: Word, k: nat)
    requires j < WIDTH && Product(aliased, row, as_, bs, j, k)
    requires RowState(aliased, s, row, as_[j], if aliased then s else bs, j, WIDTH - j, carry)
    ensures Product(aliased, s, as_, bs, j + 1, Dropped(k, carry, as_[j], Value(bs[WIDTH - j..])))
  {
    hide Value;
    if !aliased { RowEnd(s, row, as_, bs, j, carry, k); }
  }

  lemma {:induction false} ProductEnd(aliased: bool, s: seq<Word>, as_: seq<Word>, bs: seq<Word>, k: nat)
    requires Product(aliased, s, as_, bs, WIDTH, k)
    ensures Value(s) == if aliased then 0 else Wrap256(Value(as_) * Value(bs))
  {
    hide Value, Pow, Wrap256;
    if aliased {
      ZeroValue(s);
    } else {
      assert as_[..WIDTH] == as_;
      DropCarry(s, k, Value(as_) * Value(bs));
    }
  }

  /** operator*=: the product modulo 2^256, except that x *= x reads the zeroed x and yields zero. */
  method MulAssign(pn: array<Word>, b: array<Word>)
    requires pn.Length == WIDTH && b.Length == WIDTH
    modifies pn
    ensures Value(pn[..]) == if b == pn then 0 else Wrap256(old(Value(pn[..])) * old(Value(b[..])))
  {
    ghost var as_, bs := pn[..], b[..];
    ghost var k: nat := 0;
    var a := Copy(pn);
    SetZero(pn);
    assert as_[..0] == [];
    assert Product(b == pn, pn[..], as_, bs, 0, k);
    hide Value, Wrap256, Product, RowState;
    for j := 0 to WIDTH
      invariant a[..] == as_ && (b != pn ==> b[..] == bs)
      invariant b == pn ==> AllZero(pn[..])
      invariant Product(b == pn, pn[..], as_, bs, j, k)
    {
      ghost var row := pn[..];
      assert a[j] == as_[j];
      var carry := MulRow(pn, a[j], b, j);
      ProductStep(b == pn, pn[..], row, as_, bs, j, carry, k);
      k := Dropped(k, carry, as_[j], Value(bs[WIDTH - j..]));
      ZeroKept(b == pn, pn[..], as_, bs, j + 1, k);
    }
    ProductEnd(b == pn, pn[..], as_, bs, k);
  }

  lemma ZeroKept(aliased: bool, s: seq<Word>, as_: seq<Word>, bs: seq<Word>, j: nat, k: nat)
    requires Product(aliased, s, as_, bs, j, k)
    ensures aliased ==> AllZero(s)
  {
  }
}
