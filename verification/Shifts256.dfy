/** operator<<= and operator>>= of base_uint<256>: multiplication and division by powers of two. */
module Shifts256 {
  import opened Powers
  import opened Limbs
  import opened Arith256

  lemma {:induction false} ValueUpdate(s: seq<Word>, i: nat, w: Word)
    requires i < |s|
    ensures Value(s[i := w]) == Value(s) - s[i] * Pow(BASE, i) + w * Pow(BASE, i)
  {
    hide Value, Pow;
    var t := s[i := w];
    ValueSplit(s, i + 1);
    ValueSplit(t, i + 1);
    assert t[i + 1..] == s[i + 1..];
    ValuePrefix(s, i);
    PrefixOfUpdate(s, i, w);
  }

  /** A limb shifted left by sh < 32 bits, split at the limb boundary. */
  function High(x: Word, sh: nat): (r: Word)
    requires sh < 32
  {
    x / Pow(2, 32 - sh)
  }

  function Low(x: Word, sh: nat): (r: Word)
    requires sh < 32
  {
    (x * Pow(2, sh)) % BASE
  }

  lemma {:induction false} ShiftParts(x: Word, sh: nat)
    requires sh < 32
    ensures x * Pow(2, sh) == High(x, sh) * BASE + Low(x, sh)
    ensures Low(x, sh) == (x % Pow(2, 32 - sh)) * Pow(2, sh) && High(x, sh) < Pow(2, sh)
  {
    hide Pow;
    PowerSplit(sh, 32);
    PowerOf32();
    PartsArith(x, Pow(2, 32 - sh), Pow(2, sh), BASE);
  }

  lemma PartsArith(x: nat, p: nat, q: nat, m: nat)
    requires p > 0 && q > 0 && p * q == m && x < m
    ensures x * q == (x / p) * m + (x % p) * q && (x * q) % m == (x % p) * q && x / p < q
  {
    var h, l := x / p, x % p;
    assert x == h * p + l;
    PartsOf(x, h, l, p, q, m);
    Euclid(x * q, m, h, l * q);
  }

  /** The two parts of x, moved up by a factor q that takes the lower one to m. */
  lemma PartsOf(x: nat, h: nat, l: nat, p: nat, q: nat, m: nat)
    requires x == h * p + l && l < p && p * q == m && x < m
    ensures x * q == h * m + l * q && l * q < m && h < q
  {
    Associate(h, p, q);
    BelowMultiple(l, p, q, h);
    assert (h * p + l) * q == h * p * q + l * q;
    if h >= q { MulLe(q, h, p); }
  }

  lemma BelowMultiple(l: nat, p: nat, q: nat, h: nat)
    requires l < p && h * p + l < p * q
    ensures l * q < p * q
  {
    assert q > 0;
    MulLe(l + 1, p, q);
    assert (l + 1) * q == l * q + q;
  }

  lemma {:induction false} OrComm(x: nat, y: nat)
    ensures BitOr(x, y) == BitOr(y, x)
  {
    if x > 0 && y > 0 { OrComm(x / 2, y / 2); }
  }

  /** or-ing in the low part of the next limb, when only the lowest sh bits are in use. */
  lemma {:induction false} OrLow(held: Word, x: Word, sh: nat)
    requires sh < 32 && held < Pow(2, sh)
    ensures BitOr(held, Low(x, sh)) == held + Low(x, sh) < BASE
  {
    hide Pow, BitOr;
    ShiftParts(x, sh);
    PowerSplit(sh, 32);
    PowerOf32();
    var l := x % Pow(2, 32 - sh);
    OrIsSum(l, held, sh);
    OrComm(held, Low(x, sh));
    MulLe(l + 1, Pow(2, 32 - sh), Pow(2, sh));
    assert (l + 1) * Pow(2, sh) == l * Pow(2, sh) + Pow(2, sh);
  }

  // ----- Left shift -----

  /** The limbs cur after i limbs of a were shifted in. */
  ghost predicate ShlInv(cur: seq<Word>, a: seq<Word>, k: nat, sh: nat, i: nat) {
    && |cur| == |a| == WIDTH && sh < 32 && i <= WIDTH
    && if i + k < WIDTH then
         && (forall j :: i + k < j < WIDTH ==> cur[j] == 0) && cur[i + k] < Pow(2, sh)
         && Value(cur) == Pow(BASE, k) * Pow(2, sh) * Value(a[..i])
       else Value(cur) == Wrap256(Pow(BASE, k) * Pow(2, sh) * Value(a))
  }

  lemma {:induction false} ShlStart(cur: seq<Word>, a: seq<Word>, k: nat, sh: nat)
    requires |a| == WIDTH && sh < 32 && AllZero(cur)
    ensures ShlInv(cur, a, k, sh, 0)
  {
    hide Pow;
    ZeroValue(cur);
    assert a[..0] == [];
    if k >= WIDTH {
      PowAdd(BASE, k - WIDTH, WIDTH);
      var q := Pow(BASE, k - WIDTH) * Pow(2, sh) * Value(a);
      assert Pow(BASE, k) * Pow(2, sh) * Value(a) == q * TWO256 by {
        Reorder(Pow(BASE, k - WIDTH), TWO256, Pow(2, sh), Value(a));
      }
      Euclid(q * TWO256, TWO256, q, 0);
    }
  }

  lemma Reorder(a: nat, m: nat, b: nat, c: nat)
    ensures (a * m) * b * c == (a * b * c) * m
  {
    assert (a * m) * b == (a * b) * m;
    assert ((a * b) * m) * c == (a * b * c) * m;
  }

  /** Limb i placed at i + k, its high part at i + k + 1 unless that is past the end. */
  function PutLimb(cur: seq<Word>, x: Word, at: nat, sh: nat): seq<Word>
    requires |cur| == WIDTH && at < WIDTH && sh < 32
    requires cur[at] < Pow(2, sh)
  {
    OrLow(cur[at], x, sh);
    var up := if at + 1 < WIDTH then cur[at + 1 := High(x, sh)] else cur;
    up[at := cur[at] + Low(x, sh)]
  }

  lemma {:induction false} PutLimbValue(cur: seq<Word>, x: Word, at: nat, sh: nat)
    requires |cur| == WIDTH && at < WIDTH && sh < 32 && cur[at] < Pow(2, sh)
    requires at + 1 < WIDTH ==> cur[at + 1] == 0
    ensures Value(PutLimb(cur, x, at, sh)) + (if at + 1 < WIDTH then 0 else High(x, sh) * TWO256)
            == Value(cur) + Pow(2, sh) * x * Pow(BASE, at)
  {
    hide Value, Pow, High, Low;
    ShiftParts(x, sh);
    OrLow(cur[at], x, sh);
    var up := if at + 1 < WIDTH then cur[at + 1 := High(x, sh)] else cur;
    if at + 1 < WIDTH { ValueUpdate(cur, at + 1, High(x, sh)); }
    ValueUpdate(up, at, cur[at] + Low(x, sh));
    PowNext(at);
    PutArith(cur[at], x, High(x, sh), Low(x, sh), Pow(2, sh), Pow(BASE, at));
  }

  lemma PutArith(held: nat, x: nat, h: nat, l: nat, q: nat, p: nat)
    requires x * q == h * BASE + l
    ensures (held + l) * p - held * p + h * (BASE * p) == q * x * p
  {
    assert (held + l) * p == held * p + l * p;
    assert q * x * p == (h * BASE + l) * p;
    assert (h * BASE + l) * p == h * (BASE * p) + l * p;
  }

  lemma {:induction false} ShlStep(cur: seq<Word>, a: seq<Word>, k: nat, sh: nat, i: nat)
    requires ShlInv(cur, a, k, sh, i) && i + k < WIDTH
    ensures ShlInv(PutLimb(cur, a[i], i + k, sh), a, k, sh, i + 1)
  {
    hide Value, Pow, High, Low;
    ShiftParts(a[i], sh);
    PutLimbValue(cur, a[i], i + k, sh);
    ValuePrefix(a, i);
    PowAdd(BASE, k, i);
    ShlArith(Pow(BASE, k), Pow(2, sh), Value(a[..i]), a[i], Pow(BASE, i));
    if i + k + 1 == WIDTH {
      var next, rest := PutLimb(cur, a[i], i + k, sh), Value(a[i + 1..]);
      ValueSplit(a, i + 1);
      PowAdd(BASE, k, i + 1);
      assert k + (i + 1) == WIDTH;
      ShlDrop(Value(next), High(a[i], sh), Pow(BASE, k), Pow(2, sh), Value(a[..i + 1]), rest, Pow(BASE, i + 1), TWO256);
      DropCarry(next, High(a[i], sh) + Pow(2, sh) * rest, Pow(BASE, k) * Pow(2, sh) * Value(a));
    }
  }

  lemma ShlArith(p: nat, q: nat, v: nat, x: nat, r: nat)
    ensures p * q * (v + x * r) == p * q * v + q * x * (p * r)
  {
    assert p * q * (v + x * r) == p * q * v + p * q * (x * r);
    assert p * q * (x * r) == q * x * (p * r);
  }

  lemma ShlDrop(next: nat, h: nat, p: nat, q: nat, v: nat, rest: nat, r: nat, m: nat)
    requires next + h * m == p * q * v && m == p * r
    ensures next + (h + q * rest) * m == p * q * (v + rest * r)
  {
    assert (h + q * rest) * m == h * m + q * rest * (p * r);
    ShlArith(p, q, v, rest, r);
  }

  lemma {:induction false} ShlRoom(cur: seq<Word>, a: seq<Word>, k: nat, sh: nat, i: nat)
    requires ShlInv(cur, a, k, sh, i) && i + k < WIDTH
    ensures cur[i + k] < Pow(2, sh) && (i + k + 1 < WIDTH ==> cur[i + k + 1] == 0)
  {
  }

  lemma {:induction false} ShlDone(cur: seq<Word>, a: seq<Word>, k: nat, sh: nat, i: nat)
    requires ShlInv(cur, a, k, sh, i) && i + k >= WIDTH
    ensures i + 1 <= WIDTH ==> ShlInv(cur, a, k, sh, i + 1)
    ensures Value(cur) == Wrap256(Value(a) * Pow(2, 32 * k + sh))
  {
    hide Pow, Value;
    BasePow(k);
    PowAdd(2, 32 * k, sh);
    assert Pow(BASE, k) * Pow(2, sh) * Value(a) == Value(a) * (Pow(BASE, k) * Pow(2, sh));
  }

  /** Loop body of operator<<= for limb x, at position at = i + k. */
  method OrLeft(pn: array<Word>, x: Word, at: nat, sh: nat)
    requires pn.Length == WIDTH && at < WIDTH && sh < 32 && pn[at] < Pow(2, sh)
    requires at + 1 < WIDTH ==> pn[at + 1] == 0
    modifies pn
    ensures pn[..] == PutLimb(old(pn[..]), x, at, sh)
  {
    hide Pow, BitOr, High, Low;
    OrLow(pn[at], x, sh);
    OrZero(High(x, sh));
    if sh == 0 { HighOfNothing(x); }
    if at + 1 < WIDTH && sh != 0 {
      pn[at + 1] := BitOr(pn[at + 1], High(x, sh));
    }
    pn[at] := BitOr(pn[at], Low(x, sh));
  }

  lemma HighOfNothing(x: Word)
    ensures High(x, 0) == 0
  {
    PowerOf32();
  }

  /** operator<<= */
  method ShiftLeft(pn: array<Word>, shift: nat)
    requires pn.Length == WIDTH
    modifies pn
    ensures Value(pn[..]) == Wrap256(old(Value(pn[..])) * Pow(2, shift))
  {
    ghost var was := pn[..];
    var a := Copy(pn);
    SetZero(pn);
    var k, sh := shift / 32, shift % 32;
    ShlStart(pn[..], was, k, sh);
    hide Value, ShlInv, Wrap256, Pow, PutLimb;
    for i := 0 to WIDTH
      invariant a[..] == was && ShlInv(pn[..], was, k, sh, i)
    {
      assert a[i] == was[i];
      if i + k < WIDTH {
        ShlRoom(pn[..], was, k, sh, i);
        ShlStep(pn[..], was, k, sh, i);
        OrLeft(pn, a[i], i + k, sh);
      } else {
        ShlDone(pn[..], was, k, sh, i);
      }
    }
    ShlDone(pn[..], was, k, sh, WIDTH);
  }

  lemma OrZero(y: nat)
    ensures BitOr(0, y) == y
  {
  }

  // ----- Right shift -----

  /** The limbs cur after i limbs of a were shifted down by k limbs and sh bits. */
  ghost predicate ShrInv(cur: seq<Word>, a: seq<Word>, k: nat, sh: nat, i: nat) {
    && |cur| == |a| == WIDTH && sh < 32 && i <= WIDTH
    && if i <= k then AllZero(cur) else
         && (forall j :: i - k <= j < WIDTH ==> cur[j] == 0) && cur[i - k - 1] == a[i - 1] / Pow(2, sh)
         && Value(cur) * Pow(2, sh) + a[k] % Pow(2, sh) == Value(a[k..i])
  }

  /** Limb x or-ed in at position at, its low bits moved to the top of the limb below. */
  function TakeLimb(cur: seq<Word>, x: Word, at: int, sh: nat): seq<Word>
    requires |cur| == WIDTH && 0 <= at < WIDTH && sh < 32
    requires at > 0 ==> cur[at - 1] + Rest(x, sh) < BASE
  {
    var down := if at > 0 then cur[at - 1 := cur[at - 1] + Rest(x, sh)] else cur;
    down[at := x / Pow(2, sh)]
  }

  /** x << (32 - sh) in 32 bits; nothing for sh == 0. */
  function Rest(x: Word, sh: nat): (r: Word)
    requires sh < 32
  {
    (x * Pow(2, 32 - sh)) % BASE
  }

  lemma {:induction false} RestIs(x: Word, sh: nat)
    requires sh < 32
    ensures Rest(x, sh) == (x % Pow(2, sh)) * Pow(2, 32 - sh)
    ensures Rest(x, sh) * Pow(2, sh) == (x % Pow(2, sh)) * BASE
    ensures sh == 0 ==> Rest(x, sh) == 0
  {
    PowZero();
    hide Pow;
    PowerSplit(sh, 32);
    PowerOf32();
    PartsArith(x, Pow(2, sh), Pow(2, 32 - sh), BASE);
    assert (x % Pow(2, sh)) * Pow(2, 32 - sh) * Pow(2, sh) == (x % Pow(2, sh)) * (Pow(2, 32 - sh) * Pow(2, sh));
  }

  lemma {:induction false} OrRest(held: Word, y: Word, x: Word, sh: nat)
    requires sh < 32 && held == y / Pow(2, sh)
    ensures BitOr(held, Rest(x, sh)) == held + Rest(x, sh) < BASE
  {
    hide Pow, BitOr, Rest;
    RestIs(x, sh);
    PowerSplit(sh, 32);
    PowerOf32();
    var p, q, l := Pow(2, sh), Pow(2, 32 - sh), x % Pow(2, sh);
    PartsArith(y, p, q, BASE);
    OrIsSum(l, held, 32 - sh);
    OrComm(held, Rest(x, sh));
    RoomBelow(l, held, p, q);
  }

  lemma RoomBelow(l: nat, held: nat, p: nat, q: nat)
    requires l < p && held < q
    ensures l * q + held < p * q
  {
    MulLe(l + 1, p, q);
    assert (l + 1) * q == l * q + q;
  }

  lemma {:induction false} ShrFirst(cur: seq<Word>, a: seq<Word>, k: nat, sh: nat)
    requires ShrInv(cur, a, k, sh, k) && k < WIDTH
    ensures ShrInv(TakeLimb(cur, a[k], 0, sh), a, k, sh, k + 1)
  {
    hide Pow, Rest, Value;
    var q, x := Pow(2, sh), a[k];
    ZeroValue(cur);
    ValueUpdate(cur, 0, x / q);
    PowZeroBase();
    assert a[k..k + 1] == [x];
    OneLimb(x);
    assert x == (x / q) * q + x % q;
  }

  lemma OneLimb(x: Word)
    ensures Value([x]) == x
  {
    assert [x][..0] == [];
  }

  lemma {:induction false} ShrNext(cur: seq<Word>, a: seq<Word>, k: nat, sh: nat, i: nat)
    requires ShrInv(cur, a, k, sh, i) && k < i < WIDTH
    ensures cur[i - k - 1] + Rest(a[i], sh) < BASE
    ensures ShrInv(TakeLimb(cur, a[i], i - k, sh), a, k, sh, i + 1)
  {
    hide Pow, Rest, Value;
    var at := i - k;
    OrRest(cur[at - 1], a[i - 1], a[i], sh);
    NextSlice(a, k, i);
    TakeLimbValue(cur, a[i], at, sh);
  }

  lemma {:induction false} NextSlice(a: seq<Word>, k: nat, i: nat)
    requires k <= i < |a|
    ensures Value(a[k..i + 1]) == Value(a[k..i]) + a[i] * Pow(BASE, i - k)
  {
    hide Pow, Value;
    ValuePrefix(a[k..], i - k);
    assert a[k..][..i - k + 1] == a[k..i + 1] && a[k..][..i - k] == a[k..i];
  }

  /** The two limbs that change, and the value after it. */
  lemma {:induction false} TakeLimbIs(cur: seq<Word>, x: Word, at: nat, sh: nat)
    requires |cur| == WIDTH && 0 < at < WIDTH && sh < 32 && cur[at] == 0 && cur[at - 1] + Rest(x, sh) < BASE
    ensures var p := Pow(BASE, at - 1);
      Value(TakeLimb(cur, x, at, sh))
      == Value(cur) - cur[at - 1] * p + (cur[at - 1] + Rest(x, sh)) * p + (x / Pow(2, sh)) * (BASE * p)
  {
    hide Pow, Rest, Value;
    var down := cur[at - 1 := cur[at - 1] + Rest(x, sh)];
    ValueUpdate(cur, at - 1, cur[at - 1] + Rest(x, sh));
    ValueUpdate(down, at, x / Pow(2, sh));
    PowNext(at - 1);
  }

  lemma {:induction false} TakeLimbValue(cur: seq<Word>, x: Word, at: nat, sh: nat)
    requires |cur| == WIDTH && 0 < at < WIDTH && sh < 32 && cur[at] == 0 && cur[at - 1] + Rest(x, sh) < BASE
    ensures Value(TakeLimb(cur, x, at, sh)) * Pow(2, sh) == Value(cur) * Pow(2, sh) + x * Pow(BASE, at)
  {
    hide Pow, Rest, Value, TakeLimb;
    RestIs(x, sh);
    TakeLimbIs(cur, x, at, sh);
    PowNext(at - 1);
    TakeArith(Value(cur), cur[at - 1], Rest(x, sh), x, Pow(2, sh), Pow(BASE, at - 1));
  }

  lemma PowZeroBase()
    ensures Pow(BASE, 0) == 1
  {
  }

  lemma TakeArith(v: nat, held: nat, rest: nat, x: nat, q: nat, p: nat)
    requires q > 0 && rest * q == (x % q) * BASE
    ensures (v - held * p + (held + rest) * p + (x / q) * (BASE * p)) * q == v * q + x * (BASE * p)
  {
    assert (held + rest) * p == held * p + rest * p;
    assert x == (x / q) * q + x % q;
    assert rest * p * q == (x % q) * (BASE * p);
    assert (x / q) * (BASE * p) * q == ((x / q) * q) * (BASE * p);
    assert ((x / q) * q) * (BASE * p) + (x % q) * (BASE * p) == x * (BASE * p);
    assert (v + rest * p + (x / q) * (BASE * p)) * q == v * q + rest * p * q + (x / q) * (BASE * p) * q;
  }

  lemma {:induction false} ShrEnd(cur: seq<Word>, a: seq<Word>, k: nat, sh: nat)
    requires ShrInv(cur, a, k, sh, WIDTH)
    ensures Value(cur) == Value(a) / Pow(2, 32 * k + sh)
  {
    hide Pow, Value;
    BasePow(k);
    PowAdd(2, 32 * k, sh);
    var p, q := Pow(BASE, k), Pow(2, sh);
    if k < WIDTH {
      ValueSplit(a, k);
      ValueBound(a[..k]);
      assert a[k..WIDTH] == a[k..];
      ShrArith(Value(cur), a[k] % q, Value(a[..k]), p, q);
    } else {
      ZeroValue(cur);
      ValueBound(a);
      PowAdd(BASE, k - WIDTH, WIDTH);
      MulLe(1, Pow(BASE, k - WIDTH), TWO256);
      MulLe(1, q, p);
      assert q * p == p * q;
      Euclid(Value(a), p * q, 0, Value(a));
    }
  }

  lemma ShrArith(v: nat, r: nat, low: nat, p: nat, q: nat)
    requires r < q && low < p
    ensures (low + (v * q + r) * p) / (p * q) == v
  {
    MulLe(r + 1, q, p);
    assert (r + 1) * p == r * p + p;
    assert (v * q + r) * p == v * (p * q) + r * p;
    assert q * p == p * q;
    Euclid(low + (v * q + r) * p, p * q, v, low + r * p);
  }

  lemma {:induction false} ShrIdle(cur: seq<Word>, a: seq<Word>, k: nat, sh: nat, i: nat)
    requires ShrInv(cur, a, k, sh, i) && i < k && i < WIDTH
    ensures ShrInv(cur, a, k, sh, i + 1)
  {
  }

  /** The limb below still has room for the low bits, and the limb at hand is empty. */
  lemma {:induction false} ShrRoom(cur: seq<Word>, a: seq<Word>, k: nat, sh: nat, i: nat)
    requires ShrInv(cur, a, k, sh, i) && k <= i < WIDTH
    ensures cur[i - k] == 0
    ensures i > k ==> BitOr(cur[i - k - 1], Rest(a[i], sh)) == cur[i - k - 1] + Rest(a[i], sh) < BASE
  {
    hide Pow, Rest, Value, BitOr;
    if i > k { OrRest(cur[i - k - 1], a[i - 1], a[i], sh); }
  }

  /** Loop body of operator>>= for limb x, at position at = i - k. */
  method OrRight(pn: array<Word>, x: Word, at: nat, sh: nat)
    requires pn.Length == WIDTH && at < WIDTH && sh < 32 && pn[at] == 0
    requires at > 0 ==> BitOr(pn[at - 1], Rest(x, sh)) == pn[at - 1] + Rest(x, sh) < BASE
    modifies pn
    ensures pn[..] == TakeLimb(old(pn[..]), x, at, sh)
  {
    hide Pow, BitOr, Rest;
    OrZero(x / Pow(2, sh));
    RestIs(x, sh);
    if at > 0 && sh != 0 {
      pn[at - 1] := BitOr(pn[at - 1], Rest(x, sh));
    }
    pn[at] := BitOr(pn[at], x / Pow(2, sh));
  }

  /** operator>>= */
  method ShiftRight(pn: array<Word>, shift: nat)
    requires pn.Length == WIDTH
    modifies pn
    ensures Value(pn[..]) == old(Value(pn[..])) / Pow(2, shift)
  {
    ghost var was := pn[..];
    var a := Copy(pn);
    SetZero(pn);
    var k, sh := shift / 32, shift % 32;
    assert ShrInv(pn[..], was, k, sh, 0) by { hide Value, Pow; }
    hide Value, ShrInv, Pow, TakeLimb, BitOr, Rest;
    for i := 0 to WIDTH
      invariant a[..] == was && ShrInv(pn[..], was, k, sh, i)
    {
      assert a[i] == was[i];
      if i >= k {
        ShrRoom(pn[..], was, k, sh, i);
        if i > k { ShrNext(pn[..], was, k, sh, i); } else { ShrFirst(pn[..], was, k, sh); }
        OrRight(pn, a[i], i - k, sh);
      } else {
        ShrIdle(pn[..], was, k, sh, i);
      }
    }
    ShrEnd(pn[..], was, k, sh);
  }
}
