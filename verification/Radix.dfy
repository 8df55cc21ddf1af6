/** Numbers as big-endian digit sequences, and the multiply-and-add loop shared by both
    directions of base58.cpp. */
module Radix {
  import opened Powers

  function Quot(n: nat, b: nat): nat
    requires b > 0
  { n / b }

  lemma DivModIs(n: nat, b: nat)
    requires b > 0
    ensures n == Quot(n, b) * b + Rem(n, b) && Rem(n, b) < b
    ensures n > 0 && b > 1 ==> Quot(n, b) < n
  {
    if b > 1 { MulLe(2, b, Quot(n, b)); assert b * Quot(n, b) == Quot(n, b) * b; }
  }

  /** The number written by digits, most significant first. */
  function Num(d: seq<nat>, b: nat): nat {
    if d == [] then 0 else Num(d[..|d| - 1], b) * b + d[|d| - 1]
  }

  /** The digits of n without leading zeros; none for zero. */
  function ToDigits(n: nat, b: nat): (d: seq<nat>)
    requires b >= 2
  {
    if n == 0 then [] else
      DivModIs(n, b);
      ToDigits(Quot(n, b), b) + [Rem(n, b)]
  }

  predicate AreDigits(d: seq<nat>, b: nat) {
    forall i :: 0 <= i < |d| ==> d[i] < b
  }

  lemma {:induction false} DigitsOf(n: nat, b: nat)
    requires b >= 2
    ensures AreDigits(ToDigits(n, b), b) && Num(ToDigits(n, b), b) == n
    ensures n > 0 ==> ToDigits(n, b) != [] && ToDigits(n, b)[0] != 0
  {
    if n > 0 {
      hide Num, Quot, Rem;
      DivModIs(n, b);
      DigitsOf(Quot(n, b), b);
      NumAppend(ToDigits(Quot(n, b), b), Rem(n, b), b);
      if Quot(n, b) == 0 { assert 0 * b == 0; }
    }
  }

  /** Digits without a leading zero are the digits of their number. */
  lemma {:induction false} DigitsUnique(d: seq<nat>, b: nat)
    requires b >= 2 && AreDigits(d, b) && (d != [] ==> d[0] != 0)
    ensures ToDigits(Num(d, b), b) == d && (d != [] ==> Num(d, b) > 0)
  {
    hide Quot, Rem;
    if d != [] {
      var n := |d| - 1;
      DigitsUnique(d[..n], b);
      LastDigit(Num(d[..n], b), d[n], b);
    }
  }

  lemma LastDigit(q: nat, r: nat, b: nat)
    requires r < b
    ensures Quot(q * b + r, b) == q && Rem(q * b + r, b) == r
    ensures q > 0 ==> q * b + r > 0
  {
    hide Quot, Rem;
    var n := q * b + r;
    var q', r' := Quot(n, b), Rem(n, b);
    DivModIs(n, b);
    assert (q + 1) * b == q * b + b && (q' + 1) * b == q' * b + b;
    if q < q' { MulLe(q + 1, q', b); }
    if q' < q { MulLe(q' + 1, q, b); }
    if q > 0 { MulLe(1, q, b); }
  }

  lemma {:induction false} NumBound(d: seq<nat>, b: nat)
    requires AreDigits(d, b)
    ensures Num(d, b) < Pow(b, |d|)
  {
    if d != [] {
      NumBound(d[..|d| - 1], b);
      OneMoreDigit(Num(d[..|d| - 1], b), d[|d| - 1], Pow(b, |d| - 1), b);
    }
  }

  lemma OneMoreDigit(v: nat, x: nat, p: nat, b: nat)
    requires v < p && x < b
    ensures v * b + x < b * p
  {
    MulLe(v + 1, p, b);
    assert (v + 1) * b == v * b + b && p * b == b * p;
  }

  lemma {:induction false} NumCons(x: nat, t: seq<nat>, b: nat)
    ensures Num([x] + t, b) == x * Pow(b, |t|) + Num(t, b)
  {
    var s := [x] + t;
    if t == [] {
      assert s[..0] == [];
    } else {
      var n := |t| - 1;
      assert s[..|s| - 1] == [x] + t[..n];
      NumCons(x, t[..n], b);
      ConsArith(x, Pow(b, n), Num(t[..n], b), t[n], b);
    }
  }

  lemma ConsArith(x: nat, p: nat, v: nat, d: nat, b: nat)
    ensures (x * p + v) * b + d == x * (b * p) + (v * b + d)
  {
  }

  lemma {:induction false} LeadingZerosVanish(d: seq<nat>, k: nat, b: nat)
    requires k <= |d| && forall i :: 0 <= i < k ==> d[i] == 0
    ensures Num(d, b) == Num(d[k..], b)
  {
    if k == 0 {
      assert d[0..] == d;
    } else {
      NumCons(d[0], d[1..], b);
      assert [d[0]] + d[1..] == d;
      LeadingZerosVanish(d[1..], k - 1, b);
      assert d[1..][k - 1..] == d[k..];
    }
  }

  lemma {:induction false} NumAppend(d: seq<nat>, x: nat, b: nat)
    ensures Num(d + [x], b) == Num(d, b) * b + x
  {
    assert (d + [x])[..|d|] == d;
  }

  // ----- buffer = buffer * factor + ch -----

  /** After i digits from the right: row is the buffer before, carry what is still to be added. */
  ghost predicate RowInv(s: seq<nat>, row: seq<nat>, base: nat, factor: nat, ch: nat, i: nat, carry: nat) {
    && |s| == |row| && i <= |s| && s[..|s| - i] == row[..|s| - i] && AreDigits(s, base)
    && Num(s[|s| - i..], base) + carry * Pow(base, i) == factor * Num(row[|s| - i..], base) + ch
  }

  lemma Spread(a: nat, b: nat, c: nat, p: nat)
    ensures (a * b + c) * p == a * (b * p) + c * p
  {
    Associate(a, b, p);
  }

  lemma RowArith(x: nat, y: nat, carry: nat, d: nat, n: nat, p: nat, base: nat, factor: nat, ch: nat)
    requires base > 0 && x + carry * p == factor * y + ch && n == carry + factor * d
    ensures Rem(n, base) * p + x + Quot(n, base) * (base * p) == factor * (d * p + y) + ch
  {
    hide Quot, Rem;
    var q, r := Quot(n, base), Rem(n, base);
    DivModIs(n, base);
    Spread(q, base, r, p);
    Spread(factor, d, carry, p);
    assert factor * (d * p + y) == factor * (d * p) + factor * y;
  }

  lemma {:induction false} RowStep(s: seq<nat>, row: seq<nat>, base: nat, factor: nat, ch: nat, i: nat, carry: nat, n: nat)
    requires base > 0 && RowInv(s, row, base, factor, ch, i, carry) && i < |s|
    requires n == Accumulate(carry, factor, s[|s| - 1 - i])
    ensures RowInv(s[|s| - 1 - i := Rem(n, base)], row, base, factor, ch, i + 1, Quot(n, base))
  {
    hide Num, Pow, Quot, Rem;
    var at := |s| - 1 - i;
    var t := s[at := Rem(n, base)];
    DivModIs(n, base);
    assert s[at] == s[..at + 1][at] == row[at];
    assert t[at..] == [Rem(n, base)] + s[at + 1..] && row[at..] == [row[at]] + row[at + 1..];
    assert t[..at] == s[..at + 1][..at] && row[..at] == row[..at + 1][..at];
    NumCons(Rem(n, base), s[at + 1..], base);
    NumCons(row[at], row[at + 1..], base);
    PowStep(base, i);
    RowArith(Num(s[at + 1..], base), Num(row[at + 1..], base), carry, row[at], n, Pow(base, i), base, factor, ch);
  }

  lemma PowStep(b: nat, i: nat)
    ensures Pow(b, i + 1) == b * Pow(b, i)
  {
  }

  /** The buffer holds value v in its last length digits. */
  ghost predicate Holds(s: seq<nat>, base: nat, length: nat, v: nat) {
    && length <= |s| && AreDigits(s, base) && Num(s, base) == v
    && forall i :: 0 <= i < |s| - length ==> s[i] == 0
  }

  lemma {:induction false} RowStart(row: seq<nat>, base: nat, factor: nat, ch: nat, length: nat, v: nat)
    requires Holds(row, base, length, v)
    ensures RowInv(row, row, base, factor, ch, 0, ch)
  {
    assert row[|row|..] == [];
  }

  /** When the digits left over are zero and the result fits, no carry is left. */
  lemma {:induction false} RowEnd(s: seq<nat>, row: seq<nat>, base: nat, factor: nat, ch: nat, i: nat, carry: nat, length: nat, v: nat)
    requires base > 0 && RowInv(s, row, base, factor, ch, i, carry) && Holds(row, base, length, v)
    requires factor * v + ch < Pow(base, |row|)
    requires i == |s| || (carry == 0 && i >= length)
    ensures carry == 0 && Holds(s, base, i, factor * v + ch)
  {
    hide Num, Pow;
    var at := |s| - i;
    assert forall j :: 0 <= j < at ==> s[j] == s[..at][j] == row[j];
    LeadingZerosVanish(row, at, base);
    LeadingZerosVanish(s, at, base);
    if i == |s| && carry > 0 {
      MulLe(1, carry, Pow(base, i));
    }
  }

  /** Apply "buf = buf * factor + ch" to the last length digits; the assertion carry == 0 is proved. */
  method MulAdd(buf: array<nat>, base: nat, factor: nat, ch: nat, length: nat, ghost v: nat) returns (length': nat)
    requires base > 0 && Holds(buf[..], base, length, v) && factor * v + ch < Pow(base, buf.Length)
    modifies buf
    ensures Holds(buf[..], base, length', factor * v + ch)
  {
    ghost var row := buf[..];
    var carry: nat := ch;
    var i := 0;
    RowStart(row, base, factor, ch, length, v);
    hide RowInv, Holds, Pow, Accumulate, AreDigits, Quot, Rem;
    while (carry != 0 || i < length) && i != buf.Length
      invariant 0 <= i <= buf.Length && RowInv(buf[..], row, base, factor, ch, i, carry)
      decreases buf.Length - i
    {
      ghost var cur := buf[..];
      var at := buf.Length - 1 - i;
      var n: nat := Accumulate(carry, factor, buf[at]);
      assert buf[at] == cur[at];
      RowStep(cur, row, base, factor, ch, i, carry, n);
      var digit: nat := Rem(n, base);
      buf[at] := digit;
      assert buf[..] == cur[at := digit];
      carry := Quot(n, base);
      i := i + 1;
    }
    RowEnd(buf[..], row, base, factor, ch, i, carry, length, v);
    assert carry == 0;
    length' := i;
  }

  function Accumulate(carry: nat, factor: nat, d: nat): nat {
    carry + factor * d
  }
}
