/** ParseFixedPoint of common/utilstrencodings.cpp: a decimal literal to a 64-bit fixed-point amount. */
module FixedPoint {
  import opened Options
  import opened Powers
  import opened JsonNumber

  /** Arithmetic in the source's types: every assignment to one of these is shown to stay in range. */
  type Int64 = x: int | -0x8000_0000_0000_0000 <= x < 0x8000_0000_0000_0000
  type Int32 = x: int | -0x8000_0000 <= x < 0x8000_0000

  /** 10^18. */
  const BOUND: int := 1_000_000_000_000_000_000
  const UPPER_BOUND: Int64 := 999_999_999_999_999_999
  const TENTH: Int64 := 99_999_999_999_999_999

  // ----- What a literal denotes -----

  function DigitVal(c: char): (r: nat)
    requires IsDigit(c)
    ensures r <= 9
  {
    c as int - '0' as int
  }

  function Decimal(s: string): nat
    requires AllDigits(s)
  {
    if s == "" then 0 else 10 * Decimal(s[..|s| - 1]) + DigitVal(s[|s| - 1])
  }

  const DIGITS: string := "0123456789"

  /** Each digit character stands for its place in the list. */
  lemma DigitValIs(d: nat)
    requires d < 10
    ensures IsDigit(DIGITS[d]) && DigitVal(DIGITS[d]) == d
  {
  }

  /** The decimal text of n, without leading zeros. */
  function DecimalText(n: nat): (s: string)
    ensures s != ""
  {
    if n < 10 then [DIGITS[n]] else DecimalText(n / 10) + [DIGITS[n % 10]]
  }

  /** Reading the decimal text of a number gives the number. */
  lemma {:induction false} DecimalOfText(n: nat)
    ensures AllDigits(DecimalText(n)) && Decimal(DecimalText(n)) == n
  {
    hide DigitVal;
    DigitValIs(n % 10);
    var s := DecimalText(n);
    if n < 10 {
      assert s[..0] == "";
    } else {
      DecimalOfText(n / 10);
      assert s[..|s| - 1] == DecimalText(n / 10);
    }
  }

  function Signed(neg: bool, n: int): int { if neg then -n else n }

  function SignedExp(mark: string, exp: string): int
    requires AllDigits(exp)
  {
    Signed(|mark| == 2 && mark[1] == '-', Decimal(exp))
  }

  lemma {:induction false} DigitsJoin(a: string, b: string)
    requires AllDigits(a) && AllDigits(b)
    ensures AllDigits(a + b)
  {
  }

  /** v is the literal's value times 10^decimals. */
  ghost predicate IsScaled(n: Literal, decimals: int, v: int)
    requires Valid(n)
  {
    DigitsJoin(n.whole, n.frac);
    Denotes(Signed(n.neg, Decimal(n.whole + n.frac)), SignedExp(n.mark, n.exp) - |n.frac| + decimals, v)
  }

  /** v == c * 10^p, without dividing. */
  predicate Denotes(c: int, p: int, v: int) {
    if p >= 0 then v == c * Pow(10, p) else v * Pow(10, -p) == c
  }

  ghost predicate InRange(v: int) { -BOUND < v < BOUND }

  // ----- The mantissa and its trailing zeros -----

  datatype Digits = Digits(mantissa: nat, tzeros: nat)

  function Push(d: Digits, c: char): Digits
    requires IsDigit(c)
  {
    if c == '0' then Digits(d.mantissa, d.tzeros + 1)
    else Digits(d.mantissa * Pow(10, d.tzeros + 1) + DigitVal(c), 0)
  }

  function Strip(s: string): Digits
    requires AllDigits(s)
  {
    if s == "" then Digits(0, 0) else Push(Strip(s[..|s| - 1]), s[|s| - 1])
  }

  lemma PushValue(d: Digits, c: char, v: nat)
    requires IsDigit(c) && d.mantissa * Pow(10, d.tzeros) == v
    ensures Push(d, c).mantissa * Pow(10, Push(d, c).tzeros) == 10 * v + DigitVal(c)
    ensures c != '0' ==> Push(d, c).mantissa % 10 != 0
  {
    var p := Pow(10, d.tzeros);
    assert Pow(10, d.tzeros + 1) == 10 * p;
    assert d.mantissa * (10 * p) == 10 * (d.mantissa * p);
    var r := Push(d, c);
    if c != '0' {
      assert Pow(10, 0) == 1;
      assert r.mantissa == 10 * v + DigitVal(c);
      assert DigitVal(c) > 0;
    }
  }

  /** The stripped mantissa with its zeros put back is the number. */
  lemma {:induction false} StripValue(s: string)
    requires AllDigits(s)
    ensures var d := Strip(s);
      && d.mantissa * Pow(10, d.tzeros) == Decimal(s) && d.tzeros <= |s|
      && (d.mantissa == 0 ==> d.tzeros == |s|) && (d.mantissa != 0 ==> d.mantissa % 10 != 0)
  {
    hide Pow;
    if s != "" {
      StripValue(s[..|s| - 1]);
      PushValue(Strip(s[..|s| - 1]), s[|s| - 1], Decimal(s[..|s| - 1]));
    } else {
      assert Pow(10, 0) == 1 by { PowZero(); }
    }
  }

  lemma PowZero()
    ensures Pow(10, 0) == 1
  {
  }

  lemma PowStep(k: nat)
    ensures Pow(10, k + 1) == 10 * Pow(10, k) && Pow(10, k) > 0
  {
  }

  lemma {:induction false} StripMono(s: string, t: string)
    requires AllDigits(s) && AllDigits(t)
    ensures AllDigits(s + t) && Strip(s).mantissa <= Strip(s + t).mantissa
  {
    hide Pow;
    if t == "" {
      assert s + t == s;
    } else {
      hide Push;
      var t' := t[..|t| - 1];
      StripMono(s, t');
      assert (s + t)[..|s + t| - 1] == s + t';
      PushGrows(Strip(s + t'), t[|t| - 1]);
    }
  }

  lemma PushGrows(d: Digits, c: char)
    requires IsDigit(c)
    ensures d.mantissa <= Push(d, c).mantissa
  {
    hide Pow;
    PowStep(d.tzeros);
    MulLe(1, Pow(10, d.tzeros + 1), d.mantissa);
  }

  // ----- Acceptance -----

  /** A lone 0 before the point is not counted as a mantissa digit. */
  function Kept(whole: string): string { if whole == "0" then "" else whole }
  function Significant(whole: string, frac: string): string { Kept(whole) + frac }

  lemma SignificantDigits(whole: string, frac: string)
    requires AllDigits(whole) && AllDigits(frac)
    ensures AllDigits(Significant(whole, frac))
  {
  }

  function Mantissa(n: Literal): Digits
    requires Valid(n)
  {
    SignificantDigits(n.whole, n.frac);
    Strip(Significant(n.whole, n.frac))
  }

  /** The final exponent. */
  function Exponent(n: Literal, decimals: int): int
    requires Valid(n)
  {
    SignedExp(n.mark, n.exp) - |n.frac| + Mantissa(n).tzeros + decimals
  }

  predicate Accepts(n: Literal, decimals: int)
    requires Valid(n)
  {
    0 <= Exponent(n, decimals) < 18 && Mantissa(n).mantissa * Pow(10, Exponent(n, decimals)) < BOUND
  }

  function Amount(n: Literal, decimals: int): int
    requires Valid(n) && Accepts(n, decimals)
  {
    Signed(n.neg, Mantissa(n).mantissa * Pow(10, Exponent(n, decimals)))
  }

  lemma {:induction false} LeadingZero(s: string)
    requires AllDigits(s)
    ensures AllDigits("0" + s) && Decimal("0" + s) == Decimal(s)
  {
    if s == "" {
      assert "0" + s == "0";
      assert Decimal("0") == 0;
    } else {
      LeadingZero(s[..|s| - 1]);
      assert ("0" + s)[..|s|] == "0" + s[..|s| - 1];
    }
  }

  /** Mantissa and trailing zeros of a literal, in terms of its digits. */
  lemma {:induction false} MantissaIs(n: Literal)
    requires Valid(n)
    ensures AllDigits(n.whole + n.frac)
    ensures var d := Mantissa(n);
      && d.mantissa * Pow(10, d.tzeros) == Decimal(n.whole + n.frac)
      && (d.mantissa != 0 ==> d.mantissa % 10 != 0) && d.tzeros <= |n.whole| + |n.frac|
      && (d.mantissa == 0 ==> d.tzeros == |n.frac|)
  {
    hide Pow, Strip, Decimal;
    DigitsJoin(n.whole, n.frac);
    SignificantDigits(n.whole, n.frac);
    StripValue(Significant(n.whole, n.frac));
    if n.whole == "0" {
      LeadingZero(n.frac);
      assert "" + n.frac == n.frac;
    } else { LeadingDigit(n.whole, n.frac); }
  }

  lemma {:induction false} LeadingDigit(a: string, b: string)
    requires AllDigits(a) && AllDigits(b) && a != "" && a[0] != '0'
    ensures AllDigits(a + b) && Strip(a + b).mantissa > 0
  {
    hide Pow;
    DigitsJoin(a, b);
    var s := a + b;
    var first, rest := s[..1], s[1..];
    assert first == [a[0]] && first[..0] == "";
    assert Strip(first) == Push(Digits(0, 0), a[0]);
    assert Strip(first).mantissa == DigitVal(a[0]);
    StripMono(first, rest);
    assert first + rest == s;
  }

  // ----- Exactness -----

  lemma PowersCancel(m: nat, a: nat, b: nat)
    ensures m * Pow(10, a + b) == m * Pow(10, a) * Pow(10, b)
  {
    hide Pow;
    PowAdd(10, a, b);
    assert m * (Pow(10, a) * Pow(10, b)) == m * Pow(10, a) * Pow(10, b);
  }

  /** m * 10^z with m scaled by 10^(z + p) instead. */
  lemma {:induction false} ScaledIs(m: nat, z: nat, p: int)
    requires z + p >= 0
    ensures Denotes(m * Pow(10, z), p, m * Pow(10, z + p))
  {
    hide Pow;
    if p >= 0 { PowersCancel(m, z, p); } else { PowersCancel(m, z + p, -p); }
  }

  lemma Negated(c: int, p: int, v: int)
    ensures Denotes(c, p, v) <==> Denotes(-c, p, -v)
  {
    hide Pow;
    if p >= 0 { assert (-c) * Pow(10, p) == -(c * Pow(10, p)); } else { assert (-v) * Pow(10, -p) == -(v * Pow(10, -p)); }
  }

  /** Every accepted literal yields its exact scaled value, below 10^18 in magnitude. */
  lemma {:induction false} AcceptedIsExact(n: Literal, decimals: int)
    requires Valid(n) && Accepts(n, decimals)
    ensures IsScaled(n, decimals, Amount(n, decimals)) && InRange(Amount(n, decimals))
  {
    hide Pow, Decimal, Strip, Denotes, SignedExp, Mantissa;
    MantissaIs(n);
    var d := Mantissa(n);
    var p := SignedExp(n.mark, n.exp) - |n.frac| + decimals;
    ScaledIs(d.mantissa, d.tzeros, p);
    Negated(d.mantissa * Pow(10, d.tzeros), p, d.mantissa * Pow(10, d.tzeros + p));
  }

  lemma Cancel(a: nat, b: nat, k: nat)
    requires k > 0 && a * k == b * k
    ensures a == b
  {
    if a < b { MulLe(a + 1, b, k); }
    if b < a { MulLe(b + 1, a, k); }
  }

  lemma TimesTenMod(v: nat, q: nat, k: nat)
    requires q == v * Pow(10, k + 1)
    ensures q % 10 == 0
  {
    PowStep(k);
    hide Pow;
    var w := v * Pow(10, k);
    Associate(10, v, Pow(10, k));
    Associate(v, 10, Pow(10, k));
    Euclid(q, 10, w, 0);
  }

  /** A nonzero integer value fixes the exponent: the stripped mantissa absorbs no more factors of ten. */
  lemma {:induction false} ScaledUnique(m: nat, z: nat, p: int, v: nat)
    requires m % 10 != 0 && Denotes(m * Pow(10, z), p, v)
    ensures z + p >= 0 && v == m * Pow(10, z + p)
  {
    hide Pow;
    if p >= 0 {
      PowersCancel(m, z, p);
    } else {
      if z + p >= 0 {
        PowersCancel(m, z + p, -p);
        PowPositive(-p);
        Cancel(v, m * Pow(10, z + p), Pow(10, -p));
      } else {
        var k := -p - z - 1;
        PowersCancel(v, k + 1, z);
        PowPositive(z);
        Cancel(v * Pow(10, k + 1), m, Pow(10, z));
        TimesTenMod(v, m, k);
      }
    }
  }

  lemma PowPositive(k: nat)
    ensures Pow(10, k) > 0
  {
  }

  lemma BoundIsPower()
    ensures Pow(10, 18) == BOUND
  {
    assert Pow(10, 6) == 1_000_000;
    assert Pow(10, 12) == 1_000_000_000_000;
  }

  lemma {:induction false} BelowBound(m: nat, e: nat)
    requires m > 0 && m * Pow(10, e) < BOUND
    ensures e < 18
  {
    hide Pow;
    if e >= 18 {
      BoundIsPower();
      PowMono(10, 18, e);
      MulLe(1, m, Pow(10, e));
    }
  }

  /** Every literal whose scaled value is a nonzero integer below 10^18 is accepted, with that value. */
  lemma {:induction false} NonzeroIsAccepted(n: Literal, decimals: int, v: int)
    requires Valid(n) && IsScaled(n, decimals, v) && v != 0 && InRange(v)
    ensures Accepts(n, decimals) && v == Amount(n, decimals)
  {
    hide Pow, Decimal, Strip, Denotes, SignedExp, Mantissa;
    MantissaIs(n);
    var d := Mantissa(n);
    var p := SignedExp(n.mark, n.exp) - |n.frac| + decimals;
    var c := d.mantissa * Pow(10, d.tzeros);
    Negated(c, p, -v);
    Positive(c, p, Signed(n.neg, v));
    ScaledUnique(d.mantissa, d.tzeros, p, Signed(n.neg, v));
    BelowBound(d.mantissa, d.tzeros + p);
  }

  lemma Positive(c: nat, p: int, v: int)
    requires Denotes(c, p, v) && v != 0
    ensures v > 0 && c > 0
  {
    hide Pow;
    PowPositive(if p >= 0 then p else -p);
    if p < 0 && v < 0 { MulLe(v, -1, Pow(10, -p)); }
  }

  /** Zero is accepted only when the written exponent plus the decimals is within 0 .. 17. */
  lemma {:induction false} ZeroAcceptance(n: Literal, decimals: int)
    requires Valid(n) && Mantissa(n).mantissa == 0
    ensures Accepts(n, decimals) <==> 0 <= SignedExp(n.mark, n.exp) + decimals < 18
    ensures IsScaled(n, decimals, 0)
  {
    hide Pow, Decimal, Strip, SignedExp, Mantissa;
    MantissaIs(n);
  }

  // ----- The parser -----

  /** Once m * 10^i exceeds a tenth of the bound, one more factor of ten leaves it. */
  lemma {:induction false} TooBig(m: nat, i: nat, k: nat)
    requires i < k && m * Pow(10, i) > TENTH
    ensures m * Pow(10, k) >= BOUND
  {
    hide Pow;
    PowStep(i);
    PowMono(10, i + 1, k);
    MulLe(Pow(10, i + 1), Pow(10, k), m);
    assert m * (10 * Pow(10, i)) == 10 * (m * Pow(10, i));
  }

  lemma TimesTen(m: nat, i: nat)
    ensures m * Pow(10, i + 1) == 10 * (m * Pow(10, i))
  {
  }

  method ProcessMantissaDigit(ch: char, mantissa: Int64, tzeros: Int32) returns (ok: bool, m: Int64, tz: Int32)
    requires IsDigit(ch) && 0 <= mantissa < BOUND && 0 <= tzeros < 0x7fff_ffff
    ensures m >= 0 && tz >= 0
    ensures ok <==> Push(Digits(mantissa, tzeros), ch).mantissa < BOUND
    ensures ok ==> Digits(m, tz) == Push(Digits(mantissa, tzeros), ch)
  {
    hide Pow;
    m, tz := mantissa, tzeros;
    if ch == '0' {
      return true, m, tz + 1;
    }
    var i := 0;
    PowZero();
    while i <= tzeros
      invariant 0 <= i <= tzeros + 1 && m == mantissa * Pow(10, i) && 0 <= m < BOUND
      invariant i > 0 ==> m <= 10 * TENTH
    {
      TimesTen(mantissa, i);
      if m > TENTH {
        TooBig(mantissa, i, tzeros + 1);
        return false, m, tz;
      }
      m := m * 10;
      i := i + 1;
    }
    return true, m + DigitVal(ch), 0;
  }

  /** The digits from start to ptr have been read after the ones in read. */
  ghost predicate Reading(val: string, start: nat, ptr: nat, read: string, m: int, tz: int) {
    && start <= ptr <= |val| && RunEnd(val, ptr) == RunEnd(val, start)
    && AllDigits(read + val[start..ptr])
    && 0 <= m < BOUND && 0 <= tz <= ptr && Strip(read + val[start..ptr]) == Digits(m, tz)
  }

  /** The digits read and the run at start do not fit. */
  ghost predicate Overflows(val: string, start: nat, read: string)
    requires start <= |val|
  {
    && AllDigits(read + val[start..RunEnd(val, start)])
    && Strip(read + val[start..RunEnd(val, start)]).mantissa >= BOUND
  }

  lemma {:induction false} ReadingStarts(val: string, start: nat, read: string)
    requires |read| <= start <= |val| && AllDigits(read) && Strip(read).mantissa < BOUND
    ensures Reading(val, start, start, read, Strip(read).mantissa, Strip(read).tzeros)
  {
    hide RunEnd, Strip;
    StripValue(read);
    assert read + val[start..start] == read;
  }

  lemma {:induction false} ReadingStep(val: string, start: nat, ptr: nat, read: string, m: nat, tz: nat)
    requires Reading(val, start, ptr, read, m, tz) && ptr < |val| && IsDigit(val[ptr]) && |read| <= start && AllDigits(read)
    ensures var d := Push(Digits(m, tz), val[ptr]);
      if d.mantissa < BOUND then Reading(val, start, ptr + 1, read, d.mantissa, d.tzeros) else Overflows(val, start, read)
  {
    hide RunEnd, Strip, Push, AllDigits;
    RunStep(val, ptr);
    ReadOne(val, start, ptr, RunEnd(val, start), read);
  }

  /** A loop over the digits at start, after the digits already read. */
  method ScanMantissa(val: string, start: nat, mantissa: Int64, tzeros: Int32, ghost read: string)
    returns (ok: bool, ptr: nat, m: Int64, tz: Int32)
    requires |read| <= start <= |val| < 0x8000_0000 && AllDigits(read) && 0 <= mantissa < BOUND && 0 <= tzeros
    requires Strip(read) == Digits(mantissa, tzeros)
    ensures ok ==> Reading(val, start, ptr, read, m, tz) && ptr == RunEnd(val, start)
    ensures !ok ==> Overflows(val, start, read)
  {
    hide RunEnd, Push, Strip, AllDigits, Overflows;
    ok, ptr, m, tz := true, start, mantissa, tzeros;
    ReadingStarts(val, start, read);
    while ptr < |val| && IsDigit(val[ptr])
      invariant Reading(val, start, ptr, read, m, tz)
    {
      ReadingStep(val, start, ptr, read, m, tz);
      ok, m, tz := ProcessMantissaDigit(val[ptr], m, tz);
      if !ok { return; }
      ptr := ptr + 1;
    }
    RunStops(val, ptr);
  }

  lemma RunStops(s: string, i: nat)
    requires i <= |s| && (i < |s| ==> !IsDigit(s[i]))
    ensures RunEnd(s, i) == i
  {
  }

  lemma RunStep(s: string, i: nat)
    requires i < |s| && IsDigit(s[i])
    ensures RunEnd(s, i) == RunEnd(s, i + 1)
  {
  }

  /** One digit more, and what its overflow means for the whole run. */
  lemma {:induction false} ReadOne(s: string, i: nat, k: nat, end: nat, read: string)
    requires i <= k < end <= |s| && AllDigits(read) && AllDigits(s[i..end]) && |read| <= i
    ensures AllDigits(read + s[i..k]) && AllDigits(read + s[i..k + 1]) && AllDigits(read + s[i..end])
    ensures Strip(read + s[i..k + 1]) == Push(Strip(read + s[i..k]), s[k])
    ensures Strip(read + s[i..k + 1]).mantissa <= Strip(read + s[i..end]).mantissa
    ensures Strip(read + s[i..k + 1]).tzeros <= k + 1
  {
    hide Push, Pow;
    assert s[i..end] == s[i..k + 1] + s[k + 1..end];
    DigitsSplit(s[i..k + 1], s[k + 1..end]);
    DigitsJoin(read, s[i..k + 1]);
    DigitsJoin(read, s[i..end]);
    var t := read + s[i..k + 1];
    assert t[..|t| - 1] == read + s[i..k];
    var more := s[k + 1..end];
    StripMono(t, more);
    assert t + more == read + s[i..end];
    StripValue(t);
  }

  lemma DigitsSplit(a: string, b: string)
    requires AllDigits(a + b)
    ensures AllDigits(a) && AllDigits(b)
  {
    assert forall j :: 0 <= j < |a| ==> a[j] == (a + b)[j];
    assert forall j :: 0 <= j < |b| ==> b[j] == (a + b)[|a| + j];
  }

  /** The digits read fit the mantissa, with this mantissa and these trailing zeros. */
  ghost predicate Fit(read: string, m: int, tz: int) {
    AllDigits(read) && 0 <= m < BOUND && 0 <= tz && Strip(read) == Digits(m, tz)
  }

  ghost predicate Misfit(read: string) {
    AllDigits(read) && Strip(read).mantissa >= BOUND
  }

  /** The sign and the integer part. */
  method ParseWhole(val: string) returns (ok: bool, neg: bool, ptr: nat, m: Int64, tz: Int32)
    requires |val| < 0x8000_0000
    ensures neg == (SignEnd(val) == 1)
    ensures ok ==> SignEnd(val) < ptr == WholeEnd(val, SignEnd(val)) && Fit(Kept(val[SignEnd(val)..ptr]), m, tz)
    ensures !ok ==> var i := SignEnd(val); WholeEnd(val, i) == i || Misfit(Kept(val[i..WholeEnd(val, i)]))
  {
    hide RunEnd, Strip, AllDigits;
    ok, neg, ptr, m, tz := true, false, 0, 0, 0;
    if ptr < |val| && val[ptr] == '-' {
      neg, ptr := true, 1;
    }
    NothingRead();
    ghost var i := ptr;
    if ptr < |val| {
      if val[ptr] == '0' {
        ptr := ptr + 1;
        assert val[i..ptr] == "0";
      } else if '1' <= val[ptr] <= '9' {
        ok, ptr, m, tz := ScanMantissa(val, ptr, 0, 0, "");
        assert "" + val[i..RunEnd(val, i)] == Kept(val[i..RunEnd(val, i)]) by { KeptRun(val, i); }
        RunGoes(val, i);
      } else {
        RunStops(val, i);
        ok := false;
      }
    } else {
      RunStops(val, i);
      ok := false;
    }
  }

  lemma NothingRead()
    ensures AllDigits("") && Strip("") == Digits(0, 0)
  {
  }

  lemma KeptRun(s: string, i: nat)
    requires i < |s| && '1' <= s[i] <= '9'
    ensures "" + s[i..RunEnd(s, i)] == Kept(s[i..RunEnd(s, i)])
  {
    hide RunEnd;
    RunGoes(s, i);
    assert s[i..RunEnd(s, i)][0] == s[i];
  }

  lemma RunGoes(s: string, i: nat)
    requires i < |s| && IsDigit(s[i])
    ensures RunEnd(s, i) > i
  {
  }

  /** The fraction, if there is a point. */
  method ParseFraction(val: string, j: nat, mantissa: Int64, tzeros: Int32, ghost read: string)
    returns (ok: bool, ptr: nat, m: Int64, tz: Int32, pointOfs: Int32)
    requires |read| <= j <= |val| < 0x8000_0000 && Fit(read, mantissa, tzeros)
    ensures ok ==> FracEnd(val, j) == Some(ptr) && pointOfs == |FracDigits(val, j, ptr)| && Fit(read + FracDigits(val, j, ptr), m, tz)
    ensures !ok ==> FracEnd(val, j).None? || Misfit(read + FracDigits(val, j, FracEnd(val, j).value))
  {
    hide RunEnd, Strip, AllDigits;
    ok, ptr, m, tz, pointOfs := true, j, mantissa, tzeros, 0;
    if ptr < |val| && val[ptr] == '.' {
      ptr := ptr + 1;
      if ptr < |val| && IsDigit(val[ptr]) {
        RunGoes(val, ptr);
        ok, ptr, m, tz := ScanMantissa(val, ptr, m, tz, read);
        pointOfs := if ok then ptr - (j + 1) else 0;
      } else {
        RunStops(val, ptr);
        ok := false;
      }
    } else {
      assert read + "" == read;
    }
  }

  ghost predicate ExponentIs(r: Option<Rest>, neg: bool, e: int) {
    && r.Some? && AllDigits(r.value.exp) && 0 <= e < BOUND && e == Decimal(r.value.exp)
    && neg == (|r.value.mark| == 2 && r.value.mark[1] == '-')
  }

  ghost predicate ExponentBad(r: Option<Rest>) {
    r.Some? ==> AllDigits(r.value.exp) && Decimal(r.value.exp) >= BOUND
  }

  /** The exponent, if there is one, and the end of the string. */
  method ParseExponent(val: string, k: nat) returns (ok: bool, neg: bool, exponent: Int64)
    requires k <= |val| < 0x8000_0000
    ensures if ok then ExponentIs(LexRest(val, k), neg, exponent) else ExponentBad(LexRest(val, k))
  {
    hide RunEnd, Decimal, AllDigits;
    ok, neg, exponent := true, false, 0;
    var ptr := k;
    NoExponent();
    if ptr < |val| && (val[ptr] == 'e' || val[ptr] == 'E') {
      ptr := ptr + 1;
      if ptr < |val| && val[ptr] == '+' {
        ptr := ptr + 1;
      } else if ptr < |val| && val[ptr] == '-' {
        neg, ptr := true, ptr + 1;
      }
      assert ptr == MarkEnd(val, k);
      if ptr < |val| && IsDigit(val[ptr]) {
        ghost var l := ptr;
        ok, ptr, exponent := ScanExponent(val, ptr);
        RunGoes(val, l);
        assert val[l..RunEnd(val, l)] == val[l..] || RunEnd(val, l) != |val|;
      } else {
        RunStops(val, ptr);
        ok := false;
      }
    }
    if ptr != |val| {
      ok := false;
    }
  }

  lemma NoExponent()
    ensures AllDigits("") && Decimal("") == 0
  {
  }

  method ScanExponent(val: string, start: nat) returns (ok: bool, ptr: nat, exponent: Int64)
    requires start <= |val|
    ensures exponent >= 0
    ensures ok ==> ptr == RunEnd(val, start) && exponent == Decimal(val[start..ptr]) < BOUND
    ensures !ok ==> Decimal(val[start..RunEnd(val, start)]) >= BOUND
  {
    hide RunEnd, Decimal, AllDigits;
    ok, ptr, exponent := true, start, 0;
    ghost var end := RunEnd(val, start);
    NoExponent();
    assert val[start..start] == "";
    while ptr < |val| && IsDigit(val[ptr])
      invariant start <= ptr <= end && RunEnd(val, ptr) == end
      invariant AllDigits(val[start..ptr]) && 0 <= exponent == Decimal(val[start..ptr]) < BOUND
    {
      RunStep(val, ptr);
      DecimalStep(val, start, ptr, end);
      if exponent > TENTH {
        return false, ptr, exponent;
      }
      exponent := exponent * 10 + val[ptr] as int - '0' as int;
      ptr := ptr + 1;
    }
    RunStops(val, ptr);
  }

  lemma {:induction false} DecimalStep(s: string, i: nat, k: nat, end: nat)
    requires i <= k < end <= |s| && AllDigits(s[i..end])
    ensures AllDigits(s[i..k]) && AllDigits(s[i..k + 1])
    ensures Decimal(s[i..k + 1]) == 10 * Decimal(s[i..k]) + DigitVal(s[k])
    ensures Decimal(s[i..k + 1]) <= Decimal(s[i..end])
  {
    var t := s[i..k + 1];
    assert s[i..end] == t + s[k + 1..end];
    DigitsSplit(t, s[k + 1..end]);
    assert t == s[i..k] + [s[k]];
    DigitsSplit(s[i..k], [s[k]]);
    assert t[..|t| - 1] == s[i..k];
    DecimalMono(t, s[k + 1..end]);
  }

  lemma {:induction false} DecimalMono(s: string, t: string)
    requires AllDigits(s) && AllDigits(t)
    ensures AllDigits(s + t) && Decimal(s) <= Decimal(s + t)
  {
    if t == "" {
      assert s + t == s;
    } else {
      DecimalMono(s, t[..|t| - 1]);
      assert (s + t)[..|s + t| - 1] == s + t[..|t| - 1];
    }
  }

  /** Multiplies the mantissa by 10^e. */
  method Scale(mantissa: Int64, e: Int64) returns (ok: bool, m: Int64)
    requires -BOUND < mantissa < BOUND && 0 <= e < 18
    ensures ok <==> InRange(mantissa * Pow(10, e))
    ensures ok ==> m == mantissa * Pow(10, e)
  {
    hide Pow;
    PowZero();
    m := mantissa;
    var i := 0;
    while i < e
      invariant 0 <= i <= e && m == mantissa * Pow(10, i) && -BOUND < m < BOUND
    {
      if m > TENTH || m < -TENTH {
        ghost var abs := if mantissa < 0 then -mantissa else mantissa;
        NegTimes(mantissa, Pow(10, i));
        NegTimes(mantissa, Pow(10, e));
        TooBig(abs, i, e);
        return false, m;
      }
      TenTimes(mantissa, i);
      m := m * 10;
      i := i + 1;
    }
    ok := !(m > UPPER_BOUND || m < -UPPER_BOUND);
  }

  lemma NegTimes(m: int, k: nat)
    ensures (-m) * k == -(m * k)
    ensures m >= 0 ==> m * k >= 0
    ensures m <= 0 ==> m * k <= 0
  {
  }

  lemma TenTimes(m: int, i: nat)
    ensures m * Pow(10, i + 1) == 10 * (m * Pow(10, i))
  {
    PowStep(i);
    assert m * (10 * Pow(10, i)) == 10 * (m * Pow(10, i));
  }

  // ----- The whole parser -----

  ghost predicate Outcome(val: string, decimals: int, ok: bool, amount: int) {
    match Lex(val)
    case None => !ok
    case Some(n) => Valid(n) && (ok <==> Accepts(n, decimals)) && (ok ==> amount == Amount(n, decimals))
  }

  lemma {:induction false} BigMantissa(n: Literal, decimals: int)
    requires Valid(n) && Mantissa(n).mantissa >= BOUND
    ensures !Accepts(n, decimals)
  {
    hide Pow, Mantissa, Exponent, Valid;
    if Exponent(n, decimals) >= 0 {
      PowPositive(Exponent(n, decimals));
      MulLe(1, Pow(10, Exponent(n, decimals)), Mantissa(n).mantissa);
    }
  }

  /** In a short string a huge exponent cannot be compensated by the digits. */
  lemma {:induction false} BigExponent(n: Literal, decimals: Int32)
    requires Valid(n) && |Text(n)| < 0x8000_0000 && Decimal(n.exp) >= BOUND
    ensures !Accepts(n, decimals)
  {
    hide Pow, Mantissa, Decimal;
    MantissaIs(n);
  }

  lemma {:induction false} RejectWhole(val: string, decimals: int)
    requires var i := SignEnd(val); WholeEnd(val, i) == i || Misfit(Kept(val[i..WholeEnd(val, i)]))
    ensures Outcome(val, decimals, false, 0)
  {
    hide WholeEnd, FracEnd, FracDigits, LexRest, Valid, Accepts, Strip, AllDigits;
    if Lex(val).Some? {
      var n := Lex(val).value;
      LexSound(val);
      FracDigitsAre(n);
      StripMono(Kept(n.whole), n.frac);
      BigMantissa(n, decimals);
    }
  }

  lemma FracDigitsAre(n: Literal)
    requires Valid(n)
    ensures AllDigits(n.frac)
  {
  }

  lemma {:induction false} RejectFraction(val: string, decimals: int)
    requires var i := SignEnd(val); var j := WholeEnd(val, i);
      FracEnd(val, j).None? || Misfit(Kept(val[i..j]) + FracDigits(val, j, FracEnd(val, j).value))
    ensures Outcome(val, decimals, false, 0)
  {
    hide WholeEnd, FracEnd, FracDigits, LexRest, Valid, Accepts, Strip, AllDigits;
    if Lex(val).Some? {
      var n := Lex(val).value;
      LexSound(val);
      BigMantissa(n, decimals);
    }
  }

  lemma {:induction false} RejectExponent(val: string, decimals: Int32, h: Head)
    requires |val| < 0x8000_0000 && LexHead(val) == Some(h) && ExponentBad(LexRest(val, h.next))
    ensures Outcome(val, decimals, false, 0)
  {
    hide LexHead, LexRest, Valid, Accepts, Strip, AllDigits, Decimal, Text;
    if Lex(val).Some? {
      LexSound(val);
      BigExponent(Lex(val).value, decimals);
    }
  }

  /** The values the parser holds once the whole string is read. */
  lemma {:induction false} Decide(val: string, decimals: int, h: Head, m: nat, tz: nat, eneg: bool, e: nat)
    requires LexHead(val) == Some(h) && Fit(Significant(h.whole, h.frac), m, tz)
    requires ExponentIs(LexRest(val, h.next), eneg, e)
    ensures Lex(val).Some?
    ensures var n := Lex(val).value;
      Valid(n) && n.neg == h.neg && Mantissa(n) == Digits(m, tz) && Exponent(n, decimals) == Signed(eneg, e) - |h.frac| + tz + decimals
  {
    hide LexHead, LexRest, Valid, Strip, AllDigits, Decimal, Text;
    LexSound(val);
  }

  /** InRange of the signed mantissa is the bound on the unsigned one. */
  lemma SignedProduct(neg: bool, m: nat, k: nat)
    ensures Signed(neg, m) * k == Signed(neg, m * k) && (InRange(Signed(neg, m) * k) <==> m * k < BOUND)
  {
    NegTimes(m, k);
  }

  /** ParseFixedPoint, against the grammar: what is accepted, and with which value. */
  method ParseFixedPoint(val: string, decimals: Int32) returns (ok: bool, amount: Int64)
    requires |val| < 0x8000_0000
    ensures Outcome(val, decimals, ok, amount)
  {
    hide Outcome, WholeEnd, FracEnd, FracDigits, LexRest, Fit, Misfit, ExponentBad, SignEnd, Kept, Pow, ExponentIs;
    amount := 0;
    var neg, eneg, ptr, mantissa, tzeros, pointOfs, exponent;
    ok, neg, ptr, mantissa, tzeros := ParseWhole(val);
    if !ok {
      RejectWhole(val, decimals);
      return;
    }
    ghost var whole := val[SignEnd(val)..ptr];
    KeptShort(whole);
    ok, ptr, mantissa, tzeros, pointOfs := ParseFraction(val, ptr, mantissa, tzeros, Kept(whole));
    if !ok {
      RejectFraction(val, decimals);
      return;
    }
    ghost var h := LexHead(val).value;
    ok, eneg, exponent := ParseExponent(val, ptr);
    if !ok {
      RejectExponent(val, decimals, h);
      return;
    }
    Bounds(Significant(h.whole, h.frac), mantissa, tzeros, LexRest(val, ptr), eneg, exponent);
    Decide(val, decimals, h, mantissa, tzeros, eneg, exponent);
    ok, amount := Convert(val, decimals, neg, mantissa, tzeros, pointOfs, eneg, exponent);
  }

  lemma KeptShort(whole: string)
    ensures |Kept(whole)| <= |whole|
  {
  }

  lemma {:induction false} Bounds(read: string, m: int, tz: int, r: Option<Rest>, eneg: bool, e: int)
    requires Fit(read, m, tz) && ExponentIs(r, eneg, e)
    ensures 0 <= m < BOUND && 0 <= tz <= |read| && 0 <= e < BOUND
  {
    hide Strip, Decimal;
    StripValue(read);
  }

  /** Finalize exponent and mantissa, and convert to one 64-bit value. */
  method Convert(ghost val: string, decimals: Int32, neg: bool, m: Int64, tz: Int32, pointOfs: Int32, eneg: bool, e: Int64)
    returns (ok: bool, amount: Int64)
    requires 0 <= m < BOUND && 0 <= tz && 0 <= pointOfs && 0 <= e < BOUND && Lex(val).Some?
    requires var n := Lex(val).value;
      Valid(n) && n.neg == neg && Mantissa(n) == Digits(m, tz) && Exponent(n, decimals) == Signed(eneg, e) - pointOfs + tz + decimals
    ensures Outcome(val, decimals, ok, amount)
  {
    hide Valid, Mantissa, Exponent, Lex, Pow, InRange;
    ok, amount := false, 0;
    var mantissa, exponent := m, e;
    if eneg { exponent := -exponent; }
    exponent := exponent - pointOfs + tz;
    if neg { mantissa := -mantissa; }
    exponent := exponent + decimals;
    if exponent < 0 || exponent >= 18 {
      return;
    }
    SignedProduct(neg, m, Pow(10, exponent));
    ok, amount := Scale(mantissa, exponent);
  }

  /** What an outcome means in terms of the grammar alone. */
  lemma {:induction false} OutcomeMeans(val: string, decimals: int, ok: bool, amount: int, n: Literal)
    requires Outcome(val, decimals, ok, amount)
    ensures ok ==> exists n :: Valid(n) && Text(n) == val && IsScaled(n, decimals, amount) && InRange(amount)
    ensures Valid(n) && Text(n) == val && ok ==> IsScaled(n, decimals, amount) && InRange(amount)
    ensures Valid(n) && Text(n) == val && Mantissa(n).mantissa == 0 ==> (ok <==> 0 <= SignedExp(n.mark, n.exp) + decimals < 18)
    ensures Valid(n) && Text(n) == val && Mantissa(n).mantissa != 0 ==>
      (ok <==> exists v :: IsScaled(n, decimals, v) && InRange(v))
  {
    hide Valid, Text, Lex, IsScaled, Accepts, Amount, Mantissa, SignedExp;
    if ok {
      var n := Lex(val).value;
      LexIsGrammar(val, n);
      AcceptedIsExact(n, decimals);
    }
    LexIsGrammar(val, n);
    if Valid(n) && Text(n) == val {
      if Mantissa(n).mantissa == 0 {
        ZeroAcceptance(n, decimals);
      } else if v :| IsScaled(n, decimals, v) && InRange(v) {
        NonzeroValue(n, decimals, v);
        NonzeroIsAccepted(n, decimals, v);
      }
    }
  }

  lemma {:induction false} NonzeroValue(n: Literal, decimals: int, v: int)
    requires Valid(n) && IsScaled(n, decimals, v) && Mantissa(n).mantissa != 0
    ensures v != 0
  {
    hide Pow, Decimal, Strip, SignedExp, Mantissa;
    MantissaIs(n);
    PowPositive(Mantissa(n).tzeros);
    MulLe(1, Mantissa(n).mantissa, Pow(10, Mantissa(n).tzeros));
  }

  /** A whole number below 10^18 in magnitude, written out, is parsed to itself times 10^decimals, if that stays below 10^18. */
  lemma {:induction false} WholeNumbers(n: nat, neg: bool, decimals: nat)
    requires n > 0
    ensures var l := Literal(neg, DecimalText(n), "", "", "");
      Valid(l) && (Signed(neg, n * Pow(10, decimals)) < BOUND && -BOUND < Signed(neg, n * Pow(10, decimals)) ==>
        Accepts(l, decimals) && Amount(l, decimals) == Signed(neg, n * Pow(10, decimals)))
  {
    hide Pow, Accepts, Amount, Decimal, DecimalText;
    DecimalOfText(n);
    FirstDigit(n);
    var l := Literal(neg, DecimalText(n), "", "", "");
    assert Valid(l);
    assert l.whole + l.frac == DecimalText(n);
    NoExponent();
    var v := Signed(neg, n * Pow(10, decimals));
    NegTimes(n, Pow(10, decimals));
    assert IsScaled(l, decimals, v);
    PowPositive(decimals);
    MulLe(1, n, Pow(10, decimals));
    if -BOUND < v < BOUND { NonzeroIsAccepted(l, decimals, v); }
  }

  lemma {:induction false} FirstDigit(n: nat)
    requires n > 0
    ensures DecimalText(n)[0] != '0'
  {
    if n >= 10 { FirstDigit(n / 10); }
  }
}
