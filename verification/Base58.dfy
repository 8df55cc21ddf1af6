/** EncodeBase58 and DecodeBase58 of primitives/base58.cpp. */
module Base58 {
  import opened Options
  import opened Powers
  import opened Radix

  /** n consecutive characters. */
  function Run(first: char, n: nat): string
    requires first as int + n < 128
  {
    seq(n, i requires 0 <= i < n => first + i as char)
  }

  /** All alphanumeric characters except 0, I, O and l. */
  const ALPHABET: string := Run('1', 9) + Run('A', 8) + Run('J', 5) + Run('P', 11) + Run('a', 11) + Run('m', 14)

  lemma AlphabetRuns()
    ensures Run('1', 9) == "123456789" && Run('A', 8) == "ABCDEFGH" && Run('J', 5) == "JKLMN"
    ensures Run('P', 11) == "PQRSTUVWXYZ" && Run('a', 11) == "abcdefghijk" && Run('m', 14) == "mnopqrstuvwxyz"
  {
  }

  lemma AlphabetIs()
    ensures ALPHABET == "123456789ABCDEFGHJKLMNPQRSTUVWXYZabcdefghijkmnopqrstuvwxyz"
  {
    AlphabetRuns();
    hide Run;
    assert "123456789" + "ABCDEFGH" == "123456789ABCDEFGH";
    assert "123456789ABCDEFGH" + "JKLMN" == "123456789ABCDEFGHJKLMN";
    assert "123456789ABCDEFGHJKLMN" + "PQRSTUVWXYZ" == "123456789ABCDEFGHJKLMNPQRSTUVWXYZ";
    assert "123456789ABCDEFGHJKLMNPQRSTUVWXYZ" + "abcdefghijk" == "123456789ABCDEFGHJKLMNPQRSTUVWXYZabcdefghijk";
    assert "123456789ABCDEFGHJKLMNPQRSTUVWXYZabcdefghijk" + "mnopqrstuvwxyz"
        == "123456789ABCDEFGHJKLMNPQRSTUVWXYZabcdefghijkmnopqrstuvwxyz";
  }

  // ----- Buffer sizes -----

  lemma {:induction false} PowPow(b: nat, m: nat, n: nat)
    ensures Pow(Pow(b, m), n) == Pow(b, m * n)
  {
    if n > 0 {
      PowPow(b, m, n - 1);
      PowAdd(b, m, m * (n - 1));
      assert m * n == m + m * (n - 1);
    } else {
      assert m * 0 == 0;
    }
  }

  lemma {:induction false} PowBaseMono(a: nat, b: nat, n: nat)
    requires a <= b
    ensures Pow(a, n) <= Pow(b, n)
  {
    if n > 0 {
      PowBaseMono(a, b, n - 1);
      MulLe(a, b, Pow(a, n - 1));
      MulLe(Pow(a, n - 1), Pow(b, n - 1), b);
      assert Pow(a, n - 1) * b == b * Pow(a, n - 1) && Pow(b, n - 1) * b == b * Pow(b, n - 1);
    }
  }

  lemma {:induction false} PowBaseStrict(a: nat, b: nat, n: nat)
    requires a < b && n > 0
    ensures Pow(a, n) < Pow(b, n)
  {
    PowBaseMono(a, b, n - 1);
    assert Pow(b, n - 1) > 0;
    MulLe(a, b - 1, Pow(a, n - 1));
    MulLe(Pow(a, n - 1), Pow(b, n - 1), b - 1);
    assert Pow(a, n - 1) * (b - 1) == (b - 1) * Pow(a, n - 1);
    assert (b - 1) * Pow(b, n - 1) == b * Pow(b, n - 1) - Pow(b, n - 1);
    assert Pow(b, n - 1) * (b - 1) == (b - 1) * Pow(b, n - 1);
  }

  /** If p/q digits of base a are worth one digit of base b, then any m > p*n/q of them are worth n. */
  lemma {:induction false} RationalBound(a: nat, b: nat, p: nat, q: nat, n: nat, m: nat)
    requires a > 0 && q > 0 && Pow(a, p) >= Pow(b, q) && q * m >= p * n
    ensures Pow(a, m) >= Pow(b, n)
  {
    hide Pow;
    PowMono(a, p * n, q * m);
    PowPow(a, p, n);
    PowBaseMono(Pow(b, q), Pow(a, p), n);
    PowPow(b, q, n);
    PowPow(a, m, q);
    PowPow(b, n, q);
    assert m * q == q * m && n * q == q * n;
    if Pow(a, m) < Pow(b, n) { PowBaseStrict(Pow(a, m), Pow(b, n), q); }
  }

  /** 58^138 >= 256^100, from 58^5 >= 2^29 and 58^3 >= 2^17. */
  lemma {:induction false} EncodeRatio()
    ensures Pow(58, 138) >= Pow(256, 100)
  {
    SmallPowers();
    hide Pow;
    PowBaseMono(Pow(2, 29), Pow(58, 5), 27);
    PowPow(2, 29, 27);
    PowPow(58, 5, 27);
    PowAdd(58, 135, 3);
    PowAdd(2, 783, 17);
    MulLe(Pow(2, 783), Pow(58, 135), Pow(2, 17));
    MulLe(Pow(2, 17), Pow(58, 3), Pow(58, 135));
    assert Pow(58, 135) * Pow(2, 17) == Pow(2, 17) * Pow(58, 135);
    assert Pow(58, 135) * Pow(58, 3) == Pow(58, 3) * Pow(58, 135);
    PowPow(2, 8, 100);
  }

  /** 256^733 >= 58^1000, from 58^22 <= 2^129 and 58^10 <= 2^59. */
  lemma {:induction false} DecodeRatio()
    ensures Pow(256, 733) >= Pow(58, 1000)
  {
    SmallPowers();
    LargerPowers();
    hide Pow;
    PowBaseMono(Pow(58, 22), Pow(2, 129), 45);
    PowPow(58, 22, 45);
    PowPow(2, 129, 45);
    PowAdd(58, 990, 10);
    PowAdd(2, 5805, 59);
    MulLe(Pow(58, 990), Pow(2, 5805), Pow(58, 10));
    MulLe(Pow(58, 10), Pow(2, 59), Pow(2, 5805));
    assert Pow(2, 5805) * Pow(58, 10) == Pow(58, 10) * Pow(2, 5805);
    assert Pow(2, 5805) * Pow(2, 59) == Pow(2, 59) * Pow(2, 5805);
    PowPow(2, 8, 733);
  }

  lemma SmallPowers()
    ensures Pow(2, 8) == 256 && Pow(2, 17) == 131072 && Pow(2, 29) == 536870912
    ensures Pow(58, 3) == 195112 && Pow(58, 5) == 656356768
  {
    assert Pow(2, 8) == 256;
    assert Pow(2, 16) == 65536;
    assert Pow(2, 24) == 16777216;
  }

  lemma {:induction false} LargerPowers()
    ensures Pow(58, 22) <= Pow(2, 129) && Pow(58, 10) <= Pow(2, 59)
  {
    SmallPowers();
    hide Pow;
    PowAdd(58, 5, 5);
    PowAdd(58, 10, 10);
    PowAdd(58, 20, 2);
    PowAdd(2, 29, 29);
    PowAdd(2, 58, 1);
    PowAdd(2, 58, 58);
    PowAdd(2, 116, 8);
    PowAdd(2, 124, 5);
    FirstPowers();
  }

  lemma FirstPowers()
    ensures Pow(2, 1) == 2 && Pow(2, 5) == 32 && Pow(58, 2) == 3364
  {
  }

  // ----- Characters -----

  /** strchr: position of the first c at or after i. */
  function IndexOf(s: string, c: char, i: nat): Option<nat>
    requires i <= |s|
    decreases |s| - i
  {
    if i == |s| then None else if s[i] == c then Some(i) else IndexOf(s, c, i + 1)
  }

  function DigitOf(c: char): Option<nat> {
    IndexOf(ALPHABET, c, 0)
  }

  function CharOf(d: nat): char {
    if d < 58 then ALPHABET[d] else '1'
  }

  lemma AlphabetIncreases(i: nat, j: nat)
    requires i < j < 58
    ensures |ALPHABET| == 58 && '0' < ALPHABET[i] < ALPHABET[j]
  {
  }

  lemma {:induction false} IndexOfIs(s: string, i: nat, c: char)
    requires i <= |s|
    ensures IndexOf(s, c, i).Some? ==> i <= IndexOf(s, c, i).value < |s| && s[IndexOf(s, c, i).value] == c
    ensures IndexOf(s, c, i).None? ==> c !in s[i..]
    decreases |s| - i
  {
    if i < |s| {
      IndexOfIs(s, i + 1, c);
      assert s[i..] == [s[i]] + s[i + 1..];
    }
  }

  /** The alphabet is a bijection between digits and its characters. */
  lemma {:induction false} DigitChar(d: nat)
    requires d < 58
    ensures DigitOf(CharOf(d)) == Some(d)
  {
    hide IndexOf, Run;
    AlphabetIncreases(0, 1);
    IndexOfIs(ALPHABET, 0, ALPHABET[d]);
    assert ALPHABET[d] in ALPHABET[0..];
    var e := DigitOf(ALPHABET[d]).value;
    if e < d { AlphabetIncreases(e, d); }
    if d < e { AlphabetIncreases(d, e); }
  }

  lemma {:induction false} CharDigit(c: char)
    requires DigitOf(c).Some?
    ensures DigitOf(c).value < 58 && CharOf(DigitOf(c).value) == c && c > '0'
  {
    hide IndexOf, Run;
    AlphabetIncreases(0, 1);
    IndexOfIs(ALPHABET, 0, c);
    var i := DigitOf(c).value;
    if i > 0 { AlphabetIncreases(0, i); }
  }

  predicate IsSpace(c: char) {
    c == ' ' || c == '\t' || c == '\n' || c == '\r' || c == 11 as char || c == 12 as char
  }

  // ----- What the codec computes -----

  /** Number of leading zero bytes. */
  function Zeroes(v: seq<nat>): (z: nat)
    ensures z <= |v| && (forall i :: 0 <= i < z ==> v[i] == 0) && (z < |v| ==> v[z] != 0)
  {
    if v == [] || v[0] != 0 then 0 else 1 + Zeroes(v[1..])
  }

  function Chars(d: seq<nat>): string {
    seq(|d|, i requires 0 <= i < |d| => CharOf(d[i]))
  }

  /** One '1' per leading zero byte, then the base-58 digits of the rest. */
  function Encode(v: seq<nat>): string {
    seq(Zeroes(v), _ => '1') + Chars(ToDigits(Num(v, 256), 58))
  }

  predicate InAlphabet(s: string) {
    forall i :: 0 <= i < |s| ==> DigitOf(s[i]).Some?
  }

  function Digits(s: string): seq<nat>
    requires InAlphabet(s)
  {
    seq(|s|, i requires 0 <= i < |s| => DigitOf(s[i]).value)
  }

  /** Number of leading '1' characters. */
  function Ones(s: string): (z: nat)
    ensures z <= |s| && (forall i :: 0 <= i < z ==> s[i] == '1') && (z < |s| ==> s[z] != '1')
  {
    if s == [] || s[0] != '1' then 0 else 1 + Ones(s[1..])
  }

  /** A string is seen up to its terminator. */
  function CString(s: string): string {
    if s == [] || s[0] == '\0' then [] else [s[0]] + CString(s[1..])
  }

  function TrimLeft(s: string): string {
    if s != [] && IsSpace(s[0]) then TrimLeft(s[1..]) else s
  }

  function TrimRight(s: string): string {
    if s != [] && IsSpace(s[|s| - 1]) then TrimRight(s[..|s| - 1]) else s
  }

  function Trim(s: string): string {
    TrimRight(TrimLeft(CString(s)))
  }

  /** One zero byte per leading '1', then the bytes of the number the rest denotes. */
  function Decode(s: string): Option<seq<nat>> {
    var t := Trim(s);
    if !InAlphabet(t) then None
    else Some(seq(Ones(t), _ => 0) + ToDigits(Num(Digits(t), 58), 256))
  }

  // ----- Round trips -----

  lemma {:induction false} ZeroesOf(z: nat, d: seq<nat>)
    requires d != [] ==> d[0] != 0
    ensures var v := seq(z, _ => 0) + d;
            Zeroes(v) == z && v[z..] == d
  {
    var v := seq(z, _ => 0) + d;
    assert forall i :: 0 <= i < z ==> v[i] == 0;
    assert z < |v| ==> v[z] == d[0];
  }

  lemma {:induction false} OnesOf(z: nat, u: string)
    requires u != [] ==> u[0] != '1'
    ensures var s := seq(z, _ => '1') + u;
            Ones(s) == z && s[z..] == u
  {
    var s := seq(z, _ => '1') + u;
    assert forall i :: 0 <= i < z ==> s[i] == '1';
    assert z < |s| ==> s[z] == u[0];
  }

  lemma {:induction false} DigitsOfChars(d: seq<nat>)
    requires AreDigits(d, 58)
    ensures InAlphabet(Chars(d)) && Digits(Chars(d)) == d
  {
    hide IndexOf, CharOf, DigitOf;
    forall i | 0 <= i < |d|
      ensures DigitOf(Chars(d)[i]) == Some(d[i])
    {
      DigitChar(d[i]);
    }
  }

  lemma {:induction false} CharsOfDigits(s: string)
    requires InAlphabet(s)
    ensures AreDigits(Digits(s), 58) && Chars(Digits(s)) == s
  {
    hide IndexOf, CharOf, DigitOf;
    forall i | 0 <= i < |s|
      ensures Digits(s)[i] < 58 && CharOf(Digits(s)[i]) == s[i]
    {
      CharDigit(s[i]);
    }
  }

  lemma FirstChar()
    ensures CharOf(0) == '1' && DigitOf('1') == Some(0)
  {
    AlphabetIncreases(0, 1);
    DigitChar(0);
  }

  lemma {:induction false} NothingToTrim(s: string)
    requires InAlphabet(s)
    ensures Trim(s) == s
  {
    hide IndexOf, DigitOf;
    forall i | 0 <= i < |s|
      ensures s[i] > '0'
    {
      CharDigit(s[i]);
    }
    NoTerminator(s);
  }

  lemma {:induction false} NoTerminator(s: string)
    requires forall i :: 0 <= i < |s| ==> s[i] != '\0'
    ensures CString(s) == s
  {
    if s != [] {
      NoTerminator(s[1..]);
    }
  }

  /** Decoding what was encoded gives the bytes back, leading zeros included. */
  lemma {:induction false} DecodeEncode(v: seq<nat>)
    requires AreDigits(v, 256)
    ensures Decode(Encode(v)) == Some(v)
  {
    hide IndexOf, CharOf, DigitOf, Num, ToDigits, Trim;
    var z, n := Zeroes(v), Num(v, 256);
    var d := ToDigits(n, 58);
    LeadingZerosVanish(v, z, 256);
    DigitsUnique(v[z..], 256);
    DigitsOf(n, 58);
    DigitsOfChars(d);
    FirstChar();
    if n == 0 { NoDigits(58); NoDigits(256); }
    EncodedParts(z, d);
    var s := Encode(v);
    NothingToTrim(s);
    LeadingZerosVanish(Digits(s), z, 58);
    assert v == seq(z, _ => 0) + v[z..];
  }

  lemma NoDigits(b: nat)
    requires b >= 2
    ensures ToDigits(0, b) == []
  {
  }

  /** The digits of an encoded string: z zeros, then d. */
  lemma {:induction false} EncodedParts(z: nat, d: seq<nat>)
    requires AreDigits(d, 58) && (d != [] ==> d[0] != 0)
    ensures var s := seq(z, _ => '1') + Chars(d);
            && InAlphabet(s) && Ones(s) == z && Digits(s)[z..] == d
            && forall i :: 0 <= i < z ==> Digits(s)[i] == 0
  {
    hide IndexOf, CharOf, DigitOf;
    var s := seq(z, _ => '1') + Chars(d);
    DigitsOfChars(d);
    FirstChar();
    if d != [] { DigitChar(d[0]); }
    OnesOf(z, Chars(d));
    assert forall i :: 0 <= i < z ==> s[i] == '1';
    assert forall i :: z <= i < |s| ==> s[i] == Chars(d)[i - z];
    assert forall i :: 0 <= i < |d| ==> DigitOf(Chars(d)[i]).value == Digits(Chars(d))[i];
  }

  /** Every accepted string, without its surrounding white space, is the encoding of its value. */
  lemma {:induction false} EncodeDecode(s: string)
    requires Decode(s).Some?
    ensures AreDigits(Decode(s).value, 256) && Encode(Decode(s).value) == Trim(s)
  {
    hide IndexOf, CharOf, DigitOf, Num, ToDigits, Trim;
    var t := Trim(s);
    var z, d := Ones(t), Digits(t);
    var n := Num(d, 58);
    CharsOfDigits(t);
    FirstChar();
    LeadingZerosVanish(d, z, 58);
    if z < |t| { CharDigit(t[z]); }
    DigitsUnique(d[z..], 58);
    DigitsOf(n, 256);
    if n == 0 { NoDigits(256); }
    ZeroesOf(z, ToDigits(n, 256));
    LeadingZerosVanish(seq(z, _ => 0) + ToDigits(n, 256), z, 256);
    assert Chars(d[z..]) == t[z..];
    assert t == seq(z, _ => '1') + t[z..];
  }

  // ----- The code -----

  /** Skip the leading zeros of a buffer that holds n: what is left are the digits of n. */
  lemma {:induction false} StripIs(s: seq<nat>, b: nat, length: nat, n: nat, it: nat)
    requires b >= 2 && Holds(s, b, length, n) && |s| - length <= it <= |s|
    requires forall i :: |s| - length <= i < it ==> s[i] == 0
    requires it < |s| ==> s[it] != 0
    ensures s[it..] == ToDigits(n, b)
  {
    hide Num, ToDigits;
    assert forall i :: 0 <= i < it ==> s[i] == 0;
    LeadingZerosVanish(s, it, b);
    DigitsUnique(s[it..], b);
  }

  /** The numbers held while m digits of base b are read fit the buffer sized for n of them. */
  lemma {:induction false} BufferFits(d: seq<nat>, b: nat, base: nat, size: nat, m: nat)
    requires b > 0 && AreDigits(d, b) && m < |d| && Pow(base, size) >= Pow(b, |d|)
    ensures b * Num(d[..m], b) + d[m] < Pow(base, size)
    ensures b * Num(d[..m], b) + d[m] == Num(d[..m + 1], b)
  {
    hide Pow, Num;
    assert d[..m + 1] == d[..m] + [d[m]];
    NumAppend(d[..m], d[m], b);
    assert Num(d[..m], b) * b == b * Num(d[..m], b);
    NumBound(d[..m + 1], b);
    PowMono(b, m + 1, |d|);
  }

  lemma {:induction false} EncodeBuffer(n: nat)
    ensures Pow(58, n * 138 / 100 + 1) >= Pow(256, n)
  {
    EncodeRatio();
    RationalBound(58, 256, 138, 100, n, n * 138 / 100 + 1);
  }

  lemma {:induction false} DecodeBuffer(n: nat)
    ensures Pow(256, n * 733 / 1000 + 1) >= Pow(58, n)
  {
    DecodeRatio();
    RationalBound(256, 58, 733, 1000, n, n * 733 / 1000 + 1);
  }

  /** A fresh buffer of zeros holds zero. */
  lemma {:induction false} ZerosHold(s: seq<nat>, b: nat)
    requires b > 0 && forall i :: 0 <= i < |s| ==> s[i] == 0
    ensures Holds(s, b, 0, 0)
  {
    LeadingZerosVanish(s, |s|, b);
    assert s[|s|..] == [];
  }

  lemma NumEmpty(b: nat)
    ensures Num([], b) == 0
  {
  }

  /** Skip leading zeroes of a result buffer, starting where its digits start. */
  method SkipZeroes(buf: array<nat>, length: nat, ghost b: nat, ghost n: nat) returns (it: nat)
    requires b >= 2 && Holds(buf[..], b, length, n)
    ensures it <= buf.Length && buf[it..] == ToDigits(n, b)
  {
    HoldsLength(buf[..], b, length, n);
    hide Holds, ToDigits;
    it := buf.Length - length;
    while it != buf.Length && buf[it] == 0
      invariant buf.Length - length <= it <= buf.Length
      invariant forall i :: buf.Length - length <= i < it ==> buf[i] == 0
      decreases buf.Length - it
    {
      it := it + 1;
    }
    StripIs(buf[..], b, length, n, it);
    assert buf[it..] == buf[..][it..];
  }

  /** "b58 = b58 * 256 + ch" for every byte from pbegin on. */
  method ToBase58(v: seq<nat>) returns (b58: array<nat>, length: nat)
    requires AreDigits(v, 256)
    ensures fresh(b58) && Holds(b58[..], 58, length, Num(v, 256))
  {
    hide Pow, Num, Holds;
    var size := |v| * 138 / 100 + 1;
    EncodeBuffer(|v|);
    b58 := new nat[size](_ => 0);
    ZerosHold(b58[..], 58);
    NumEmpty(256);
    assert v[..0] == [];
    length := 0;
    for i := 0 to |v|
      invariant Holds(b58[..], 58, length, Num(v[..i], 256))
    {
      BufferFits(v, 256, 58, size, i);
      length := MulAdd(b58, 58, 256, v[i], length, Num(v[..i], 256));
    }
    assert v[..|v|] == v;
  }

  method EncodeBase58(v: seq<nat>) returns (str: string)
    requires AreDigits(v, 256)
    ensures str == Encode(v)
  {
    hide Num, ToDigits, Holds, CharOf;
    var zeroes := 0;
    while zeroes < |v| && v[zeroes] == 0
      invariant 0 <= zeroes <= |v| && forall i :: 0 <= i < zeroes ==> v[i] == 0
    {
      zeroes := zeroes + 1;
    }
    LeadingZerosVanish(v, zeroes, 256);
    var b58, length := ToBase58(v[zeroes..]);
    var it := SkipZeroes(b58, length, 58, Num(v, 256));
    ghost var d := b58[it..];
    str := seq(zeroes, _ => '1');
    ghost var ones := str;
    var k := it;
    assert str == ones + Chars(d[..0]);
    while k != b58.Length
      invariant it <= k <= b58.Length && str == ones + Chars(d[..k - it])
      decreases b58.Length - k
    {
      assert Chars(d[..k + 1 - it]) == Chars(d[..k - it]) + [CharOf(b58[k])];
      str := str + [CharOf(b58[k])];
      k := k + 1;
    }
    assert d[..b58.Length - it] == d;
    assert zeroes == Zeroes(v);
  }

  lemma HoldsLength(s: seq<nat>, b: nat, length: nat, v: nat)
    requires Holds(s, b, length, v)
    ensures length <= |s|
  {
  }

  // ----- Decoding -----

  lemma {:induction false} TrimRightCut(t: string, k: nat)
    requires k <= |t| && (forall i :: k <= i < |t| ==> IsSpace(t[i])) && (k > 0 ==> !IsSpace(t[k - 1]))
    ensures TrimRight(t) == t[..k]
  {
    if k == |t| {
      assert t[..k] == t;
    } else {
      TrimRightCut(t[..|t| - 1], k);
      assert t[..|t| - 1][..k] == t[..k];
    }
  }

  lemma {:induction false} TrimRightKeeps(t: string, p: nat)
    requires p < |t| && !IsSpace(t[p])
    ensures p < |TrimRight(t)| <= |t| && TrimRight(t) == t[..|TrimRight(t)|]
  {
    if IsSpace(t[|t| - 1]) {
      TrimRightKeeps(t[..|t| - 1], p);
    }
  }

  /** A character outside the alphabet, followed at once or later by a visible one, is fatal. */
  lemma {:induction false} Rejected(s: string, t: string, a: nat, p: nat)
    requires t == TrimLeft(CString(s)) && a <= p < |t| && !IsSpace(t[p]) && DigitOf(t[a]).None?
    ensures Decode(s) == None
  {
    hide DigitOf, TrimLeft, CString;
    TrimRightKeeps(t, p);
    assert Trim(s)[a] == t[a];
  }

  lemma {:induction false} Accepted(s: string, t: string, z: nat, k: nat)
    requires t == TrimLeft(CString(s)) && z <= k <= |t| && InAlphabet(t[..k])
    requires (forall i :: k <= i < |t| ==> IsSpace(t[i])) && z == Ones(t[..k])
    ensures InAlphabet(t[z..k]) && Decode(s) == Some(seq(z, _ => 0) + ToDigits(Num(Digits(t[z..k]), 58), 256))
  {
    hide DigitOf, TrimLeft, CString, ToDigits, Num;
    var u := t[..k];
    if k > 0 { assert u[k - 1] == t[k - 1]; CharDigit(t[k - 1]); }
    TrimRightCut(t, k);
    FirstChar();
    assert u[z..] == t[z..k];
    assert Digits(u)[z..] == Digits(t[z..k]);
    LeadingZerosVanish(Digits(u), z, 58);
  }

  lemma {:induction false} NextDigit(t: string, z: nat, k: nat)
    requires z <= k < |t| && InAlphabet(t[z..k]) && DigitOf(t[k]).Some?
    ensures InAlphabet(t[z..k + 1]) && Digits(t[z..k + 1]) == Digits(t[z..k]) + [DigitOf(t[k]).value]
  {
    hide DigitOf;
    assert t[z..k + 1] == t[z..k] + [t[k]];
  }

  /** One more base-58 digit still fits a buffer sized for all of them. */
  lemma {:induction false} DigitFits(d: seq<nat>, x: nat, n: nat)
    requires AreDigits(d, 58) && x < 58 && |d| < n
    ensures 58 * Num(d, 58) + x < Pow(256, n * 733 / 1000 + 1)
    ensures 58 * Num(d, 58) + x == Num(d + [x], 58)
  {
    hide Pow, Num;
    NumAppend(d, x, 58);
    NumBound(d + [x], 58);
    PowMono(58, |d| + 1, n);
    DecodeBuffer(n);
  }

  datatype Scan = Bad | Stopped(k: nat)

  /** "b256 = b256 * 58 + ch" for the characters of t from z on, up to white space. */
  method FromBase58(t: string, z: nat) returns (r: Scan, b256: array<nat>, length: nat)
    requires z <= |t|
    ensures fresh(b256)
    ensures r.Bad? ==> exists k :: z <= k < |t| && !IsSpace(t[k]) && DigitOf(t[k]).None?
    ensures r.Stopped? ==> z <= r.k <= |t| && InAlphabet(t[z..r.k]) && (r.k < |t| ==> IsSpace(t[r.k]))
                           && Holds(b256[..], 256, length, Num(Digits(t[z..r.k]), 58))
  {
    hide Pow, Num, Holds, DigitOf;
    var size := (|t| - z) * 733 / 1000 + 1;
    b256 := new nat[size](_ => 0);
    ZerosHold(b256[..], 256);
    NumEmpty(58);
    assert Digits(t[z..z]) == [];
    length := 0;
    var k := z;
    while k < |t| && !IsSpace(t[k])
      invariant z <= k <= |t| && InAlphabet(t[z..k])
      invariant Holds(b256[..], 256, length, Num(Digits(t[z..k]), 58))
    {
      var ch := DigitOf(t[k]);
      if ch.None? {
        return Bad, b256, length;
      }
      NextDigit(t, z, k);
      CharDigit(t[k]);
      CharsOfDigits(t[z..k]);
      DigitFits(Digits(t[z..k]), ch.value, |t| - z);
      length := MulAdd(b256, 256, 58, ch.value, length, Num(Digits(t[z..k]), 58));
      k := k + 1;
    }
    r := Stopped(k);
  }

  /** Skips white space from k0 on. */
  method SkipSpaces(t: string, k0: nat) returns (k: nat)
    requires k0 <= |t|
    ensures k0 <= k <= |t| && (forall i :: k0 <= i < k ==> IsSpace(t[i])) && (k < |t| ==> !IsSpace(t[k]))
  {
    k := k0;
    while k < |t| && IsSpace(t[k])
      invariant k0 <= k <= |t| && forall i :: k0 <= i < k ==> IsSpace(t[i])
    {
      k := k + 1;
    }
  }

  lemma {:induction false} TrimLeftIs(t: string, k: nat)
    requires k <= |t| && (forall i :: 0 <= i < k ==> IsSpace(t[i])) && (k < |t| ==> !IsSpace(t[k]))
    ensures TrimLeft(t) == t[k..]
  {
    if k > 0 {
      TrimLeftIs(t[1..], k - 1);
      assert t[1..][k - 1..] == t[k..];
    }
  }

  /** Counts the leading '1's. */
  method CountOnes(t: string) returns (z: nat)
    ensures z <= |t| && (forall i :: 0 <= i < z ==> t[i] == '1') && (z < |t| ==> t[z] != '1')
  {
    z := 0;
    while z < |t| && t[z] == '1'
      invariant 0 <= z <= |t| && forall i :: 0 <= i < z ==> t[i] == '1'
    {
      z := z + 1;
    }
  }

  method DecodeBase58(s: string) returns (r: Option<seq<nat>>)
    ensures r == Decode(s)
  {
    hide Num, ToDigits, Holds, DigitOf, CString, Decode, InAlphabet, Digits, TrimLeft, IsSpace;
    var str := CString(s);
    var psz := SkipSpaces(str, 0);
    TrimLeftIs(str, psz);
    var t := str[psz..];
    var zeroes := CountOnes(t);
    var scan, b256, length := FromBase58(t, zeroes);
    if scan.Bad? {
      ghost var k :| zeroes <= k < |t| && !IsSpace(t[k]) && DigitOf(t[k]).None?;
      Rejected(s, t, k, k);
      return None;
    }
    var end := SkipSpaces(t, scan.k);
    if end != |t| {
      SpaceIsNoDigit(t[scan.k]);
      Rejected(s, t, scan.k, end);
      return None;
    }
    OnesThenDigits(t, zeroes, scan.k);
    Accepted(s, t, zeroes, scan.k);
    var it := SkipZeroes(b256, length, 256, Num(Digits(t[zeroes..scan.k]), 58));
    r := Some(seq(zeroes, _ => 0) + b256[it..]);
  }

  lemma SpaceIsNoDigit(c: char)
    requires IsSpace(c)
    ensures DigitOf(c).None?
  {
    hide IndexOf;
    if DigitOf(c).Some? { CharDigit(c); }
  }

  lemma {:induction false} OnesThenDigits(t: string, z: nat, k: nat)
    requires z <= k <= |t| && (forall i :: 0 <= i < z ==> t[i] == '1') && (z < |t| ==> t[z] != '1')
    requires InAlphabet(t[z..k])
    ensures InAlphabet(t[..k]) && Ones(t[..k]) == z
  {
    hide DigitOf;
    FirstChar();
    var u := t[..k];
    assert forall i :: z <= i < k ==> u[i] == t[z..k][i - z];
    assert u == seq(z, _ => '1') + t[z..k];
    OnesOf(z, t[z..k]);
  }

  // ----- White space and terminators -----

  /** isspace in the C locale, by character code. */
  lemma SpaceCodes(c: char)
    ensures IsSpace(c) <==> c as int == 32 || 9 <= c as int <= 13
  {
  }

  predicate AllSpaces(a: string) {
    forall i :: 0 <= i < |a| ==> a[i] as int == 32 || 9 <= a[i] as int <= 13
  }

  /** The string up to its first zero character. */
  lemma {:induction false} CStringIs(s: string)
    ensures CString(s) <= s && '\0' !in CString(s) && (|CString(s)| < |s| ==> s[|CString(s)|] == '\0')
  {
    if s != [] && s[0] != '\0' {
      CStringIs(s[1..]);
      assert s == [s[0]] + s[1..];
    }
  }

  lemma {:induction false} TrimLeftSpaces(a: string, x: string)
    requires AllSpaces(a)
    ensures TrimLeft(a + x) == TrimLeft(x)
  {
    if a == [] {
      assert [] + x == x;
    } else {
      SpaceCodes(a[0]);
      TrimLeftSpaces(a[1..], x);
      assert (a + x)[1..] == a[1..] + x;
    }
  }

  lemma {:induction false} TrimRightSpaces(x: string, b: string)
    requires AllSpaces(b)
    ensures TrimRight(x + b) == TrimRight(x)
  {
    if b == [] {
      assert x + [] == x;
    } else {
      SpaceCodes(b[|b| - 1]);
      TrimRightSpaces(x, b[..|b| - 1]);
      assert (x + b)[..|x + b| - 1] == x + b[..|b| - 1];
    }
  }

  /** Spaces at the end stay at the end, unless there is nothing else. */
  lemma {:induction false} TrimLeftKeepsEnd(x: string, b: string)
    requires AllSpaces(b)
    ensures TrimRight(TrimLeft(x + b)) == TrimRight(TrimLeft(x))
  {
    hide IsSpace, TrimRight;
    if x == [] {
      assert [] + b == b && b + [] == b;
      TrimLeftSpaces(b, []);
    } else if IsSpace(x[0]) {
      TrimLeftKeepsEnd(x[1..], b);
      assert (x + b)[1..] == x[1..] + b;
    } else {
      TrimRightSpaces(x, b);
    }
  }

  /** Decoding ignores the characters 9 to 13 and 32 around a string. */
  lemma {:induction false} DecodeIgnoresSpaces(a: string, s: string, b: string)
    requires AllSpaces(a) && AllSpaces(b) && '\0' !in s
    ensures Decode(a + s + b) == Decode(s)
  {
    hide IsSpace, TrimLeft, TrimRight, Num, ToDigits, DigitOf;
    NoTerminator(s);
    forall i | 0 <= i < |a + s + b| ensures (a + s + b)[i] != '\0' {
      if i < |a| { assert (a + s + b)[i] == a[i]; }
      else if i < |a| + |s| { assert (a + s + b)[i] == s[i - |a|] && s[i - |a|] in s; }
      else { assert (a + s + b)[i] == b[i - |a| - |s|]; }
    }
    NoTerminator(a + s + b);
    TrimLeftSpaces(a, s + b);
    assert a + s + b == a + (s + b);
    TrimLeftKeepsEnd(s, b);
  }
}
