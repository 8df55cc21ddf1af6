/** Variable-length integers of common/serialize.h: a one-to-one base-128 encoding. */
module VarInt {
  import opened Options
  import opened Powers
  import opened Bytes
  import opened Streams

  // ----- The encoding and the documented value of a byte string -----

  /** Bytes with the continuation bit, the last one for n modulo 128. */
  function Leading(n: nat): seq<Byte> {
    (if n <= 0x7f then [] else Leading(n / 128 - 1)) + [n % 128 + 128]
  }

  function VarBytes(n: nat): seq<Byte> {
    (if n <= 0x7f then [] else Leading(n / 128 - 1)) + [n % 128]
  }

  predicate Continues(b: seq<Byte>) { forall i :: 0 <= i < |b| ==> b[i] >= 128 }

  predicate Terminated(b: seq<Byte>) {
    b != [] && b[|b| - 1] < 128 && Continues(b[..|b| - 1])
  }

  /** The sum over all bytes but the last in the format's description. */
  function Weighted(b: seq<Byte>): nat {
    if b == [] then 0 else Pow(128, |b|) * (b[0] % 128 + 1) + Weighted(b[1..])
  }

  function VarValue(b: seq<Byte>): nat
    requires b != []
  {
    b[|b| - 1] % 128 + Weighted(b[..|b| - 1])
  }

  // ----- The value as the reader accumulates it -----

  function Next(n: nat, ch: Byte): nat {
    n * 128 + ch % 128 + (if ch >= 128 then 1 else 0)
  }

  function Acc(b: seq<Byte>): nat {
    if b == [] then 0 else Next(Acc(b[..|b| - 1]), b[|b| - 1])
  }

  lemma WeightedArith(p: nat, x: nat, w: nat, y: nat)
    ensures 128 * p * x + (128 * w + 128 * y) == 128 * (p * x + w) + 128 * y
  {
    assert 128 * p * x == 128 * (p * x);
  }

  lemma {:induction false} WeightedAppend(b: seq<Byte>, x: Byte)
    ensures Weighted(b + [x]) == 128 * Weighted(b) + 128 * (x % 128 + 1)
  {
    if b == [] {
      assert [] + [x] == [x] && [x][1..] == [];
      assert Pow(128, 1) == 128;
    } else {
      WeightedAppend(b[1..], x);
      assert (b + [x])[1..] == b[1..] + [x];
      WeightedArith(Pow(128, |b|), b[0] % 128 + 1, Weighted(b[1..]), x % 128 + 1);
    }
  }

  lemma {:induction false} AccContinues(b: seq<Byte>)
    requires Continues(b)
    ensures 128 * Acc(b) == Weighted(b)
  {
    hide Pow;
    if b != [] {
      var b' := b[..|b| - 1];
      AccContinues(b');
      WeightedAppend(b', b[|b| - 1]);
      assert b == b' + [b[|b| - 1]];
    }
  }

  lemma {:induction false} AccIsValue(b: seq<Byte>)
    requires Terminated(b)
    ensures Acc(b) == VarValue(b)
  {
    hide Weighted;
    AccContinues(b[..|b| - 1]);
  }

  // ----- One-to-one -----

  lemma Digit(n: nat, a: nat, d: nat)
    requires d < 128
    ensures n == 128 * a + d <==> n / 128 == a && n % 128 == d
  {
  }

  lemma {:induction false} ContinuesAppend(b: seq<Byte>, x: Byte)
    requires Continues(b) && x >= 128
    ensures Continues(b + [x]) && Acc(b + [x]) == 128 * Acc(b) + (x - 128) + 1
  {
    assert (b + [x])[..|b|] == b;
    Digit(x, 1, x - 128);
  }

  lemma {:induction false} LeadingIs(n: nat)
    ensures Continues(Leading(n)) && Leading(n) != [] && Acc(Leading(n)) == n + 1
  {
    hide Acc, Continues;
    Digit(n, n / 128, n % 128);
    if n > 0x7f {
      LeadingIs(n / 128 - 1);
      ContinuesAppend(Leading(n / 128 - 1), n % 128 + 128);
    } else {
      Nothing();
      ContinuesAppend([], n % 128 + 128);
    }
  }

  lemma Nothing()
    ensures Acc([]) == 0 && Continues([])
  {
  }

  /** The writing of n is a terminated string with value n. */
  lemma {:induction false} ValueOfBytes(n: nat)
    ensures Terminated(VarBytes(n)) && VarValue(VarBytes(n)) == n
  {
    hide Weighted, Leading;
    var b := VarBytes(n);
    assert b[..|b| - 1] == if n <= 0x7f then [] else Leading(n / 128 - 1);
    if n > 0x7f { LeadingIs(n / 128 - 1); }
    AccIsValue(b);
  }

  lemma {:induction false} LeadingOfAcc(b: seq<Byte>)
    requires Continues(b) && b != []
    ensures Acc(b) > 0 && Leading(Acc(b) - 1) == b
  {
    hide Acc;
    var b', x := b[..|b| - 1], b[|b| - 1];
    assert b == b' + [x];
    ContinuesAppend(b', x);
    var n := Acc(b) - 1;
    Digit(n, Acc(b'), x - 128);
    if b' != [] { LeadingOfAcc(b'); } else { Nothing(); }
  }

  /** Every terminated string is the writing of its value. */
  lemma {:induction false} BytesOfValue(b: seq<Byte>)
    requires Terminated(b)
    ensures VarBytes(VarValue(b)) == b
  {
    hide Weighted, Leading;
    AccIsValue(b);
    var b', x := b[..|b| - 1], b[|b| - 1];
    assert b == b' + [x];
    if b' != [] { LeadingOfAcc(b'); }
  }

  lemma OneDigit(n: Byte)
    requires n < 128
    ensures Leading(n) == [n + 128] && VarBytes(n) == [n]
  {
  }

  lemma MoreDigits(n: nat, q: nat, r: Byte)
    requires n == 128 * (q + 1) + r && r < 128
    ensures Leading(n) == Leading(q) + [r + 128] && VarBytes(n) == Leading(q) + [r]
  {
    Euclid(n, 128, q + 1, r);
  }

  /** The table of the format's description, as far as it agrees with the code. */
  lemma DocumentedVarInts()
    ensures VarBytes(0) == [0x00] && VarBytes(1) == [0x01] && VarBytes(127) == [0x7f]
    ensures VarBytes(128) == [0x80, 0x00] && VarBytes(255) == [0x80, 0x7f] && VarBytes(256) == [0x81, 0x00]
    ensures VarBytes(16383) == [0xfe, 0x7f] && VarBytes(16384) == [0xff, 0x00]
    ensures VarBytes(0x1_0000_0000) == [0x8e, 0xfe, 0xfe, 0xff, 0x00]
  {
    hide Leading, VarBytes;
    OneDigit(0); OneDigit(1); OneDigit(14); OneDigit(126); OneDigit(127);
    MoreDigits(128, 0, 0); MoreDigits(255, 0, 127); MoreDigits(256, 1, 0);
    MoreDigits(16383, 126, 127); MoreDigits(16384, 127, 0);
    MoreDigits(2046, 14, 126); MoreDigits(262142, 2046, 126); MoreDigits(33554431, 262142, 127);
    MoreDigits(0x1_0000_0000, 33554431, 0);
  }

  /** The two entries of the table that the code does not follow: what it writes for them, and what the printed bytes mean. */
  lemma MisprintedVarInts()
    ensures VarBytes(16511) == [0xff, 0x7f] && VarBytes(65535) == [0x82, 0xfe, 0x7f]
    ensures VarBytes(32895) == [0x80, 0xff, 0x7f] && VarBytes(65407) == [0x82, 0xfd, 0x7f]
  {
    hide Leading, VarBytes;
    OneDigit(0); OneDigit(2); OneDigit(127);
    MoreDigits(16511, 127, 127);
    MoreDigits(510, 2, 126); MoreDigits(65535, 510, 127);
    MoreDigits(255, 0, 127); MoreDigits(32895, 255, 127);
    MoreDigits(509, 2, 125); MoreDigits(65407, 509, 127);
  }

  // ----- Reading off the front -----

  /** How many leading bytes have the continuation bit. */
  function Stop(b: seq<Byte>): (k: nat)
    ensures k <= |b|
  {
    if b != [] && b[0] >= 128 then 1 + Stop(b[1..]) else 0
  }

  function ParseVar(b: seq<Byte>): Parsed<nat> {
    var k := Stop(b);
    if k == |b| then None else Some((Acc(b[..k + 1]), b[k + 1..]))
  }

  lemma {:induction false} StopIs(b: seq<Byte>, k: nat)
    requires k < |b|
    ensures Stop(b) == k <==> b[k] < 128 && Continues(b[..k])
  {
    if b[0] >= 128 && k > 0 {
      StopIs(b[1..], k - 1);
      assert b[..k] == [b[0]] + b[1..][..k - 1];
      ContinuesCons(b[0], b[1..][..k - 1]);
    } else if k > 0 {
      assert b[..k][0] == b[0];
    }
  }

  lemma ContinuesCons(x: Byte, b: seq<Byte>)
    ensures Continues([x] + b) <==> x >= 128 && Continues(b)
  {
    if Continues([x] + b) {
      assert ([x] + b)[0] == x;
      forall i | 0 <= i < |b| ensures b[i] >= 128 { assert ([x] + b)[i + 1] == b[i]; }
    }
  }

  /** A string is read as n, leaving rest, exactly when it is the writing of n followed by rest. */
  lemma {:induction false} VarIff(b: seq<Byte>, n: nat, rest: seq<Byte>)
    ensures ParseVar(b) == Some((n, rest)) <==> b == VarBytes(n) + rest
  {
    hide Stop, Acc, VarBytes, VarValue, Terminated, Continues;
    if ParseVar(b) == Some((n, rest)) {
      var k := Stop(b);
      StopIs(b, k);
      Cut(b, k);
      AccIsValue(b[..k + 1]);
      BytesOfValue(b[..k + 1]);
      assert b == b[..k + 1] + b[k + 1..];
    }
    if b == VarBytes(n) + rest {
      var w := VarBytes(n);
      ValueOfBytes(n);
      NonEmpty(w);
      var k := |w| - 1;
      assert b[..k + 1] == w && b[k + 1..] == rest;
      Cut(b, k);
      StopIs(b, k);
      AccIsValue(w);
    }
  }

  lemma Cut(b: seq<Byte>, k: nat)
    requires k < |b|
    ensures Terminated(b[..k + 1]) <==> b[k] < 128 && Continues(b[..k])
  {
    assert b[..k + 1][..k] == b[..k];
  }

  lemma NonEmpty(b: seq<Byte>)
    requires Terminated(b)
    ensures b != []
  {
  }

  // ----- The loops -----

  method GetSizeOfVarInt(n0: nat) returns (r: nat)
    ensures r == |VarBytes(n0)|
  {
    var n := n0;
    r := 0;
    while true
      invariant |VarBytes(n0)| == r + |VarBytes(n)|
      decreases n
    {
      r := r + 1;
      if n <= 0x7f { break; }
      SameLength(n / 128 - 1);
      n := n / 128 - 1;
    }
  }

  lemma SameLength(n: nat)
    ensures |Leading(n)| == |VarBytes(n)|
  {
    hide Leading;
    LeadingEnds(n);
  }

  lemma LeadingEnds(n: nat)
    ensures Leading(n) == (if n <= 0x7f then [] else Leading(n / 128 - 1)) + [n % 128 + 128]
  {
  }

  /** The bytes from last to first. */
  function Backwards(t: seq<Byte>): seq<Byte> {
    if t == [] then [] else [t[|t| - 1]] + Backwards(t[..|t| - 1])
  }

  /** With len bytes produced and n to go. */
  function Pending(n: nat, len: nat): seq<Byte> { if len == 0 then VarBytes(n) else Leading(n) }

  lemma {:induction false} Pow128(k: nat)
    ensures Pow(128, k) == Pow(2, 7 * k)
  {
    hide Pow;
    if k > 0 {
      Pow128(k - 1);
      PowAdd(2, 7, 7 * (k - 1));
      PowOne(k);
    } else {
      PowNone();
    }
  }

  lemma PowOne(k: nat)
    requires k > 0
    ensures Pow(2, 7) == 128 && Pow(2, 8) == 256 && Pow(128, k) == 128 * Pow(128, k - 1) && Pow(256, k) == 256 * Pow(256, k - 1)
  {
  }

  lemma PowNone()
    ensures Pow(128, 0) == 1 && Pow(256, 0) == 1 && Pow(2, 0) == 1
  {
  }

  /** (sizeof(n) * 8 + 6) / 7 bytes suffice. */
  lemma {:induction false} TmpSuffices(w: nat, len: nat)
    requires Pow(128, len) < Pow(256, w)
    ensures len < (8 * w + 6) / 7
  {
    hide Pow;
    Pow128(len);
    BytePow(w);
    if len >= (8 * w + 6) / 7 { PowMono(2, 8 * w, 7 * len); }
  }

  /** What the first loop keeps: the bytes still to come and the ones in tmp make up the writing of n0. */
  ghost predicate Digits(n0: nat, w: nat, n: nat, t: seq<Byte>) {
    VarBytes(n0) == Pending(n, |t|) + Backwards(t) && n * Pow(128, |t|) < Pow(256, w) && Pow(128, |t|) < Pow(256, w)
  }

  lemma {:induction false} DigitsStart(n0: nat, w: nat)
    requires n0 < Pow(256, w) && w > 0
    ensures Digits(n0, w, n0, [])
  {
    hide Pow;
    PowNone();
    PowOne(w);
    PowPos(w - 1);
    assert VarBytes(n0) + [] == VarBytes(n0);
  }

  lemma PowPos(k: nat)
    ensures Pow(256, k) > 0
  {
  }

  function LastDigit(n: nat, len: nat): Byte { n % 128 + (if len == 0 then 0 else 128) }

  lemma PendingIs(n: nat, len: nat)
    ensures Pending(n, len) == (if n <= 0x7f then [] else Leading(n / 128 - 1)) + [LastDigit(n, len)]
  {
    hide Leading;
    LeadingEnds(n);
  }

  lemma {:induction false} DigitsStep(n0: nat, w: nat, n: nat, t: seq<Byte>)
    requires Digits(n0, w, n, t)
    ensures var t' := t + [LastDigit(n, |t|)];
      if n <= 0x7f then VarBytes(n0) == Backwards(t') else Digits(n0, w, n / 128 - 1, t')
  {
    hide Pow, Leading, VarBytes, LastDigit, Backwards, Pending;
    var x := LastDigit(n, |t|);
    PendingIs(n, |t|);
    BackwardsAppend(t, x);
    if n > 0x7f {
      var lead := Leading(n / 128 - 1);
      assert lead + [x] + Backwards(t) == lead + ([x] + Backwards(t));
      Shrinks(n, Pow(128, |t|), Pow(256, w));
      PowOne(|t| + 1);
      PendingLater(n / 128 - 1, |t| + 1);
    } else {
      assert [] + [x] == [x];
    }
  }

  lemma BackwardsAppend(t: seq<Byte>, x: Byte)
    ensures Backwards(t + [x]) == [x] + Backwards(t)
  {
    assert (t + [x])[..|t|] == t;
  }

  lemma PendingLater(n: nat, len: nat)
    requires len > 0
    ensures Pending(n, len) == Leading(n)
  {
  }

  lemma Shrinks(n: nat, p: nat, bound: nat)
    requires n > 0x7f && n * p < bound
    ensures (n / 128 - 1) * (128 * p) < bound && 128 * p < bound
  {
    MulLe(128, n, p);
    var q := n / 128;
    MulLe(128 * q, n, p);
    assert q * (128 * p) == 128 * q * p;
    MulLe(q - 1, q, 128 * p);
  }

  /** w is sizeof(n): 1, 2, 4 or 8. */
  method WriteVarInt(s: CDataStream, n0: nat, w: nat)
    requires s.Valid() && w > 0 && n0 < Pow(256, w)
    modifies s
    ensures s.Valid() && s.Unread() == old(s.Unread()) + VarBytes(n0)
  {
    hide Pow, Digits, VarBytes, Backwards, LastDigit;
    var tmp := new Byte[(8 * w + 6) / 7](_ => 0);
    var n, len := n0, 0;
    DigitsStart(n0, w);
    assert tmp[..0] == [];
    while true
      invariant len <= tmp.Length && Digits(n0, w, n, tmp[..len]) && s.Valid() && s.Unread() == old(s.Unread())
      modifies tmp
      decreases n
    {
      InBounds(n0, w, n, tmp[..len]);
      DigitsStep(n0, w, n, tmp[..len]);
      ghost var t := tmp[..len];
      tmp[len] := LastDigit(n, len);
      assert tmp[..len + 1] == t + [LastDigit(n, len)];
      if n <= 0x7f { break; }
      n := n / 128 - 1;
      len := len + 1;
    }
    WriteBackwards(s, tmp, len);
  }

  lemma InBounds(n0: nat, w: nat, n: nat, t: seq<Byte>)
    requires Digits(n0, w, n, t)
    ensures |t| < (8 * w + 6) / 7
  {
    hide Pow, VarBytes, Leading, Backwards;
    TmpSuffices(w, |t|);
  }

  method WriteBackwards(s: CDataStream, tmp: array<Byte>, last: nat)
    requires s.Valid() && last < tmp.Length
    modifies s
    ensures s.Valid() && s.Unread() == old(s.Unread()) + Backwards(tmp[..last + 1])
  {
    ghost var u := s.Unread();
    var len := last + 1;
    while len > 0
      invariant s.Valid() && 0 <= len <= last + 1
      invariant s.Unread() + Backwards(tmp[..len]) == u + Backwards(tmp[..last + 1])
    {
      ghost var x := s.Unread();
      assert tmp[..len][..len - 1] == tmp[..len - 1];
      assert x + Backwards(tmp[..len]) == x + [tmp[len - 1]] + Backwards(tmp[..len - 1]);
      len := len - 1;
      s.Write([tmp[len]]);
    }
    assert s.Unread() + [] == s.Unread();
  }

  /** What the reader returns into a w-byte type. */
  function ParseVarMod(b: seq<Byte>, w: nat): Parsed<nat> {
    match ParseVar(b)
    case None => None
    case Some(c) => Some((Rem(c.0, Pow(256, w)), c.1))
  }

  lemma Shifted(x: nat, k: nat, r: nat)
    requires r > 0
    ensures (r * k + x) % r == x % r
  {
    var d, y := x / r, x % r;
    assert x == r * d + y;
    assert (k + d) * r == r * k + r * d;
    Euclid(r * k + x, r, k + d, y);
  }

  lemma Spread(c: nat, r: nat, q: nat, m: nat)
    ensures c * (r * q + m) == r * (c * q) + c * m
  {
    Associate(c, r, q);
    Associate(r, c, q);
  }

  lemma ModAffine(n: nat, c: nat, a: nat, r: nat)
    requires r > 0
    ensures (c * (n % r) + a) % r == (c * n + a) % r
  {
    var q, m := n / r, n % r;
    assert n == r * q + m;
    assert c * n == r * (c * q) + c * m by { Spread(c, r, q, m); }
    Shifted(c * m + a, c * q, r);
  }

  lemma ModNext(n: nat, ch: Byte, r: nat)
    requires r > 0
    ensures Rem(Rem(128 * Rem(n, r) + ch % 128, r) + (if ch >= 128 then 1 else 0), r) == Rem(Next(n, ch), r)
  {
    ModAffine(n, 128, ch % 128, r);
    ModAffine(128 * n + ch % 128, 1, if ch >= 128 then 1 else 0, r);
  }

  /** The bytes consumed so far, all with the continuation bit, and their value modulo 256^w. */
  ghost predicate Consumed(b: seq<Byte>, used: seq<Byte>, unread: seq<Byte>, n: nat, w: nat) {
    b == used + unread && Continues(used) && n == Rem(Acc(used), Pow(256, w))
  }

  lemma {:induction false} ConsumeStep(b: seq<Byte>, used: seq<Byte>, unread: seq<Byte>, n: nat, w: nat)
    requires Consumed(b, used, unread, n, w)
    ensures unread == [] ==> ParseVarMod(b, w).None?
    ensures unread != [] ==>
      var ch, r := unread[0], Pow(256, w);
      var m := Rem(Rem(128 * n + ch % 128, r) + (if ch >= 128 then 1 else 0), r);
      if ch >= 128 then Consumed(b, used + [ch], unread[1..], m, w) else ParseVarMod(b, w) == Some((m, unread[1..]))
  {
    hide Pow, Rem, Next, Acc, Continues, Stop;
    if unread == [] {
      assert b == used;
      AllContinue(b);
    } else {
      var ch := unread[0];
      OneMore(b, used, unread);
      AccAppend(used, ch);
      ModNext(Acc(used), ch, Pow(256, w));
      StopIs(b, |used|);
    }
  }

  lemma OneMore(b: seq<Byte>, used: seq<Byte>, unread: seq<Byte>)
    requires b == used + unread && unread != []
    ensures b == used + [unread[0]] + unread[1..] && b[..|used|] == used && b[|used|] == unread[0]
    ensures b[..|used| + 1] == used + [unread[0]] && b[|used| + 1..] == unread[1..]
  {
  }

  lemma AccAppend(used: seq<Byte>, ch: Byte)
    ensures Acc(used + [ch]) == Next(Acc(used), ch)
    ensures Continues(used) && ch >= 128 ==> Continues(used + [ch])
  {
    assert (used + [ch])[..|used|] == used;
  }

  lemma {:induction false} AllContinue(b: seq<Byte>)
    requires Continues(b)
    ensures Stop(b) == |b|
  {
    if b != [] {
      assert b == [b[0]] + b[1..];
      ContinuesCons(b[0], b[1..]);
      AllContinue(b[1..]);
    }
  }

  /** Reads up to the first byte without the continuation bit; the value is kept modulo 256^w. */
  method ReadVarInt(s: CDataStream, w: nat) returns (r: Reading<nat>)
    requires s.Valid()
    modifies s
    ensures s.Valid() && |s.vch| <= old(|s.vch|)
    ensures Reads(ParseVarMod(old(s.Unread()), w), r, old(|s.vch|), s.Unread())
  {
    hide Pow, Rem, ParseVarMod, Consumed, TakeLE;
    ghost var b := s.Unread();
    ghost var used: seq<Byte> := [];
    var n: nat := 0;
    ConsumeStart(b, w);
    while true
      invariant s.Valid() && |s.vch| <= old(|s.vch|) && Consumed(b, used, s.Unread(), n, w)
      decreases |s.Unread()|
    {
      ghost var u := s.Unread();
      ConsumeStep(b, used, u, n, w);
      OneByte(u);
      var chData := ReadLE(s, 1);
      if !chData.Got? { return chData; }
      PowPos(w);
      var ch: Byte := chData.value;
      ModTwice(128 * n + ch % 128, Pow(256, w));
      n := Rem(128 * n + ch % 128, Pow(256, w));
      if ch >= 128 {
        n := Rem(n + 1, Pow(256, w));
      } else {
        return Got(n);
      }
      used := used + [ch];
    }
  }

  lemma ConsumeStart(b: seq<Byte>, w: nat)
    ensures Consumed(b, [], b, 0, w)
  {
    hide Pow;
    assert [] + b == b;
  }

  lemma ModTwice(n: nat, r: nat)
    requires r > 0
    ensures Rem(Rem(n, r) + 0, r) == Rem(n, r)
  {
  }

  /** A w-byte type reads back exactly the values that fit it; any other writing comes back reduced. */
  lemma {:induction false} ReadOfWrite(n: nat, w: nat, rest: seq<Byte>)
    ensures ParseVarMod(VarBytes(n) + rest, w) == Some((Rem(n, Pow(256, w)), rest))
    ensures ParseVarMod(VarBytes(n) + rest, w) == Some((n, rest)) <==> n < Pow(256, w)
  {
    hide Pow, ParseVar, VarBytes;
    VarIff(VarBytes(n) + rest, n, rest);
    PowPos(w);
    RemBelow(n, Pow(256, w));
  }

  lemma RemBelow(n: nat, r: nat)
    requires r > 0
    ensures Rem(n, r) == n <==> n < r
  {
  }
}
