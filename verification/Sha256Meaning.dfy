/** What the functions that code and standard share in the SHA-256 modules compute: byte order, rotations and
    constants, each without naming the function itself. */
module Sha256Meaning {
  import opened Powers
  import opened Sha256Transform
  import opened Sha256Stream

  // ----- Byte order -----

  lemma {:induction false} ValAppend(a: seq<bool>, b: seq<bool>)
    ensures Val(a + b) == Val(a) + Pow(2, |a|) * Val(b)
  {
    if a == [] {
      assert [] + b == b;
    } else {
      ValAppend(a[1..], b);
      assert (a + b)[1..] == a[1..] + b;
      Associate(2, Pow(2, |a| - 1), Val(b));
    }
  }

  /** Four bytes, low byte first. */
  lemma {:induction false} ValOfBytes(b0: Byte, b1: Byte, b2: Byte, b3: Byte)
    ensures Val(b3 + b2 + b1 + b0) == 0x100_0000 * Val(b0) + 0x1_0000 * Val(b1) + 0x100 * Val(b2) + Val(b3)
  {
    hide Val;
    ValAppend(b3 + b2 + b1, b0);
    ValAppend(b3 + b2, b1);
    ValAppend(b3, b2);
    PowersOfBytes();
  }

  lemma PowersOfBytes()
    ensures Pow(2, 8) == 0x100 && Pow(2, 16) == 0x1_0000 && Pow(2, 24) == 0x100_0000
  {
    assert Pow(2, 8) == 0x100;
    assert Pow(2, 16) == 0x1_0000;
  }

  /** Word i of a block, high byte first. */
  lemma {:induction false} ChunkWordIs(chunk: seq<Byte>, i: nat)
    requires |chunk| == 64 && i < 16
    ensures Val(ChunkWord(chunk, i))
      == 0x100_0000 * Val(chunk[4 * i]) + 0x1_0000 * Val(chunk[4 * i + 1]) + 0x100 * Val(chunk[4 * i + 2]) + Val(chunk[4 * i + 3])
  {
    hide Val;
    ValOfBytes(chunk[4 * i], chunk[4 * i + 1], chunk[4 * i + 2], chunk[4 * i + 3]);
  }

  /** A word written high byte first. */
  lemma {:induction false} WriteBE32Is(w: Word)
    ensures var r := WriteBE32(w);
      Val(w) == 0x100_0000 * Val(r[0]) + 0x1_0000 * Val(r[1]) + 0x100 * Val(r[2]) + Val(r[3])
  {
    hide Val;
    var bits: seq<bool> := w;
    var b0: seq<bool>, b1: seq<bool>, b2: seq<bool>, b3: seq<bool> := bits[24..32], bits[16..24], bits[8..16], bits[0..8];
    assert bits == b3 + b2 + b1 + b0;
    ValOfBytes(b0, b1, b2, b3);
  }

  lemma {:induction false} JoinedAppend(a: seq<Byte>, b: seq<Byte>)
    ensures Joined(a + b) == Joined(b) + Joined(a)
  {
    if a == [] {
      assert [] + b == b && Joined(b) + [] == Joined(b);
    } else {
      var x: seq<bool> := a[0];
      JoinedAppend(a[1..], b);
      assert (a + b)[1..] == a[1..] + b;
      assert Joined(b) + (Joined(a[1..]) + x) == Joined(b) + Joined(a[1..]) + x;
    }
  }

  lemma {:induction false} JoinedWord(w: Word)
    ensures Joined(WriteBE32(w)) == w
  {
    var bits: seq<bool> := w;
    JoinedBytes(bits, 4);
    hide Joined;
    assert BigEndian(bits, 0) == [];
    assert BigEndian(bits, 1) == [bits[0..8]];
    assert BigEndian(bits, 2) == [bits[8..16], bits[0..8]];
    assert BigEndian(bits, 3) == [bits[16..24], bits[8..16], bits[0..8]];
    assert BigEndian(bits, 4) == WriteBE32(w);
    assert bits[..32] == bits;
  }

  /** The digest is the eight words as one number, high byte first. */
  lemma {:induction false} OutputIs(s: Regs)
    ensures Joined(OutputBytes(s)) == s.h + s.g + s.f + s.e + s.d + s.c + s.b + s.a
  {
    hide Joined, WriteBE32;
    JoinedWord(s.a); JoinedWord(s.b); JoinedWord(s.c); JoinedWord(s.d);
    JoinedWord(s.e); JoinedWord(s.f); JoinedWord(s.g); JoinedWord(s.h);
    var b2 := WriteBE32(s.a) + WriteBE32(s.b);
    var b3 := b2 + WriteBE32(s.c);
    var b4 := b3 + WriteBE32(s.d);
    var b5 := b4 + WriteBE32(s.e);
    var b6 := b5 + WriteBE32(s.f);
    var b7 := b6 + WriteBE32(s.g);
    JoinedAppend(WriteBE32(s.a), WriteBE32(s.b));
    JoinedAppend(b2, WriteBE32(s.c));
    JoinedAppend(b3, WriteBE32(s.d));
    JoinedAppend(b4, WriteBE32(s.e));
    JoinedAppend(b5, WriteBE32(s.f));
    JoinedAppend(b6, WriteBE32(s.g));
    JoinedAppend(b7, WriteBE32(s.h));
    Nested(s.a, s.b, s.c, s.d, s.e, s.f, s.g, s.h);
  }

  lemma Nested(a: seq<bool>, b: seq<bool>, c: seq<bool>, d: seq<bool>, e: seq<bool>, f: seq<bool>, g: seq<bool>, h: seq<bool>)
    ensures h + (g + (f + (e + (d + (c + (b + a)))))) == h + g + f + e + d + c + b + a
  {
  }

  /** The padding byte is 0x80, and the filler is zero. */
  lemma {:induction false} PaddingBytes()
    ensures Val(MARK) == 0x80 && Val(ZERO) == 0
  {
    assert Pow(2, 7) == 0x80 && Val([true]) == 1;
    var zeros: seq<bool> := seq(7, _ => false);
    NoBits(7);
    NoBits(8);
    ValAppend(zeros, [true]);
    hide Val, Pow;
    assert MARK == zeros + [true];
    assert ZERO == seq(8, _ => false);
  }

  lemma {:induction false} NoBits(n: nat)
    ensures Val(seq(n, _ => false)) == 0
  {
    if n > 0 {
      NoBits(n - 1);
      assert seq(n, _ => false)[1..] == seq(n - 1, _ => false);
    }
  }

  // ----- Rotations, bit by bit -----

  lemma RotrBit(x: Word, n: nat, i: nat)
    requires 0 < n < 32 && i < 32
    ensures Rotr(x, n)[i] == x[(i + n) % 32]
  {
    assert (i + n) % 32 == if i + n < 32 then i + n else i + n - 32;
  }

  lemma {:induction false} BigSigmaBits(x: Word, i: nat)
    requires i < 32
    ensures BigSigma0(x)[i] == ((x[(i + 2) % 32] != x[(i + 13) % 32]) != x[(i + 22) % 32])
    ensures BigSigma1(x)[i] == ((x[(i + 6) % 32] != x[(i + 11) % 32]) != x[(i + 25) % 32])
  {
    hide Rotr;
    RotrBit(x, 2, i); RotrBit(x, 13, i); RotrBit(x, 22, i);
    RotrBit(x, 6, i); RotrBit(x, 11, i); RotrBit(x, 25, i);
  }

  lemma {:induction false} SmallSigmaBits(x: Word, i: nat)
    requires i < 32
    ensures SmallSigma0(x)[i] == ((x[(i + 7) % 32] != x[(i + 18) % 32]) != (i + 3 < 32 && x[i + 3]))
    ensures SmallSigma1(x)[i] == ((x[(i + 17) % 32] != x[(i + 19) % 32]) != (i + 10 < 32 && x[i + 10]))
  {
    hide Rotr;
    RotrBit(x, 7, i); RotrBit(x, 18, i);
    RotrBit(x, 17, i); RotrBit(x, 19, i);
  }

  // ----- Constants -----

  /** w is the first 32 bits of the fraction of the square root of p, whose integer part is r. */
  predicate RootFraction(p: nat, r: nat, w: nat) {
    var x := r * 0x1_0000_0000 + w;
    w < 0x1_0000_0000 && x * x <= p * 0x1_0000_0000_0000_0000 < (x + 1) * (x + 1)
  }

  /** Section 5.3.3: the square roots of the first eight primes. */
  lemma InitialHashIs()
    ensures var s := InitialHash();
      && RootFraction(2, 1, Val(s.a)) && RootFraction(3, 1, Val(s.b)) && RootFraction(5, 2, Val(s.c)) && RootFraction(7, 2, Val(s.d))
      && RootFraction(11, 3, Val(s.e)) && RootFraction(13, 3, Val(s.f)) && RootFraction(17, 4, Val(s.g)) && RootFraction(19, 4, Val(s.h))
  {
    hide Val, Bits, Pow;
    PowerOf32();
    ValOfBits(0x6a09e667, 32); ValOfBits(0xbb67ae85, 32); ValOfBits(0x3c6ef372, 32); ValOfBits(0xa54ff53a, 32);
    ValOfBits(0x510e527f, 32); ValOfBits(0x9b05688c, 32); ValOfBits(0x1f83d9ab, 32); ValOfBits(0x5be0cd19, 32);
  }

  /** w is the first 32 bits of the fraction of the cube root of p, whose integer part is r. */
  predicate CubeFraction(p: nat, r: nat, w: nat) {
    var x := r * 0x1_0000_0000 + w;
    w < 0x1_0000_0000 && x * x * x <= p * 0x1_0000_0000_0000_0000_0000_0000 < (x + 1) * (x + 1) * (x + 1)
  }

  /** Section 4.2.2: the cube roots of primes 1 to 16. */
  lemma RoundConstants0()
    ensures CubeFraction(2, 1, K(0)) && CubeFraction(3, 1, K(1)) && CubeFraction(5, 1, K(2)) && CubeFraction(7, 1, K(3))
    ensures CubeFraction(11, 2, K(4)) && CubeFraction(13, 2, K(5)) && CubeFraction(17, 2, K(6)) && CubeFraction(19, 2, K(7))
    ensures CubeFraction(23, 2, K(8)) && CubeFraction(29, 3, K(9)) && CubeFraction(31, 3, K(10)) && CubeFraction(37, 3, K(11))
    ensures CubeFraction(41, 3, K(12)) && CubeFraction(43, 3, K(13)) && CubeFraction(47, 3, K(14)) && CubeFraction(53, 3, K(15))
  {
    Constants0();
    hide K;
  }

  /** Section 4.2.2: the cube roots of primes 17 to 32. */
  lemma RoundConstants1()
    ensures CubeFraction(59, 3, K(16)) && CubeFraction(61, 3, K(17)) && CubeFraction(67, 4, K(18)) && CubeFraction(71, 4, K(19))
    ensures CubeFraction(73, 4, K(20)) && CubeFraction(79, 4, K(21)) && CubeFraction(83, 4, K(22)) && CubeFraction(89, 4, K(23))
    ensures CubeFraction(97, 4, K(24)) && CubeFraction(101, 4, K(25)) && CubeFraction(103, 4, K(26)) && CubeFraction(107, 4, K(27))
    ensures CubeFraction(109, 4, K(28)) && CubeFraction(113, 4, K(29)) && CubeFraction(127, 5, K(30)) && CubeFraction(131, 5, K(31))
  {
    Constants1();
    hide K;
  }

  /** Section 4.2.2: the cube roots of primes 33 to 48. */
  lemma RoundConstants2()
    ensures CubeFraction(137, 5, K(32)) && CubeFraction(139, 5, K(33)) && CubeFraction(149, 5, K(34)) && CubeFraction(151, 5, K(35))
    ensures CubeFraction(157, 5, K(36)) && CubeFraction(163, 5, K(37)) && CubeFraction(167, 5, K(38)) && CubeFraction(173, 5, K(39))
    ensures CubeFraction(179, 5, K(40)) && CubeFraction(181, 5, K(41)) && CubeFraction(191, 5, K(42)) && CubeFraction(193, 5, K(43))
    ensures CubeFraction(197, 5, K(44)) && CubeFraction(199, 5, K(45)) && CubeFraction(211, 5, K(46)) && CubeFraction(223, 6, K(47))
  {
    Constants2();
    hide K;
  }

  /** Section 4.2.2: the cube roots of primes 49 to 64. */
  lemma RoundConstants3()
    ensures CubeFraction(227, 6, K(48)) && CubeFraction(229, 6, K(49)) && CubeFraction(233, 6, K(50)) && CubeFraction(239, 6, K(51))
    ensures CubeFraction(241, 6, K(52)) && CubeFraction(251, 6, K(53)) && CubeFraction(257, 6, K(54)) && CubeFraction(263, 6, K(55))
    ensures CubeFraction(269, 6, K(56)) && CubeFraction(271, 6, K(57)) && CubeFraction(277, 6, K(58)) && CubeFraction(281, 6, K(59))
    ensures CubeFraction(283, 6, K(60)) && CubeFraction(293, 6, K(61)) && CubeFraction(307, 6, K(62)) && CubeFraction(311, 6, K(63))
  {
    Constants3();
    hide K;
  }
}
