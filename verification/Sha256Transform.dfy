/** The compression function of SHA-256: primitives/sha256.cpp against section 6.2.2 of FIPS 180-4. */
module Sha256Transform {

  import opened Powers

  /** A word is its bits, least significant first. */
  type Word = s: seq<bool> | |s| == 32 witness seq(32, _ => false)
  type Byte = s: seq<bool> | |s| == 8 witness seq(8, _ => false)

  function Val(s: seq<bool>): nat {
    if s == [] then 0 else (if s[0] then 1 else 0) + 2 * Val(s[1..])
  }

  function Bits(n: nat, k: nat): (s: seq<bool>)
    ensures |s| == k
    decreases k
  {
    if k == 0 then [] else [n % 2 == 1] + Bits(n / 2, k - 1)
  }

  lemma {:induction false} ValOfBits(n: nat, k: nat)
    requires n < Pow(2, k)
    ensures Val(Bits(n, k)) == n
  {
    if k > 0 { ValOfBits(n / 2, k - 1); }
  }

  /** Addition modulo 2^32. */
  function Add(x: Word, y: Word): Word {
    Bits((Val(x) + Val(y)) % 0x1_0000_0000, 32)
  }

  function Xor(x: Word, y: Word): Word { seq(32, i requires 0 <= i < 32 => x[i] != y[i]) }
  function And(x: Word, y: Word): Word { seq(32, i requires 0 <= i < 32 => x[i] && y[i]) }
  function Or(x: Word, y: Word): Word { seq(32, i requires 0 <= i < 32 => x[i] || y[i]) }
  function Not(x: Word): Word { seq(32, i requires 0 <= i < 32 => !x[i]) }

  function Shr(x: Word, n: nat): Word
    requires n <= 32
  {
    x[n..] + seq(n, _ => false)
  }

  function Shl(x: Word, n: nat): Word
    requires n <= 32
  {
    seq(n, _ => false) + x[..32 - n]
  }

  // ----- Section 4.1.2: the functions, as the standard writes them -----

  function Rotr(x: Word, n: nat): Word
    requires 0 < n < 32
  {
    Or(Shr(x, n), Shl(x, 32 - n))
  }

  function FipsCh(x: Word, y: Word, z: Word): Word { Xor(And(x, y), And(Not(x), z)) }
  function FipsMaj(x: Word, y: Word, z: Word): Word { Xor(Xor(And(x, y), And(x, z)), And(y, z)) }
  function BigSigma0(x: Word): Word { Xor(Xor(Rotr(x, 2), Rotr(x, 13)), Rotr(x, 22)) }
  function BigSigma1(x: Word): Word { Xor(Xor(Rotr(x, 6), Rotr(x, 11)), Rotr(x, 25)) }
  function SmallSigma0(x: Word): Word { Xor(Xor(Rotr(x, 7), Rotr(x, 18)), Shr(x, 3)) }
  function SmallSigma1(x: Word): Word { Xor(Xor(Rotr(x, 17), Rotr(x, 19)), Shr(x, 10)) }

  // ----- The functions as the code writes them -----

  function Ch(x: Word, y: Word, z: Word): (r: Word)
    ensures r == FipsCh(x, y, z)
  {
    Xor(z, And(x, Xor(y, z)))
  }

  function Maj(x: Word, y: Word, z: Word): (r: Word)
    ensures r == FipsMaj(x, y, z)
  {
    Or(And(x, y), And(z, Or(x, y)))
  }

  // ----- Section 6.2.2: schedule and rounds -----

  datatype Regs = Regs(a: Word, b: Word, c: Word, d: Word, e: Word, f: Word, g: Word, h: Word)

  function FipsStep(r: Regs, k: nat, w: Word): Regs {
    var t1 := Add(Add(Add(Add(r.h, BigSigma1(r.e)), FipsCh(r.e, r.f, r.g)), Bits(k, 32)), w);
    var t2 := Add(BigSigma0(r.a), FipsMaj(r.a, r.b, r.c));
    Regs(Add(t1, t2), r.a, r.b, r.c, Add(r.d, t1), r.e, r.f, r.g)
  }

  /** Constants of section 4.2.2. */
  function K(t: nat): nat {
    if t < 16 then K0(t) else if t < 32 then K1(t) else if t < 48 then K2(t) else K3(t)
  }

  function K0(t: nat): nat {
    match t
    case 0 => 0x428a2f98
    case 1 => 0x71374491
    case 2 => 0xb5c0fbcf
    case 3 => 0xe9b5dba5
    case 4 => 0x3956c25b
    case 5 => 0x59f111f1
    case 6 => 0x923f82a4
    case 7 => 0xab1c5ed5
    case 8 => 0xd807aa98
    case 9 => 0x12835b01
    case 10 => 0x243185be
    case 11 => 0x550c7dc3
    case 12 => 0x72be5d74
    case 13 => 0x80deb1fe
    case 14 => 0x9bdc06a7
    case 15 => 0xc19bf174
    case _ => 0
  }

  function K1(t: nat): nat {
    match t
    case 16 => 0xe49b69c1
    case 17 => 0xefbe4786
    case 18 => 0x0fc19dc6
    case 19 => 0x240ca1cc
    case 20 => 0x2de92c6f
    case 21 => 0x4a7484aa
    case 22 => 0x5cb0a9dc
    case 23 => 0x76f988da
    case 24 => 0x983e5152
    case 25 => 0xa831c66d
    case 26 => 0xb00327c8
    case 27 => 0xbf597fc7
    case 28 => 0xc6e00bf3
    case 29 => 0xd5a79147
    case 30 => 0x06ca6351
    case 31 => 0x14292967
    case _ => 0
  }

  function K2(t: nat): nat {
    match t
    case 32 => 0x27b70a85
    case 33 => 0x2e1b2138
    case 34 => 0x4d2c6dfc
    case 35 => 0x53380d13
    case 36 => 0x650a7354
    case 37 => 0x766a0abb
    case 38 => 0x81c2c92e
    case 39 => 0x92722c85
    case 40 => 0xa2bfe8a1
    case 41 => 0xa81a664b
    case 42 => 0xc24b8b70
    case 43 => 0xc76c51a3
    case 44 => 0xd192e819
    case 45 => 0xd6990624
    case 46 => 0xf40e3585
    case 47 => 0x106aa070
    case _ => 0
  }

  function K3(t: nat): nat {
    match t
    case 48 => 0x19a4c116
    case 49 => 0x1e376c08
    case 50 => 0x2748774c
    case 51 => 0x34b0bcb5
    case 52 => 0x391c0cb3
    case 53 => 0x4ed8aa4a
    case 54 => 0x5b9cca4f
    case 55 => 0x682e6ff3
    case 56 => 0x748f82ee
    case 57 => 0x78a5636f
    case 58 => 0x84c87814
    case 59 => 0x8cc70208
    case 60 => 0x90befffa
    case 61 => 0xa4506ceb
    case 62 => 0xbef9a3f7
    case 63 => 0xc67178f2
    case _ => 0
  }

  /** Big-endian 32-bit word. */
  function ReadBE32(b0: Byte, b1: Byte, b2: Byte, b3: Byte): Word {
    b3 + b2 + b1 + b0
  }

  function ChunkWord(chunk: seq<Byte>, i: nat): Word
    requires |chunk| == 64 && i < 16
  {
    ReadBE32(chunk[4 * i], chunk[4 * i + 1], chunk[4 * i + 2], chunk[4 * i + 3])
  }

  /** The message schedule. */
  function W(chunk: seq<Byte>, t: nat): Word
    requires |chunk| == 64
  {
    if t < 16 then ChunkWord(chunk, t)
    else Add(Add(Add(SmallSigma1(W(chunk, t - 2)), W(chunk, t - 7)), SmallSigma0(W(chunk, t - 15))), W(chunk, t - 16))
  }

  /** The working variables after t rounds. */
  function RegsAt(s: Regs, chunk: seq<Byte>, t: nat): Regs
    requires |chunk| == 64
  {
    if t == 0 then s else FipsStep(RegsAt(s, chunk, t - 1), K(t - 1), W(chunk, t - 1))
  }

  function AddRegs(s: Regs, r: Regs): Regs {
    Regs(Add(s.a, r.a), Add(s.b, r.b), Add(s.c, r.c), Add(s.d, r.d), Add(s.e, r.e), Add(s.f, r.f), Add(s.g, r.g), Add(s.h, r.h))
  }

  /** The intermediate hash value after one block. */
  function Compress(s: Regs, chunk: seq<Byte>): Regs
    requires |chunk| == 64
  {
    var r := RegsAt(s, chunk, 64);
    AddRegs(s, r)
  }

  // ----- The unrolled transform -----

  /** Sixteen consecutive schedule words, the contents of w0 .. w15. */
  function Window(chunk: seq<Byte>, t: nat): seq<Word>
    requires |chunk| == 64
  {
    [W(chunk, t), W(chunk, t + 1), W(chunk, t + 2), W(chunk, t + 3),
     W(chunk, t + 4), W(chunk, t + 5), W(chunk, t + 6), W(chunk, t + 7),
     W(chunk, t + 8), W(chunk, t + 9), W(chunk, t + 10), W(chunk, t + 11),
     W(chunk, t + 12), W(chunk, t + 13), W(chunk, t + 14), W(chunk, t + 15)]
  }

  /** One round; the caller renames the registers instead of moving them. */
  method Round(a: Word, b: Word, c: Word, d: Word, e: Word, f: Word, g: Word, h: Word, k: nat, w: Word)
    returns (d': Word, h': Word)
    ensures Regs(h', a, b, c, d', e, f, g) == FipsStep(Regs(a, b, c, d, e, f, g, h), k, w)
  {
    hide BigSigma0, BigSigma1, FipsCh, FipsMaj, Ch, Maj, Add, Bits;
    var t1 := Add(Add(Add(Add(h, BigSigma1(e)), Ch(e, f, g)), Bits(k, 32)), w);
    var t2 := Add(BigSigma0(a), Maj(a, b, c));
    d' := Add(d, t1);
    h' := Add(t1, t2);
  }

  lemma {:induction false} RoundStep(s: Regs, chunk: seq<Byte>, t: nat)
    requires |chunk| == 64
    ensures RegsAt(s, chunk, t + 1) == FipsStep(RegsAt(s, chunk, t), K(t), W(chunk, t))
  {
  }

  /** w += sigma1(x) + y + sigma0(z) */
  function Extend(w: Word, x: Word, y: Word, z: Word): Word {
    Add(w, Add(Add(SmallSigma1(x), y), SmallSigma0(z)))
  }

  lemma AddComm(x: Word, y: Word)
    ensures Add(x, y) == Add(y, x)
  {
  }

  lemma {:induction false} ValOfAdd(x: Word, y: Word)
    ensures Val(Add(x, y)) == (Val(x) + Val(y)) % 0x1_0000_0000
  {
    hide Bits, Val, Pow;
    PowerOf32();
    ValOfBits((Val(x) + Val(y)) % 0x1_0000_0000, 32);
  }

  lemma SumTwice(a: nat, b: nat, c: nat)
    ensures ((a + b) % 0x1_0000_0000 + c) % 0x1_0000_0000 == (a + (b + c) % 0x1_0000_0000) % 0x1_0000_0000
  {
    var m := 0x1_0000_0000;
    var q, r := (a + b) / m, (b + c) / m;
    assert a + b == q * m + (a + b) % m && b + c == r * m + (b + c) % m;
    assert (a + b) % m + c == (a + b + c) - q * m && a + (b + c) % m == (a + b + c) - r * m;
  }

  lemma {:induction false} AddAssoc(x: Word, y: Word, z: Word)
    ensures Add(Add(x, y), z) == Add(x, Add(y, z))
  {
    ValOfAdd(x, y);
    ValOfAdd(y, z);
    hide Bits, Val;
    SumTwice(Val(x), Val(y), Val(z));
  }

  /** The last two rounds add from left to right, without storing. */
  function ExtendLast(w: Word, x: Word, y: Word, z: Word): Word {
    Add(Add(Add(w, SmallSigma1(x)), y), SmallSigma0(z))
  }

  lemma {:induction false} ExtendLastIs(w: Word, x: Word, y: Word, z: Word)
    ensures ExtendLast(w, x, y, z) == Extend(w, x, y, z)
  {
    hide SmallSigma0, SmallSigma1, Add;
    AddAssoc(w, SmallSigma1(x), y);
    AddAssoc(w, Add(SmallSigma1(x), y), SmallSigma0(z));
  }

  lemma {:induction false} ScheduleStep(chunk: seq<Byte>, t: nat)
    requires |chunk| == 64 && t >= 16
    ensures W(chunk, t) == Extend(W(chunk, t - 16), W(chunk, t - 2), W(chunk, t - 7), W(chunk, t - 15))
  {
    hide SmallSigma0, SmallSigma1, Add;
    AddComm(W(chunk, t - 16), Add(Add(SmallSigma1(W(chunk, t - 2)), W(chunk, t - 7)), SmallSigma0(W(chunk, t - 15))));
  }
  /** Rounds 0 to 15, reading the chunk. */
  method Rounds0(chunk: seq<Byte>, s: Regs) returns (r: Regs, w: seq<Word>)
    requires |chunk| == 64
    ensures r == RegsAt(s, chunk, 16) && w == Window(chunk, 0)
  {
    hide RegsAt, FipsStep, W, ChunkWord, K;
    StartOf(s, chunk);
    Constants0();
    var a, b, c, d, e, f, g, h := s.a, s.b, s.c, s.d, s.e, s.f, s.g, s.h;
    FirstWords(chunk, 0); RoundStep(s, chunk, 0);
    var w0 := ChunkWord(chunk, 0);
    d, h := Round(a, b, c, d, e, f, g, h, 0x428a2f98, w0);
    FirstWords(chunk, 1); RoundStep(s, chunk, 1);
    var w1 := ChunkWord(chunk, 1);
    c, g := Round(h, a, b, c, d, e, f, g, 0x71374491, w1);
    FirstWords(chunk, 2); RoundStep(s, chunk, 2);
    var w2 := ChunkWord(chunk, 2);
    b, f := Round(g, h, a, b, c, d, e, f, 0xb5c0fbcf, w2);
    FirstWords(chunk, 3); RoundStep(s, chunk, 3);
    var w3 := ChunkWord(chunk, 3);
    a, e := Round(f, g, h, a, b, c, d, e, 0xe9b5dba5, w3);
    FirstWords(chunk, 4); RoundStep(s, chunk, 4);
    var w4 := ChunkWord(chunk, 4);
    h, d := Round(e, f, g, h, a, b, c, d, 0x3956c25b, w4);
    FirstWords(chunk, 5); RoundStep(s, chunk, 5);
    var w5 := ChunkWord(chunk, 5);
    g, c := Round(d, e, f, g, h, a, b, c, 0x59f111f1, w5);
    FirstWords(chunk, 6); RoundStep(s, chunk, 6);
    var w6 := ChunkWord(chunk, 6);
    f, b := Round(c, d, e, f, g, h, a, b, 0x923f82a4, w6);
    FirstWords(chunk, 7); RoundStep(s, chunk, 7);
    var w7 := ChunkWord(chunk, 7);
    e, a := Round(b, c, d, e, f, g, h, a, 0xab1c5ed5, w7);
    FirstWords(chunk, 8); RoundStep(s, chunk, 8);
    var w8 := ChunkWord(chunk, 8);
    d, h := Round(a, b, c, d, e, f, g, h, 0xd807aa98, w8);
    FirstWords(chunk, 9); RoundStep(s, chunk, 9);
    var w9 := ChunkWord(chunk, 9);
    c, g := Round(h, a, b, c, d, e, f, g, 0x12835b01, w9);
    FirstWords(chunk, 10); RoundStep(s, chunk, 10);
    var w10 := ChunkWord(chunk, 10);
    b, f := Round(g, h, a, b, c, d, e, f, 0x243185be, w10);
    FirstWords(chunk, 11); RoundStep(s, chunk, 11);
    var w11 := ChunkWord(chunk, 11);
    a, e := Round(f, g, h, a, b, c, d, e, 0x550c7dc3, w11);
    FirstWords(chunk, 12); RoundStep(s, chunk, 12);
    var w12 := ChunkWord(chunk, 12);
    h, d := Round(e, f, g, h, a, b, c, d, 0x72be5d74, w12);
    FirstWords(chunk, 13); RoundStep(s, chunk, 13);
    var w13 := ChunkWord(chunk, 13);
    g, c := Round(d, e, f, g, h, a, b, c, 0x80deb1fe, w13);
    FirstWords(chunk, 14); RoundStep(s, chunk, 14);
    var w14 := ChunkWord(chunk, 14);
    f, b := Round(c, d, e, f, g, h, a, b, 0x9bdc06a7, w14);
    FirstWords(chunk, 15); RoundStep(s, chunk, 15);
    var w15 := ChunkWord(chunk, 15);
    e, a := Round(b, c, d, e, f, g, h, a, 0xc19bf174, w15);
    r := Regs(a, b, c, d, e, f, g, h);
    w := [w0, w1, w2, w3, w4, w5, w6, w7, w8, w9, w10, w11, w12, w13, w14, w15];
  }

  lemma Constants0()
    ensures K(0) == 0x428a2f98 && K(1) == 0x71374491 && K(2) == 0xb5c0fbcf && K(3) == 0xe9b5dba5
    ensures K(4) == 0x3956c25b && K(5) == 0x59f111f1 && K(6) == 0x923f82a4 && K(7) == 0xab1c5ed5
    ensures K(8) == 0xd807aa98 && K(9) == 0x12835b01 && K(10) == 0x243185be && K(11) == 0x550c7dc3
    ensures K(12) == 0x72be5d74 && K(13) == 0x80deb1fe && K(14) == 0x9bdc06a7 && K(15) == 0xc19bf174
  {
  }

  /** Rounds 16 to 31, sliding the sixteen-word window. */
  method Rounds1(chunk: seq<Byte>, s: Regs, q: Regs, v: seq<Word>) returns (r: Regs, w: seq<Word>)
    requires |chunk| == 64 && q == RegsAt(s, chunk, 16) && v == Window(chunk, 0)
    ensures r == RegsAt(s, chunk, 32) && w == Window(chunk, 16)
  {
    hide RegsAt, FipsStep, W, Extend, K;
    Constants1();
    var a, b, c, d, e, f, g, h := q.a, q.b, q.c, q.d, q.e, q.f, q.g, q.h;
    var w0, w1, w2, w3, w4, w5, w6, w7 := v[0], v[1], v[2], v[3], v[4], v[5], v[6], v[7];
    var w8, w9, w10, w11, w12, w13, w14, w15 := v[8], v[9], v[10], v[11], v[12], v[13], v[14], v[15];
    ScheduleStep(chunk, 16); RoundStep(s, chunk, 16);
    w0 := Extend(w0, w14, w9, w1);
    d, h := Round(a, b, c, d, e, f, g, h, 0xe49b69c1, w0);
    ScheduleStep(chunk, 17); RoundStep(s, chunk, 17);
    w1 := Extend(w1, w15, w10, w2);
    c, g := Round(h, a, b, c, d, e, f, g, 0xefbe4786, w1);
    ScheduleStep(chunk, 18); RoundStep(s, chunk, 18);
    w2 := Extend(w2, w0, w11, w3);
    b, f := Round(g, h, a, b, c, d, e, f, 0x0fc19dc6, w2);
    ScheduleStep(chunk, 19); RoundStep(s, chunk, 19);
    w3 := Extend(w3, w1, w12, w4);
    a, e := Round(f, g, h, a, b, c, d, e, 0x240ca1cc, w3);
    ScheduleStep(chunk, 20); RoundStep(s, chunk, 20);
    w4 := Extend(w4, w2, w13, w5);
    h, d := Round(e, f, g, h, a, b, c, d, 0x2de92c6f, w4);
    ScheduleStep(chunk, 21); RoundStep(s, chunk, 21);
    w5 := Extend(w5, w3, w14, w6);
    g, c := Round(d, e, f, g, h, a, b, c, 0x4a7484aa, w5);
    ScheduleStep(chunk, 22); RoundStep(s, chunk, 22);
    w6 := Extend(w6, w4, w15, w7);
    f, b := Round(c, d, e, f, g, h, a, b, 0x5cb0a9dc, w6);
    ScheduleStep(chunk, 23); RoundStep(s, chunk, 23);
    w7 := Extend(w7, w5, w0, w8);
    e, a := Round(b, c, d, e, f, g, h, a, 0x76f988da, w7);
    ScheduleStep(chunk, 24); RoundStep(s, chunk, 24);
    w8 := Extend(w8, w6, w1, w9);
    d, h := Round(a, b, c, d, e, f, g, h, 0x983e5152, w8);
    ScheduleStep(chunk, 25); RoundStep(s, chunk, 25);
    w9 := Extend(w9, w7, w2, w10);
    c, g := Round(h, a, b, c, d, e, f, g, 0xa831c66d, w9);
    ScheduleStep(chunk, 26); RoundStep(s, chunk, 26);
    w10 := Extend(w10, w8, w3, w11);
    b, f := Round(g, h, a, b, c, d, e, f, 0xb00327c8, w10);
    ScheduleStep(chunk, 27); RoundStep(s, chunk, 27);
    w11 := Extend(w11, w9, w4, w12);
    a, e := Round(f, g, h, a, b, c, d, e, 0xbf597fc7, w11);
    ScheduleStep(chunk, 28); RoundStep(s, chunk, 28);
    w12 := Extend(w12, w10, w5, w13);
    h, d := Round(e, f, g, h, a, b, c, d, 0xc6e00bf3, w12);
    ScheduleStep(chunk, 29); RoundStep(s, chunk, 29);
    w13 := Extend(w13, w11, w6, w14);
    g, c := Round(d, e, f, g, h, a, b, c, 0xd5a79147, w13);
    ScheduleStep(chunk, 30); RoundStep(s, chunk, 30);
    w14 := Extend(w14, w12, w7, w15);
    f, b := Round(c, d, e, f, g, h, a, b, 0x06ca6351, w14);
    ScheduleStep(chunk, 31); RoundStep(s, chunk, 31);
    w15 := Extend(w15, w13, w8, w0);
    e, a := Round(b, c, d, e, f, g, h, a, 0x14292967, w15);
    r := Regs(a, b, c, d, e, f, g, h);
    w := [w0, w1, w2, w3, w4, w5, w6, w7, w8, w9, w10, w11, w12, w13, w14, w15];
  }

  lemma Constants1()
    ensures K(16) == 0xe49b69c1 && K(17) == 0xefbe4786 && K(18) == 0x0fc19dc6 && K(19) == 0x240ca1cc
    ensures K(20) == 0x2de92c6f && K(21) == 0x4a7484aa && K(22) == 0x5cb0a9dc && K(23) == 0x76f988da
    ensures K(24) == 0x983e5152 && K(25) == 0xa831c66d && K(26) == 0xb00327c8 && K(27) == 0xbf597fc7
    ensures K(28) == 0xc6e00bf3 && K(29) == 0xd5a79147 && K(30) == 0x06ca6351 && K(31) == 0x14292967
  {
  }

  /** Rounds 32 to 47, sliding the sixteen-word window. */
  method Rounds2(chunk: seq<Byte>, s: Regs, q: Regs, v: seq<Word>) returns (r: Regs, w: seq<Word>)
    requires |chunk| == 64 && q == RegsAt(s, chunk, 32) && v == Window(chunk, 16)
    ensures r == RegsAt(s, chunk, 48) && w == Window(chunk, 32)
  {
    hide RegsAt, FipsStep, W, Extend, K;
    Constants2();
    var a, b, c, d, e, f, g, h := q.a, q.b, q.c, q.d, q.e, q.f, q.g, q.h;
    var w0, w1, w2, w3, w4, w5, w6, w7 := v[0], v[1], v[2], v[3], v[4], v[5], v[6], v[7];
    var w8, w9, w10, w11, w12, w13, w14, w15 := v[8], v[9], v[10], v[11], v[12], v[13], v[14], v[15];
    ScheduleStep(chunk, 32); RoundStep(s, chunk, 32);
    w0 := Extend(w0, w14, w9, w1);
    d, h := Round(a, b, c, d, e, f, g, h, 0x27b70a85, w0);
    ScheduleStep(chunk, 33); RoundStep(s, chunk, 33);
    w1 := Extend(w1, w15, w10, w2);
    c, g := Round(h, a, b, c, d, e, f, g, 0x2e1b2138, w1);
    ScheduleStep(chunk, 34); RoundStep(s, chunk, 34);
    w2 := Extend(w2, w0, w11, w3);
    b, f := Round(g, h, a, b, c, d, e, f, 0x4d2c6dfc, w2);
    ScheduleStep(chunk, 35); RoundStep(s, chunk, 35);
    w3 := Extend(w3, w1, w12, w4);
    a, e := Round(f, g, h, a, b, c, d, e, 0x53380d13, w3);
    ScheduleStep(chunk, 36); RoundStep(s, chunk, 36);
    w4 := Extend(w4, w2, w13, w5);
    h, d := Round(e, f, g, h, a, b, c, d, 0x650a7354, w4);
    ScheduleStep(chunk, 37); RoundStep(s, chunk, 37);
    w5 := Extend(w5, w3, w14, w6);
    g, c := Round(d, e, f, g, h, a, b, c, 0x766a0abb, w5);
    ScheduleStep(chunk, 38); RoundStep(s, chunk, 38);
    w6 := Extend(w6, w4, w15, w7);
    f, b := Round(c, d, e, f, g, h, a, b, 0x81c2c92e, w6);
    ScheduleStep(chunk, 39); RoundStep(s, chunk, 39);
    w7 := Extend(w7, w5, w0, w8);
    e, a := Round(b, c, d, e, f, g, h, a, 0x92722c85, w7);
    ScheduleStep(chunk, 40); RoundStep(s, chunk, 40);
    w8 := Extend(w8, w6, w1, w9);
    d, h := Round(a, b, c, d, e, f, g, h, 0xa2bfe8a1, w8);
    ScheduleStep(chunk, 41); RoundStep(s, chunk, 41);
    w9 := Extend(w9, w7, w2, w10);
    c, g := Round(h, a, b, c, d, e, f, g, 0xa81a664b, w9);
    ScheduleStep(chunk, 42); RoundStep(s, chunk, 42);
    w10 := Extend(w10, w8, w3, w11);
    b, f := Round(g, h, a, b, c, d, e, f, 0xc24b8b70, w10);
    ScheduleStep(chunk, 43); RoundStep(s, chunk, 43);
    w11 := Extend(w11, w9, w4, w12);
    a, e := Round(f, g, h, a, b, c, d, e, 0xc76c51a3, w11);
    ScheduleStep(chunk, 44); RoundStep(s, chunk, 44);
    w12 := Extend(w12, w10, w5, w13);
    h, d := Round(e, f, g, h, a, b, c, d, 0xd192e819, w12);
    ScheduleStep(chunk, 45); RoundStep(s, chunk, 45);
    w13 := Extend(w13, w11, w6, w14);
    g, c := Round(d, e, f, g, h, a, b, c, 0xd6990624, w13);
    ScheduleStep(chunk, 46); RoundStep(s, chunk, 46);
    w14 := Extend(w14, w12, w7, w15);
    f, b := Round(c, d, e, f, g, h, a, b, 0xf40e3585, w14);
    ScheduleStep(chunk, 47); RoundStep(s, chunk, 47);
    w15 := Extend(w15, w13, w8, w0);
    e, a := Round(b, c, d, e, f, g, h, a, 0x106aa070, w15);
    r := Regs(a, b, c, d, e, f, g, h);
    w := [w0, w1, w2, w3, w4, w5, w6, w7, w8, w9, w10, w11, w12, w13, w14, w15];
  }

  lemma Constants2()
    ensures K(32) == 0x27b70a85 && K(33) == 0x2e1b2138 && K(34) == 0x4d2c6dfc && K(35) == 0x53380d13
    ensures K(36) == 0x650a7354 && K(37) == 0x766a0abb && K(38) == 0x81c2c92e && K(39) == 0x92722c85
    ensures K(40) == 0xa2bfe8a1 && K(41) == 0xa81a664b && K(42) == 0xc24b8b70 && K(43) == 0xc76c51a3
    ensures K(44) == 0xd192e819 && K(45) == 0xd6990624 && K(46) == 0xf40e3585 && K(47) == 0x106aa070
  {
  }

  /** Rounds 48 to 63, sliding the sixteen-word window; the last two words are not stored. */
  method Rounds3(chunk: seq<Byte>, s: Regs, q: Regs, v: seq<Word>) returns (r: Regs)
    requires |chunk| == 64 && q == RegsAt(s, chunk, 48) && v == Window(chunk, 32)
    ensures r == RegsAt(s, chunk, 64)
  {
    hide RegsAt, FipsStep, W, Extend, ExtendLast, K;
    Constants3();
    var a, b, c, d, e, f, g, h := q.a, q.b, q.c, q.d, q.e, q.f, q.g, q.h;
    var w0, w1, w2, w3, w4, w5, w6, w7 := v[0], v[1], v[2], v[3], v[4], v[5], v[6], v[7];
    var w8, w9, w10, w11, w12, w13, w14, w15 := v[8], v[9], v[10], v[11], v[12], v[13], v[14], v[15];
    ScheduleStep(chunk, 48); RoundStep(s, chunk, 48);
    w0 := Extend(w0, w14, w9, w1);
    d, h := Round(a, b, c, d, e, f, g, h, 0x19a4c116, w0);
    ScheduleStep(chunk, 49); RoundStep(s, chunk, 49);
    w1 := Extend(w1, w15, w10, w2);
    c, g := Round(h, a, b, c, d, e, f, g, 0x1e376c08, w1);
    ScheduleStep(chunk, 50); RoundStep(s, chunk, 50);
    w2 := Extend(w2, w0, w11, w3);
    b, f := Round(g, h, a, b, c, d, e, f, 0x2748774c, w2);
    ScheduleStep(chunk, 51); RoundStep(s, chunk, 51);
    w3 := Extend(w3, w1, w12, w4);
    a, e := Round(f, g, h, a, b, c, d, e, 0x34b0bcb5, w3);
    ScheduleStep(chunk, 52); RoundStep(s, chunk, 52);
    w4 := Extend(w4, w2, w13, w5);
    h, d := Round(e, f, g, h, a, b, c, d, 0x391c0cb3, w4);
    ScheduleStep(chunk, 53); RoundStep(s, chunk, 53);
    w5 := Extend(w5, w3, w14, w6);
    g, c := Round(d, e, f, g, h, a, b, c, 0x4ed8aa4a, w5);
    ScheduleStep(chunk, 54); RoundStep(s, chunk, 54);
    w6 := Extend(w6, w4, w15, w7);
    f, b := Round(c, d, e, f, g, h, a, b, 0x5b9cca4f, w6);
    ScheduleStep(chunk, 55); RoundStep(s, chunk, 55);
    w7 := Extend(w7, w5, w0, w8);
    e, a := Round(b, c, d, e, f, g, h, a, 0x682e6ff3, w7);
    ScheduleStep(chunk, 56); RoundStep(s, chunk, 56);
    w8 := Extend(w8, w6, w1, w9);
    d, h := Round(a, b, c, d, e, f, g, h, 0x748f82ee, w8);
    ScheduleStep(chunk, 57); RoundStep(s, chunk, 57);
    w9 := Extend(w9, w7, w2, w10);
    c, g := Round(h, a, b, c, d, e, f, g, 0x78a5636f, w9);
    ScheduleStep(chunk, 58); RoundStep(s, chunk, 58);
    w10 := Extend(w10, w8, w3, w11);
    b, f := Round(g, h, a, b, c, d, e, f, 0x84c87814, w10);
    ScheduleStep(chunk, 59); RoundStep(s, chunk, 59);
    w11 := Extend(w11, w9, w4, w12);
    a, e := Round(f, g, h, a, b, c, d, e, 0x8cc70208, w11);
    ScheduleStep(chunk, 60); RoundStep(s, chunk, 60);
    w12 := Extend(w12, w10, w5, w13);
    h, d := Round(e, f, g, h, a, b, c, d, 0x90befffa, w12);
    ScheduleStep(chunk, 61); RoundStep(s, chunk, 61);
    w13 := Extend(w13, w11, w6, w14);
    g, c := Round(d, e, f, g, h, a, b, c, 0xa4506ceb, w13);
    ScheduleStep(chunk, 62); RoundStep(s, chunk, 62); ExtendLastIs(w14, w12, w7, w15);
    f, b := Round(c, d, e, f, g, h, a, b, 0xbef9a3f7, ExtendLast(w14, w12, w7, w15));
    ScheduleStep(chunk, 63); RoundStep(s, chunk, 63); ExtendLastIs(w15, w13, w8, w0);
    e, a := Round(b, c, d, e, f, g, h, a, 0xc67178f2, ExtendLast(w15, w13, w8, w0));
    r := Regs(a, b, c, d, e, f, g, h);
  }

  lemma Constants3()
    ensures K(48) == 0x19a4c116 && K(49) == 0x1e376c08 && K(50) == 0x2748774c && K(51) == 0x34b0bcb5
    ensures K(52) == 0x391c0cb3 && K(53) == 0x4ed8aa4a && K(54) == 0x5b9cca4f && K(55) == 0x682e6ff3
    ensures K(56) == 0x748f82ee && K(57) == 0x78a5636f && K(58) == 0x84c87814 && K(59) == 0x8cc70208
    ensures K(60) == 0x90befffa && K(61) == 0xa4506ceb && K(62) == 0xbef9a3f7 && K(63) == 0xc67178f2
  {
  }

  lemma StartOf(s: Regs, chunk: seq<Byte>)
    requires |chunk| == 64
    ensures RegsAt(s, chunk, 0) == s
  {
  }

  lemma FirstWords(chunk: seq<Byte>, i: nat)
    requires |chunk| == 64 && i < 16
    ensures W(chunk, i) == ChunkWord(chunk, i)
  {
  }

  /** Transform: the unrolled, register-renaming code computes the 64 rounds of the standard. */
  method Transform(s: Regs, chunk: seq<Byte>) returns (r: Regs)
    requires |chunk| == 64
    ensures r == Compress(s, chunk)
  {
    hide RegsAt, W, Add;
    var q, w := Rounds0(chunk, s);
    q, w := Rounds1(chunk, s, q, w);
    q, w := Rounds2(chunk, s, q, w);
    q := Rounds3(chunk, s, q, w);
    r := Regs(Add(s.a, q.a), Add(s.b, q.b), Add(s.c, q.c), Add(s.d, q.d), Add(s.e, q.e), Add(s.f, q.f), Add(s.g, q.g), Add(s.h, q.h));
  }
}
