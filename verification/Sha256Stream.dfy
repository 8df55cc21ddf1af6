/** CSHA256 of primitives/sha256.cpp: streaming writes with a partial buffer against the padded
    message of section 5.1.1 of FIPS 180-4. */
module Sha256Stream {
  import opened Powers
  import opened Sha256Transform

  const SIZE_RANGE: nat := 0x1_0000_0000_0000_0000

  // ----- The standard -----

  /** Section 5.3.3. */
  function InitialHash(): Regs {
    Regs(Bits(0x6a09e667, 32), Bits(0xbb67ae85, 32), Bits(0x3c6ef372, 32), Bits(0xa54ff53a, 32),
         Bits(0x510e527f, 32), Bits(0x9b05688c, 32), Bits(0x1f83d9ab, 32), Bits(0x5be0cd19, 32))
  }

  /** Section 6.2.2 over the whole blocks of m. */
  function Process(s: Regs, m: seq<Byte>): Regs
    decreases |m|
  {
    hide Compress;
    if |m| < 64 then s else Process(Compress(s, m[..64]), m[64..])
  }

  /** The byte 0x80. */
  const MARK: Byte := [false, false, false, false, false, false, false, true]
  const ZERO: Byte := [false, false, false, false, false, false, false, false]

  function ZeroBytes(n: nat): seq<Byte> { seq(n, _ => ZERO) }

  /** The k low bytes of a bit string, high byte first. */
  function BigEndian(bits: seq<bool>, k: nat): (r: seq<Byte>)
    requires |bits| >= 8 * k
    ensures |r| == k
  {
    if k == 0 then [] else
      var high: Byte := bits[8 * k - 8..8 * k];
      [high] + BigEndian(bits, k - 1)
  }

  function BE64(n: nat): (r: seq<Byte>)
    ensures |r| == 8
  {
    hide Bits;
    BigEndian(Bits(n, 64), 8)
  }

  /** The bit string whose bytes these are, high byte first. */
  function Joined(b: seq<Byte>): seq<bool> {
    if b == [] then [] else Joined(b[1..]) + b[0]
  }

  lemma {:induction false} JoinedBytes(bits: seq<bool>, k: nat)
    requires |bits| >= 8 * k
    ensures Joined(BigEndian(bits, k)) == bits[..8 * k]
  {
    if k > 0 {
      var b := BigEndian(bits, k);
      JoinedBytes(bits, k - 1);
      assert b[1..] == BigEndian(bits, k - 1);
      assert b[0] == bits[8 * k - 8..8 * k];
    }
  }

  /** Section 5.1.1: a one bit, the smallest number of zeros that leaves eight bytes of a block, the bit length. */
  function Pad(m: seq<Byte>): seq<Byte> {
    m + [MARK] + ZeroBytes(PadZeroes(|m|)) + BE64((8 * |m|) % SIZE_RANGE)
  }

  function PadZeroes(n: nat): nat {
    if n % 64 <= 55 then 55 - n % 64 else 119 - n % 64
  }

  lemma PadFillsBlocks(m: seq<Byte>)
    ensures |Pad(m)| % 64 == 0 && PadZeroes(|m|) < 64
  {
    hide BE64;
    PadArithmetic(|m|);
  }

  lemma PadArithmetic(n: nat)
    ensures (n + 1 + PadZeroes(n) + 8) % 64 == 0 && PadZeroes(n) == (119 - n % 64) % 64
  {
    var q, r := n / 64, n % 64;
    assert n == 64 * q + r;
    if r <= 55 {
      assert n + 1 + PadZeroes(n) + 8 == 64 * (q + 1);
      assert 119 - r == 64 + (55 - r);
    } else {
      assert n + 1 + PadZeroes(n) + 8 == 64 * (q + 2);
    }
  }

  /** Below 2^61 bytes the length field is the bit length itself. */
  lemma {:induction false} LengthField(m: seq<Byte>)
    requires 8 * |m| < SIZE_RANGE
    ensures |Pad(m)| >= 8 && Val(Joined(Pad(m)[|Pad(m)| - 8..])) == 8 * |m|
  {
    hide Bits, Joined, BigEndian, Val, ZeroBytes, Pow;
    var n := 8 * |m|;
    var front := m + [MARK] + ZeroBytes(PadZeroes(|m|));
    assert Pad(m) == front + BE64(n);
    assert Pad(m)[|front|..] == BE64(n);
    JoinedBytes(Bits(n, 64), 8);
    assert Bits(n, 64)[..64] == Bits(n, 64);
    PowerOf64();
    ValOfBits(n, 64);
  }

  lemma PowerOf64()
    ensures Pow(2, 64) == SIZE_RANGE
  {
    hide Pow;
    PowerOf32();
    PowAdd(2, 32, 32);
  }

  function WriteBE32(w: Word): (r: seq<Byte>)
    ensures |r| == 4
  {
    [w[24..32], w[16..24], w[8..16], w[0..8]]
  }

  function OutputBytes(s: Regs): (r: seq<Byte>)
    ensures |r| == 32
  {
    WriteBE32(s.a) + WriteBE32(s.b) + WriteBE32(s.c) + WriteBE32(s.d)
    + WriteBE32(s.e) + WriteBE32(s.f) + WriteBE32(s.g) + WriteBE32(s.h)
  }

  function Digest(m: seq<Byte>): seq<Byte> {
    OutputBytes(Process(InitialHash(), Pad(m)))
  }

  // ----- Blocks -----

  lemma {:induction false} ProcessAppend(s: Regs, a: seq<Byte>, b: seq<Byte>)
    requires |a| % 64 == 0
    ensures Process(s, a + b) == Process(Process(s, a), b)
    decreases |a|
  {
    hide Compress;
    if |a| == 0 {
      assert a + b == b;
    } else {
      assert (a + b)[..64] == a[..64] && (a + b)[64..] == a[64..] + b;
      ProcessAppend(Compress(s, a[..64]), a[64..], b);
    }
  }

  /** How far into its block byte n is. */
  function Offset(n: nat): (r: nat)
    ensures r < 64 && r <= n
  {
    n % 64
  }

  /** The whole blocks of a message, and what is left over. */
  function Whole(m: seq<Byte>): seq<Byte> { m[..|m| - Offset(|m|)] }
  function Tail(m: seq<Byte>): seq<Byte> { m[|m| - Offset(|m|)..] }

  /** State s and tail bytes represent the message m. */
  ghost predicate Represents(s: Regs, tail: seq<Byte>, m: seq<Byte>) {
    s == Process(InitialHash(), Whole(m)) && tail == Tail(m)
  }

  /** A block made of the tail and the next bytes. */
  lemma {:induction false} BlockStep(s: Regs, tail: seq<Byte>, m: seq<Byte>, x: seq<Byte>)
    requires Represents(s, tail, m) && |tail| + |x| == 64
    ensures Represents(Compress(s, tail + x), [], m + x) && Offset(|m + x|) == 0
  {
    hide Compress, InitialHash;
    assert (m + x) == Whole(m) + (tail + x);
    assert Offset(|m + x|) == 0;
    assert Whole(m + x) == m + x;
    ProcessAppend(InitialHash(), Whole(m), tail + x);
    var block := tail + x;
    assert block[..64] == block && block[64..] == [];
    assert Process(s, block) == Compress(s, block);
  }

  /** Bytes that do not complete a block only extend the tail. */
  lemma {:induction false} TailStep(s: Regs, tail: seq<Byte>, m: seq<Byte>, x: seq<Byte>)
    requires Represents(s, tail, m) && |tail| + |x| < 64
    ensures Represents(s, tail + x, m + x) && Offset(|m + x|) == |tail| + |x|
  {
    hide Process, InitialHash;
    assert Offset(|m + x|) == |tail| + |x|;
    assert Whole(m + x) == Whole(m);
  }

  /** memcpy(buf + at, src, |src|) */
  method MemCpy(buf: array<Byte>, at: nat, src: seq<Byte>)
    requires at + |src| <= buf.Length
    modifies buf
    ensures buf[..] == old(buf[..])[..at] + src + old(buf[..])[at + |src|..]
  {
    for i := 0 to |src|
      invariant buf[..] == old(buf[..])[..at] + src[..i] + old(buf[..])[at + i..]
    {
      ghost var b := buf[..];
      buf[at + i] := src[i];
      assert buf[..] == b[at + i := src[i]];
      OneCopied(old(buf[..]), b, at, src, i);
    }
  }

  lemma OneCopied(was: seq<Byte>, b: seq<Byte>, at: nat, src: seq<Byte>, i: nat)
    requires i < |src| && at + |src| <= |was| && b == was[..at] + src[..i] + was[at + i..]
    ensures b[at + i := src[i]] == was[..at] + src[..i + 1] + was[at + i + 1..]
  {
  }

  /** The object's fields represent the message m. */
  ghost predicate Holds(s: Regs, buf: seq<Byte>, bytes: nat, m: seq<Byte>) {
    && |buf| == 64 && bytes == |m| % SIZE_RANGE && Offset(bytes) == Offset(|m|)
    && Represents(s, buf[..Offset(bytes)], m)
  }

  /** The 64-bit byte counter. */
  function Advance(bytes: nat, k: nat): nat { (bytes + k) % SIZE_RANGE }

  lemma Count(n: nat, k: nat)
    ensures Advance(n % SIZE_RANGE, k) == (n + k) % SIZE_RANGE
    ensures Offset(Advance(n % SIZE_RANGE, k)) == Offset(n + k)
  {
    var q, r := n / SIZE_RANGE, n % SIZE_RANGE;
    var q', r' := (r + k) / SIZE_RANGE, (r + k) % SIZE_RANGE;
    assert n + k == SIZE_RANGE * (q + q') + r';
    Remainder(n + k, q + q', r');
  }

  lemma Remainder(n: nat, q: nat, r: nat)
    requires n == SIZE_RANGE * q + r && r < SIZE_RANGE
    ensures n % SIZE_RANGE == r && Offset(n) == Offset(r)
  {
    Euclid(n, SIZE_RANGE, q, r);
    var k, o := r / 64, r % 64;
    assert n == (0x400_0000_0000_0000 * q + k) * 64 + o;
    Euclid(n, 64, 0x400_0000_0000_0000 * q + k, o);
  }

  /** bytes << 3 */
  function TimesEight(n: nat): nat { (n * 8) % SIZE_RANGE }

  /** How many zeros follow the mark, from the offset of the message's end. */
  function PadCount(offset: nat): nat
    requires offset < 64
  {
    (119 - offset) % 64
  }

  lemma BitCount(n: nat)
    ensures TimesEight(n % SIZE_RANGE) == (8 * n) % SIZE_RANGE
  {
    var q, r := n / SIZE_RANGE, n % SIZE_RANGE;
    var q', r' := (8 * r) / SIZE_RANGE, (8 * r) % SIZE_RANGE;
    assert n == SIZE_RANGE * q + r && 8 * r == SIZE_RANGE * q' + r';
    assert 8 * n == SIZE_RANGE * (8 * q + q') + r';
    Remainder(8 * n, 8 * q + q', r');
  }

  /** The buffer is completed and processed. */
  lemma {:induction false} FillStep(s: Regs, buf: seq<Byte>, bytes: nat, m: seq<Byte>, x: seq<Byte>, full: seq<Byte>)
    requires Holds(s, buf, bytes, m) && Offset(bytes) + |x| == 64 && full == buf[..Offset(bytes)] + x
    ensures Holds(Compress(s, full), full, Advance(bytes, |x|), m + x) && Offset(Advance(bytes, |x|)) == 0
  {
    hide Represents, Compress, Advance, Offset;
    BlockStep(s, buf[..Offset(bytes)], m, x);
    Count(|m|, |x|);
    assert full[..0] == [];
  }

  /** A block is processed directly from the source. */
  lemma {:induction false} ChunkStep(s: Regs, buf: seq<Byte>, bytes: nat, m: seq<Byte>, x: seq<Byte>)
    requires Holds(s, buf, bytes, m) && Offset(bytes) == 0 && |x| == 64
    ensures Holds(Compress(s, x), buf, Advance(bytes, 64), m + x) && Offset(Advance(bytes, 64)) == 0
  {
    hide Represents, Compress, Advance, Offset;
    BlockStep(s, buf[..0], m, x);
    Count(|m|, 64);
    assert buf[..0] == [] && [] + x == x;
  }

  /** What remains goes to the buffer. */
  lemma {:induction false} RestStep(s: Regs, buf: seq<Byte>, bytes: nat, m: seq<Byte>, x: seq<Byte>, buf': seq<Byte>)
    requires Holds(s, buf, bytes, m) && Offset(bytes) + |x| < 64 && |buf| == 64
    requires buf' == buf[..Offset(bytes)] + x + buf[Offset(bytes) + |x|..]
    ensures Holds(s, buf', Advance(bytes, |x|), m + x)
  {
    hide Represents, Advance, Offset;
    TailStep(s, buf[..Offset(bytes)], m, x);
    Count(|m|, |x|);
    assert buf'[..Offset(bytes) + |x|] == buf[..Offset(bytes)] + x;
  }

  lemma NothingWritten(buf: seq<Byte>)
    requires |buf| == 64
    ensures Holds(InitialHash(), buf, 0, [])
  {
    hide InitialHash;
    assert Whole([]) == [] && Tail([]) == [];
  }

  class CSHA256 {
    var s: Regs
    var buf: array<Byte>
    var bytes: nat
    ghost var message: seq<Byte>

    ghost predicate Valid()
      reads this, buf
    {
      Holds(s, buf[..], bytes, message)
    }

    constructor ()
      ensures Valid() && message == [] && fresh(buf)
    {
      hide InitialHash, Holds, Bits;
      s, bytes, message := InitialHash(), 0, [];
      buf := new Byte[64](_ => ZERO);
      new;
      NothingWritten(buf[..]);
    }

    /** Appends data to the message, however it is split into calls. */
    method Write(data: seq<Byte>)
      requires Valid()
      modifies this, buf
      ensures Valid() && buf == old(buf) && message == old(message) + data
    {
      hide Valid, Offset;
      var bufsize, from := Offset(bytes), 0;
      if bufsize != 0 && bufsize + |data| >= 64 {
        from := 64 - bufsize;
        Fill(data[..from]);
      }
      assert message == old(message) + data[..from];
      from := Chunks(data, from);
      if |data| > from { Rest(data[from..]); }
      assert data[..from] + data[from..] == data;
      assert message == old(message) + data;
    }

    /** x completes the block that is waiting in the buffer. */
    method Fill(x: seq<Byte>)
      requires Valid() && Offset(bytes) + |x| == 64
      modifies this, buf
      ensures Valid() && buf == old(buf) && Offset(bytes) == 0 && message == old(message) + x
    {
      hide Holds, Compress, Advance, Offset;
      Shape();
      ghost var b := buf[..];
      MemCpy(buf, Offset(bytes), x);
      assert buf[..] == b[..Offset(bytes)] + x;
      FillStep(s, b, bytes, message, x, buf[..]);
      bytes := Advance(bytes, |x|);
      s := Transform(s, buf[..]);
      message := message + x;
    }

    /** Whole blocks of data, from start on, never pass through the buffer. */
    method Chunks(data: seq<Byte>, start: nat) returns (from: nat)
      requires Valid() && start <= |data| && (|data| >= start + 64 ==> Offset(bytes) == 0)
      modifies this
      ensures Valid() && buf == old(buf) && start <= from <= |data| < from + 64
      ensures Offset(bytes) == old(Offset(bytes)) && message == old(message) + data[start..from]
    {
      hide Holds, Compress, Advance, Offset;
      from := start;
      while |data| >= from + 64
        invariant start <= from <= |data| && buf == old(buf)
        invariant Valid() && Offset(bytes) == old(Offset(bytes))
        invariant message == old(message) + data[start..from]
      {
        var x := data[from..from + 64];
        ChunkStep(s, buf[..], bytes, message, x);
        s := Transform(s, x);
        bytes := Advance(bytes, 64);
        message := message + x;
        assert data[start..from + 64] == data[start..from] + x;
        from := from + 64;
      }
    }

    /** x, too short for a block, waits in the buffer. */
    method Rest(x: seq<Byte>)
      requires Valid() && Offset(bytes) + |x| < 64
      modifies this, buf
      ensures Valid() && buf == old(buf) && message == old(message) + x
    {
      hide Holds, Advance, Offset;
      Shape();
      ghost var b := buf[..];
      MemCpy(buf, Offset(bytes), x);
      RestStep(s, b, bytes, message, x, buf[..]);
      bytes := Advance(bytes, |x|);
      message := message + x;
    }

    /** The digest of everything written, and nothing about how it was split. */
    method Finalize() returns (hash: seq<Byte>)
      requires Valid()
      modifies this, buf
      ensures Valid() && buf == old(buf)
      ensures hash == Digest(old(message))
    {
      hide Valid, Digest, BE64, Offset, PadCount, TimesEight, OutputBytes;
      Length();
      var zeroes := PadCount(Offset(bytes));
      var sizedesc := BE64(TimesEight(bytes));
      Write([MARK] + ZeroBytes(zeroes));
      Write(sizedesc);
      hash := OutputBytes(s);
      Finished(old(message), zeroes);
    }

    method Reset()
      requires Valid()
      modifies this
      ensures Valid() && buf == old(buf) && message == []
    {
      hide InitialHash, Holds, Bits;
      Shape();
      bytes, s, message := 0, InitialHash(), [];
      NothingWritten(buf[..]);
    }

    lemma Length()
      requires Valid()
      ensures bytes == |message| % SIZE_RANGE && Offset(bytes) == Offset(|message|)
    {
    }

    /** Once padded, the message is all whole blocks. */
    lemma Finished(m: seq<Byte>, zeroes: nat)
      requires Valid() && zeroes == PadCount(Offset(|m|))
      requires message == m + ([MARK] + ZeroBytes(zeroes)) + BE64(TimesEight(|m| % SIZE_RANGE))
      ensures OutputBytes(s) == Digest(m)
    {
      hide Process, InitialHash, BE64, OutputBytes;
      PadArithmetic(|m|);
      PadFillsBlocks(m);
      BitCount(|m|);
      assert message == Pad(m);
      assert Whole(message) == message;
    }

    lemma Shape()
      requires Valid()
      ensures buf.Length == 64
    {
    }
  }


  lemma ConcatStep(pieces: seq<seq<Byte>>, i: nat)
    requires i < |pieces|
    ensures Concat(pieces[..i + 1]) == Concat(pieces[..i]) + pieces[i]
  {
    assert pieces[..i + 1][..i] == pieces[..i];
  }

  function Concat(pieces: seq<seq<Byte>>): seq<Byte> {
    if pieces == [] then [] else Concat(pieces[..|pieces| - 1]) + pieces[|pieces| - 1]
  }

  /** A chain of Write calls and a Finalize, as the callers of the class make it. */
  method HashPieces(pieces: seq<seq<Byte>>) returns (hash: seq<Byte>)
    ensures hash == Digest(Concat(pieces))
  {
    assert Concat(pieces[..0]) == [];
    hide Digest, Concat, CSHA256.Valid;
    var hasher := new CSHA256();
    for i := 0 to |pieces|
      invariant fresh(hasher) && fresh(hasher.buf) && hasher.Valid() && hasher.message == Concat(pieces[..i])
    {
      ConcatStep(pieces, i);
      hasher.Write(pieces[i]);
    }
    assert pieces[..|pieces|] == pieces;
    hash := hasher.Finalize();
  }
}
