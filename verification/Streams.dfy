/** CDataStream of common/streams.h, and the (un)serializers that run over it, against the wire format. */
module Streams {
  import opened Options
  import opened Powers
  import opened Bytes
  import opened Serialize

  const UINT_RANGE: nat := 0x1_0000_0000

  /** Overrun: the copy would leave the buffer. Rewound: the bytes are right, but the position fell back. */
  datatype ReadResult = Data(bytes: seq<Byte>) | EndOfData | Overrun | Rewound(bytes: seq<Byte>)

  /** Truncation to unsigned int. */
  function Wrapped(n: nat): (r: nat)
    ensures r < UINT_RANGE && (n < UINT_RANGE <==> r == n)
  {
    n % UINT_RANGE
  }

  /** What a reader expects: n bytes off the front, or nothing at all. */
  ghost predicate InOrder(unread: seq<Byte>, n: nat, r: ReadResult, rest: seq<Byte>) {
    if n <= |unread| then r == Data(unread[..n]) && rest == unread[n..] else r == EndOfData && rest == unread
  }

  class CDataStream {
    var vch: seq<Byte>
    var nReadPos: nat

    ghost predicate Valid()
      reads this
    {
      nReadPos <= |vch| && nReadPos < UINT_RANGE
    }

    ghost function Unread(): seq<Byte>
      requires Valid()
      reads this
    {
      vch[nReadPos..]
    }

    constructor (bytes: seq<Byte>)
      ensures Valid() && Unread() == bytes && |vch| == |bytes|
    {
      vch, nReadPos := bytes, 0;
    }

    /** Consumes exactly n bytes or, short of data, throws and consumes nothing, if and only if the sum of position
        and n fits 32 bits or the remainder of the sum is still beyond the data. */
    method Read(n: nat) returns (r: ReadResult)
      requires Valid()
      modifies this
      ensures Valid() && |vch| <= old(|vch|)
      ensures InOrder(old(Unread()), n, r, Unread()) <==>
        old(nReadPos) + n < UINT_RANGE || Wrapped(old(nReadPos) + n) > |old(vch)|
      ensures r.Overrun? <==> Wrapped(old(nReadPos) + n) <= |old(vch)| < old(nReadPos) + n
      ensures r.Rewound? <==> UINT_RANGE <= old(nReadPos) + n <= |old(vch)|
      ensures r.Rewound? ==> r.bytes == old(Unread())[..n] && vch == old(vch) && nReadPos == Wrapped(old(nReadPos) + n)
      ensures r.Data? ==>
        if old(nReadPos) + n == |old(vch)| then vch == [] && nReadPos == 0
        else vch == old(vch) && nReadPos == old(nReadPos) + n
      ensures r.EndOfData? || r.Overrun? ==> n > |old(Unread())| && vch == old(vch) && nReadPos == old(nReadPos)
    {
      var next := Wrapped(nReadPos + n);
      if next > |vch| { return EndOfData; }
      if nReadPos + n > |vch| { return Overrun; }
      var bytes := vch[nReadPos..nReadPos + n];
      r := if next == nReadPos + n then Data(bytes) else Rewound(bytes);
      if next == |vch| {
        nReadPos, vch := 0, [];
      } else {
        nReadPos := next;
      }
    }

    /** Appends to what is left to read. */
    method Write(data: seq<Byte>)
      requires Valid()
      modifies this
      ensures Valid() && Unread() == old(Unread()) + data && |vch| == old(|vch|) + |data|
    {
      vch := vch + data;
    }
  }

  /** Ten bytes, four of them read: a request for 2^32 - 1 more is taken for a read up to position 3. */
  method WrappedRead() returns (r: ReadResult)
    ensures r == Overrun
  {
    var s := new CDataStream([0, 1, 2, 3, 4, 5, 6, 7, 8, 9]);
    r := s.Read(4);
    r := s.Read(0xffff_ffff);
  }

  /** Reading 2^32 bytes of a longer stream leaves all of them to be read again. */
  method RewoundRead(bytes: seq<Byte>) returns (r: ReadResult, left: seq<Byte>)
    requires |bytes| > UINT_RANGE
    ensures r == Rewound(bytes[..UINT_RANGE]) && left == bytes
  {
    var s := new CDataStream(bytes);
    r := s.Read(UINT_RANGE);
    left := s.vch[s.nReadPos..];
  }

  // ----- Readers over the stream -----

  /** Broken: a read was not in order. */
  datatype Reading<T> = Got(value: T) | Throw | Broken

  function Failed<T, U>(r: Reading<T>): Reading<U>
    requires !r.Got?
  {
    if r.Broken? then Broken else Throw
  }

  /** A reader returned what the format says and left what it says. From a stream of total bytes below 2^32,
      whatever the format accepts is read; a rejected input may break a read only close below 2^32. */
  ghost predicate Reads<T>(p: Parsed<T>, r: Reading<T>, total: nat, rest: seq<Byte>) {
    match r
    case Got(x) => p == Some((x, rest))
    case Throw => p.None?
    case Broken => total >= UINT_RANGE || (p.None? && total + 5_000_000 >= UINT_RANGE)
  }

  // ----- Fixed-width fields -----

  method ReadBytes(s: CDataStream, n: nat) returns (r: Reading<seq<Byte>>)
    requires s.Valid() && n <= 5_000_000
    modifies s
    ensures s.Valid() && |s.vch| <= old(|s.vch|)
    ensures Reads(TakeBytes(old(s.Unread()), n), r, old(|s.vch|), s.Unread())
  {
    hide Wrapped;
    var d := s.Read(n);
    r := match d case Data(b) => Got(b) case EndOfData => Throw case _ => Broken;
  }

  method ReadLE(s: CDataStream, k: nat) returns (r: Reading<nat>)
    requires s.Valid() && k <= 8
    modifies s
    ensures s.Valid() && |s.vch| <= old(|s.vch|)
    ensures Reads(TakeLE(old(s.Unread()), k), r, old(|s.vch|), s.Unread())
  {
    hide FromLE;
    var d := ReadBytes(s, k);
    r := if d.Got? then Got(FromLE(d.value)) else Failed(d);
  }

  method ReadSigned(s: CDataStream, k: nat) returns (r: Reading<int>)
    requires s.Valid() && (k == 4 || k == 8)
    modifies s
    ensures s.Valid() && |s.vch| <= old(|s.vch|)
    ensures Reads(TakeSigned(old(s.Unread()), k), r, old(|s.vch|), s.Unread())
  {
    hide TakeLE;
    var d := ReadLE(s, k);
    if !d.Got? { return Failed(d); }
    r := Got(if d.value < Half(k) then d.value else d.value - 2 * Half(k));
  }

  // ----- CompactSize -----

  method ReadCompactSize(s: CDataStream) returns (r: Reading<nat>)
    requires s.Valid()
    modifies s
    ensures s.Valid() && |s.vch| <= old(|s.vch|)
    ensures Reads(ParseCompact(old(s.Unread())), r, old(|s.vch|), s.Unread())
  {
    hide TakeLE, Pow;
    ghost var b := s.Unread();
    var chSize := ReadLE(s, 1);
    OneByte(b);
    if !chSize.Got? || chSize.value < 253 { return chSize; }
    var width, least := 8, 0x1_0000_0000;
    if chSize.value == 253 {
      width, least := 2, 253;
    } else if chSize.value == 254 {
      width, least := 4, 0x1_0000;
    }
    r := ReadLE(s, width);
    if r.Got? && (r.value < least || r.value > MAX_SIZE) { r := Throw; }
  }

  lemma OneByte(b: seq<Byte>)
    ensures TakeLE(b, 1) == if b == [] then None else Some((b[0], b[1..]))
  {
    if b != [] {
      assert b[..1] == [b[0]] && b[..1][1..] == [];
      assert FromLE(b[..1]) == b[0];
    }
  }

  method WriteCompactSize(s: CDataStream, n: nat)
    requires s.Valid() && n < 0x1_0000_0000_0000_0000
    modifies s
    ensures s.Valid() && s.Unread() == old(s.Unread()) + SerCompact(n)
  {
    hide LE;
    ghost var u := s.Unread();
    if n < 253 {
      s.Write([n]);
    } else if n <= 0xffff {
      s.Write([253]);
      s.Write(LE(n, 2));
      assert u + [253] + LE(n, 2) == u + ([253] + LE(n, 2));
    } else if n <= 0xffff_ffff {
      s.Write([254]);
      s.Write(LE(n, 4));
      assert u + [254] + LE(n, 4) == u + ([254] + LE(n, 4));
    } else {
      s.Write([255]);
      s.Write(LE(n, 8));
      assert u + [255] + LE(n, 8) == u + ([255] + LE(n, 8));
    }
  }

  // ----- Byte vectors -----

  /** Reads in blocks, so that a bogus size cannot exhaust memory. */
  method UnserializeBytes(s: CDataStream) returns (r: Reading<seq<Byte>>)
    requires s.Valid()
    modifies s
    ensures s.Valid() && |s.vch| <= old(|s.vch|)
    ensures Reads(ParseBytes(old(s.Unread())), r, old(|s.vch|), s.Unread())
  {
    hide ParseCompact;
    var size := ReadCompactSize(s);
    if !size.Got? { return Failed(size); }
    r := ReadBlocks(s, size.value);
  }

  method ReadBlocks(s: CDataStream, nSize: nat) returns (r: Reading<seq<Byte>>)
    requires s.Valid()
    modifies s
    ensures s.Valid() && |s.vch| <= old(|s.vch|)
    ensures Reads(TakeBytes(old(s.Unread()), nSize), r, old(|s.vch|), s.Unread())
  {
    var v, i: nat := [], 0;
    ghost var b := s.Unread();
    while i < nSize
      invariant s.Valid() && |s.vch| <= old(|s.vch|) && i == |v| <= nSize && b == v + s.Unread()
    {
      var blk := if nSize - i < 5_000_000 then nSize - i else 5_000_000;
      ghost var u := s.Unread();
      var d := ReadBytes(s, blk);
      if !d.Got? { return Failed(d); }
      assert u == u[..blk] + u[blk..];
      assert v + u == v + u[..blk] + u[blk..];
      v := v + d.value;
      i := i + blk;
    }
    r := Got(v);
  }

  method SerializeBytes(s: CDataStream, v: seq<Byte>)
    requires s.Valid() && |v| < 0x1_0000_0000_0000_0000
    modifies s
    ensures s.Valid() && s.Unread() == old(s.Unread()) + SerBytes(v)
  {
    hide SerCompact;
    ghost var u := s.Unread();
    WriteCompactSize(s, |v|);
    if v != [] { s.Write(v); }
    assert u + SerCompact(|v|) + v == u + (SerCompact(|v|) + v);
  }

  // ----- Entries -----

  method UnserializeOutPoint(s: CDataStream) returns (r: Reading<COutPoint>)
    requires s.Valid()
    modifies s
    ensures s.Valid() && |s.vch| <= old(|s.vch|)
    ensures Reads(ParseOutPoint(old(s.Unread())), r, old(|s.vch|), s.Unread())
  {
    hide TakeBytes, TakeLE;
    var hash := ReadBytes(s, 32);
    if !hash.Got? { return Failed(hash); }
    var n := ReadLE(s, 4);
    if !n.Got? { return Failed(n); }
    r := Got(COutPoint(hash.value, n.value));
  }

  method UnserializeEntry(s: CDataStream, isIn: bool) returns (r: Reading<Entry>)
    requires s.Valid()
    modifies s
    ensures s.Valid() && |s.vch| <= old(|s.vch|)
    ensures Reads(ParseEntry(isIn, old(s.Unread())), r, old(|s.vch|), s.Unread())
  {
    hide ParseOutPoint, ParseBytes, TakeLE, TakeSigned;
    if isIn {
      var prevout := UnserializeOutPoint(s);
      if !prevout.Got? { return Failed(prevout); }
      var script := UnserializeBytes(s);
      if !script.Got? { return Failed(script); }
      var sequence := ReadLE(s, 4);
      if !sequence.Got? { return Failed(sequence); }
      r := Got(CTxIn(prevout.value, script.value, sequence.value));
    } else {
      var value := ReadSigned(s, 8);
      if !value.Got? { return Failed(value); }
      var script := UnserializeBytes(s);
      if !script.Got? { return Failed(script); }
      r := Got(CTxOut(value.value, script.value));
    }
  }

  method SerializeEntry(s: CDataStream, e: Entry)
    requires s.Valid() && Typed(e)
    modifies s
    ensures s.Valid() && s.Unread() == old(s.Unread()) + SerEntry(e)
  {
    hide LE, SerBytes, Pattern;
    ghost var u := s.Unread();
    match e {
      case CTxIn(p, script, q) =>
        s.Write(p.hash);
        s.Write(LE(p.n, 4));
        SerializeBytes(s, script);
        s.Write(LE(q, 4));
        Assoc4(u, p.hash, LE(p.n, 4), SerBytes(script), LE(q, 4));
      case CTxOut(v, script) =>
        s.Write(LE(Pattern(v, 8), 8));
        SerializeBytes(s, script);
        assert u + LE(Pattern(v, 8), 8) + SerBytes(script) == u + (LE(Pattern(v, 8), 8) + SerBytes(script));
    }
  }

  lemma Assoc4(u: seq<Byte>, a: seq<Byte>, b: seq<Byte>, c: seq<Byte>, d: seq<Byte>)
    ensures u + a + b + c + d == u + (a + b + (c + d))
    ensures u + a + b + c + d == u + (a + (b + (c + d)))
  {
  }

  // ----- Vectors -----

  /** A default-constructed element, as resize leaves it. */
  function Default(isIn: bool): Entry {
    if isIn then CTxIn(COutPoint(seq(32, _ => 0), 0xffff_ffff), [], 0xffff_ffff) else CTxOut(-1, [])
  }

  function Prepend(v: seq<Entry>, p: Parsed<seq<Entry>>): Parsed<seq<Entry>> {
    match p
    case None => None
    case Some(c) => Some((v + c.0, c.1))
  }

  /** After reading v, the rest of the bytes decide the rest of the vector. */
  ghost predicate Progress(isIn: bool, b: seq<Byte>, n: nat, v: seq<Entry>, rest: seq<Byte>) {
    |v| <= n && ParseAll(isIn, b, n) == Prepend(v, ParseAll(isIn, rest, n - |v|))
  }

  lemma ProgressStarts(isIn: bool, b: seq<Byte>, n: nat)
    ensures Progress(isIn, b, n, [], b)
  {
    hide ParseAll;
    var p := ParseAll(isIn, b, n);
    if p.Some? { assert [] + p.value.0 == p.value.0; }
  }

  lemma {:induction false} ProgressStep(isIn: bool, b: seq<Byte>, n: nat, v: seq<Entry>, rest: seq<Byte>)
    requires Progress(isIn, b, n, v, rest) && |v| < n
    ensures match ParseEntry(isIn, rest)
      case None => ParseAll(isIn, b, n).None?
      case Some(e) => Progress(isIn, b, n, v + [e.0], e.1)
  {
    hide ParseEntry;
    var p := ParseEntry(isIn, rest);
    if p.Some? {
      var q := ParseAll(isIn, p.value.1, n - |v| - 1);
      if q.Some? { assert v + ([p.value.0] + q.value.0) == v + [p.value.0] + q.value.0; }
    }
  }

  lemma ProgressEnds(isIn: bool, b: seq<Byte>, n: nat, v: seq<Entry>, rest: seq<Byte>)
    requires Progress(isIn, b, n, v, rest) && |v| == n
    ensures ParseAll(isIn, b, n) == Some((v, rest))
  {
    assert v + [] == v;
  }

  /** Reads in batches of elements: batch is 5000000 / sizeof(T). */
  method UnserializeVector(s: CDataStream, isIn: bool, batch: nat) returns (r: Reading<seq<Entry>>)
    requires s.Valid() && 0 < batch <= 5_000_000
    modifies s
    ensures s.Valid() && |s.vch| <= old(|s.vch|)
    ensures Reads(ParseVector(isIn, old(s.Unread())), r, old(|s.vch|), s.Unread())
  {
    hide ParseCompact, ParseAll;
    var size := ReadCompactSize(s);
    if !size.Got? { return Failed(size); }
    r := ReadBatches(s, isIn, batch, size.value);
  }

  method ReadBatches(s: CDataStream, isIn: bool, batch: nat, nSize: nat) returns (r: Reading<seq<Entry>>)
    requires s.Valid() && 0 < batch <= 5_000_000
    modifies s
    ensures s.Valid() && |s.vch| <= old(|s.vch|)
    ensures Reads(ParseAll(isIn, old(s.Unread()), nSize), r, old(|s.vch|), s.Unread())
  {
    hide ParseAll, ParseEntry, Progress, Default;
    ghost var b := s.Unread();
    var v: seq<Entry> := [];
    var nMid: nat := 0;
    ProgressStarts(isIn, b, nSize);
    while nMid < nSize
      invariant s.Valid() && |s.vch| <= old(|s.vch|) && nMid == |v| <= nSize && Progress(isIn, b, nSize, v, s.Unread())
    {
      nMid := nMid + batch;
      if nMid > nSize { nMid := nSize; }
      r := FillBatch(s, isIn, v, nMid, nSize, b);
      if !r.Got? { return; }
      v := r.value;
    }
    ProgressEnds(isIn, b, nSize, v, s.Unread());
    r := Got(v);
  }

  /** Grows the vector to nMid elements, then unserializes the new ones in place. */
  method FillBatch(s: CDataStream, isIn: bool, v0: seq<Entry>, nMid: nat, ghost nSize: nat, ghost b: seq<Byte>)
    returns (r: Reading<seq<Entry>>)
    requires s.Valid() && |v0| <= nMid <= nSize && Progress(isIn, b, nSize, v0, s.Unread())
    modifies s
    ensures s.Valid() && |s.vch| <= old(|s.vch|)
    ensures if r.Got? then |r.value| == nMid && Progress(isIn, b, nSize, r.value, s.Unread())
            else Reads(ParseAll(isIn, b, nSize), r, old(|s.vch|), s.Unread())
  {
    hide ParseAll, ParseEntry, Progress, Default;
    var v := v0 + seq(nMid - |v0|, _ => Default(isIn));
    assert v[..|v0|] == v0;
    for i := |v0| to nMid
      invariant s.Valid() && |s.vch| <= old(|s.vch|) && |v| == nMid && Progress(isIn, b, nSize, v[..i], s.Unread())
    {
      ProgressStep(isIn, b, nSize, v[..i], s.Unread());
      var e := UnserializeEntry(s, isIn);
      if !e.Got? { return Failed(e); }
      ghost var w := v[..i];
      v := v[i := e.value];
      assert v[..i + 1] == w + [e.value];
    }
    assert v[..nMid] == v;
    r := Got(v);
  }

  method SerializeVector(s: CDataStream, v: seq<Entry>)
    requires s.Valid() && |v| < 0x1_0000_0000 && forall i :: 0 <= i < |v| ==> Typed(v[i])
    modifies s
    ensures s.Valid() && s.Unread() == old(s.Unread()) + SerVector(v)
  {
    hide SerCompact, SerEntry, SerAll, Typed;
    ghost var u := s.Unread();
    WriteCompactSize(s, |v|);
    ghost var w := s.Unread();
    AllSplit(v, 0);
    for i := 0 to |v|
      invariant s.Valid() && w + SerAll(v) == s.Unread() + SerAll(v[i..])
    {
      AllSplit(v, i);
      ghost var x := s.Unread();
      SerializeEntry(s, v[i]);
      assert x + SerEntry(v[i]) + SerAll(v[i + 1..]) == x + (SerEntry(v[i]) + SerAll(v[i + 1..]));
    }
    AllSplit(v, |v|);
    assert s.Unread() + [] == s.Unread();
    assert u + SerCompact(|v|) + SerAll(v) == u + (SerCompact(|v|) + SerAll(v));
  }

  lemma AllSplit(v: seq<Entry>, i: nat)
    requires i <= |v| && forall i :: 0 <= i < |v| ==> Typed(v[i])
    ensures if i == |v| then SerAll(v[i..]) == [] else SerAll(v[i..]) == SerEntry(v[i]) + SerAll(v[i + 1..])
    ensures v[0..] == v
  {
    hide SerEntry, Typed;
    if i < |v| { assert v[i..][1..] == v[i + 1..]; }
  }

  // ----- Transactions -----

  method UnserializeTx(s: CDataStream, inBatch: nat, outBatch: nat) returns (r: Reading<CTransaction>)
    requires s.Valid() && 0 < inBatch <= 5_000_000 && 0 < outBatch <= 5_000_000
    modifies s
    ensures s.Valid() && |s.vch| <= old(|s.vch|)
    ensures Reads(ParseTx(old(s.Unread())), r, old(|s.vch|), s.Unread())
  {
    hide TakeSigned, TakeLE, ParseVector;
    var version := ReadSigned(s, 4);
    if !version.Got? { return Failed(version); }
    var vin := UnserializeVector(s, true, inBatch);
    if !vin.Got? { return Failed(vin); }
    var vout := UnserializeVector(s, false, outBatch);
    if !vout.Got? { return Failed(vout); }
    var lockTime := ReadLE(s, 4);
    if !lockTime.Got? { return Failed(lockTime); }
    r := Got(CTransaction(version.value, vin.value, vout.value, lockTime.value));
  }

  method SerializeTx(s: CDataStream, t: CTransaction)
    requires s.Valid() && TypedTx(t)
    modifies s
    ensures s.Valid() && s.Unread() == old(s.Unread()) + SerTx(t)
  {
    hide LE, SerVector, Pattern, Typed;
    ghost var u := s.Unread();
    s.Write(LE(Pattern(t.nVersion, 4), 4));
    SerializeVector(s, t.vin);
    SerializeVector(s, t.vout);
    s.Write(LE(t.nLockTime, 4));
    Assoc4(u, LE(Pattern(t.nVersion, 4), 4), SerVector(t.vin), SerVector(t.vout), LE(t.nLockTime, 4));
  }

  /** A transaction written to a stream and read back from it. */
  method WriteThenRead(t: CTransaction, after: seq<Byte>, inBatch: nat, outBatch: nat)
    returns (r: Reading<CTransaction>, left: seq<Byte>)
    requires ReadableTx(t) && SizeTx(t) + |after| < UINT_RANGE
    requires 0 < inBatch <= 5_000_000 && 0 < outBatch <= 5_000_000
    ensures r == Got(t) && left == after
  {
    hide SerTx, ParseTx, ReadableTx, SizeTx, TypedTx;
    TxRoundTrip(t, after);
    SizeTxIs(t);
    var s := new CDataStream([]);
    SerializeTx(s, t);
    s.Write(after);
    assert [] + SerTx(t) + after == SerTx(t) + after;
    var reader := new CDataStream(s.vch[s.nReadPos..]);
    r := UnserializeTx(reader, inBatch, outBatch);
    left := reader.vch[reader.nReadPos..];
  }

  // ----- The size-computing stream -----

  const SIZE_RANGE: nat := 0x1_0000_0000_0000_0000

  /** The counter after writing b. */
  function Counted(n: nat, b: seq<Byte>): (r: nat)
    ensures r < SIZE_RANGE
  {
    (n + |b|) % SIZE_RANGE
  }

  lemma CountedTwice(n: nat, a: seq<Byte>, b: seq<Byte>)
    ensures Counted(Counted(n, a), b) == Counted(n, a + b)
  {
    var x := n + |a|;
    var q, r := x / SIZE_RANGE, x % SIZE_RANGE;
    assert x == q * SIZE_RANGE + r;
    assert n + |a + b| == q * SIZE_RANGE + (r + |b|);
  }

  class CSizeComputer {
    var nSize: nat

    constructor ()
      ensures nSize == 0
    {
      nSize := 0;
    }

    method Write(data: seq<Byte>)
      modifies this
      ensures nSize == Counted(old(nSize), data)
    {
      nSize := (nSize + |data|) % SIZE_RANGE;
    }
  }

  method CountCompactSize(s: CSizeComputer, n: nat)
    requires n < 0x1_0000_0000_0000_0000
    modifies s
    ensures s.nSize == Counted(old(s.nSize), SerCompact(n))
  {
    hide LE, Counted;
    ghost var a := s.nSize;
    if n < 253 {
      s.Write([n]);
    } else {
      var mark, width := 255, 8;
      if n <= 0xffff { mark, width := 253, 2; } else if n <= 0xffff_ffff { mark, width := 254, 4; }
      s.Write([mark]);
      s.Write(LE(n, width));
      CountedTwice(a, [mark], LE(n, width));
    }
  }

  method CountBytes(s: CSizeComputer, v: seq<Byte>)
    requires |v| < 0x1_0000_0000_0000_0000
    modifies s
    ensures s.nSize == Counted(old(s.nSize), SerBytes(v))
  {
    hide SerCompact, Counted;
    ghost var a := s.nSize;
    CountCompactSize(s, |v|);
    CountedTwice(a, SerCompact(|v|), v);
    if v != [] { s.Write(v); } else { CountedOnce(a, SerCompact(|v|)); }
  }

  lemma CountedOnce(n: nat, a: seq<Byte>)
    ensures Counted(Counted(n, a), []) == Counted(n, a)
  {
  }

  method CountEntry(s: CSizeComputer, e: Entry)
    requires Typed(e)
    modifies s
    ensures s.nSize == Counted(old(s.nSize), SerEntry(e))
  {
    hide LE, SerBytes, Pattern, Counted;
    ghost var a := s.nSize;
    match e {
      case CTxIn(p, script, q) =>
        s.Write(p.hash);
        s.Write(LE(p.n, 4));
        CountedTwice(a, p.hash, LE(p.n, 4));
        CountBytes(s, script);
        CountedTwice(a, SerOutPoint(p), SerBytes(script));
        s.Write(LE(q, 4));
        CountedTwice(a, SerOutPoint(p) + SerBytes(script), LE(q, 4));
        assert SerOutPoint(p) + SerBytes(script) + LE(q, 4) == SerEntry(e);
      case CTxOut(v, script) =>
        s.Write(LE(Pattern(v, 8), 8));
        CountBytes(s, script);
        CountedTwice(a, LE(Pattern(v, 8), 8), SerBytes(script));
    }
  }

  method CountVector(s: CSizeComputer, v: seq<Entry>)
    requires |v| < 0x1_0000_0000 && forall i :: 0 <= i < |v| ==> Typed(v[i])
    modifies s
    ensures s.nSize == Counted(old(s.nSize), SerVector(v))
  {
    hide SerCompact, SerEntry, SerAll, Typed, Counted;
    ghost var a := s.nSize;
    CountCompactSize(s, |v|);
    CountedTwice(a, SerCompact(|v|), SerAll(v));
    ghost var total := Counted(s.nSize, SerAll(v));
    AllSplit(v, 0);
    for i := 0 to |v|
      invariant s.nSize < SIZE_RANGE && Counted(s.nSize, SerAll(v[i..])) == total
    {
      AllSplit(v, i);
      CountedTwice(s.nSize, SerEntry(v[i]), SerAll(v[i + 1..]));
      CountEntry(s, v[i]);
    }
    AllSplit(v, |v|);
    CountedNothing(s.nSize);
  }

  lemma CountedNothing(n: nat)
    ensures n < SIZE_RANGE ==> Counted(n, []) == n
  {
  }

  /** GetSerializeSize runs the writers over the counter: the length of the writing, modulo 2^64. */
  method GetSerializeSize(t: CTransaction) returns (size: nat)
    requires TypedTx(t)
    ensures size == SizeTx(t) % SIZE_RANGE == |SerTx(t)| % SIZE_RANGE
  {
    hide LE, SerVector, Pattern, Typed, Counted, SizeTx;
    var s := new CSizeComputer();
    var version, lock := LE(Pattern(t.nVersion, 4), 4), LE(t.nLockTime, 4);
    s.Write(version);
    CountVector(s, t.vin);
    CountedTwice(0, version, SerVector(t.vin));
    CountVector(s, t.vout);
    CountedTwice(0, version + SerVector(t.vin), SerVector(t.vout));
    s.Write(lock);
    CountedTwice(0, version + SerVector(t.vin) + SerVector(t.vout), lock);
    assert version + SerVector(t.vin) + SerVector(t.vout) + lock == SerTx(t);
    SizeTxIs(t);
    CountedFromZero(SerTx(t));
    size := s.nSize;
  }

  lemma CountedFromZero(b: seq<Byte>)
    ensures Counted(0, b) == |b| % SIZE_RANGE
  {
  }
}
