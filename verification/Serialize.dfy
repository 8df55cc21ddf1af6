/** The wire format of common/serialize.h and primitives/transaction.h, as functions on byte strings. */
module Serialize {
  import opened Options
  import opened Powers
  import opened Bytes

  const MAX_SIZE: nat := 0x0200_0000

  // ----- CompactSize -----

  function SerCompact(n: nat): seq<Byte>
    requires n < 0x1_0000_0000_0000_0000
  {
    if n < 253 then [n]
    else if n <= 0xffff then [253] + LE(n, 2)
    else if n <= 0xffff_ffff then [254] + LE(n, 4)
    else [255] + LE(n, 8)
  }

  /** A canonical value no larger than MAX_SIZE. */
  function Checked(r: Parsed<nat>, least: nat): Parsed<nat> {
    if r.Some? && least <= r.value.0 <= MAX_SIZE then r else None
  }

  function ParseCompact(b: seq<Byte>): Parsed<nat> {
    if b == [] then None
    else if b[0] < 253 then Some((b[0], b[1..]))
    else if b[0] == 253 then Checked(TakeLE(b[1..], 2), 253)
    else if b[0] == 254 then Checked(TakeLE(b[1..], 4), 0x1_0000)
    else Checked(TakeLE(b[1..], 8), 0x1_0000_0000)
  }

  /** Exactly the sizes up to MAX_SIZE are read, each from its one canonical form. */
  lemma {:induction false} CompactIff(b: seq<Byte>, n: nat, rest: seq<Byte>)
    ensures ParseCompact(b) == Some((n, rest)) <==> n <= MAX_SIZE && b == SerCompact(n) + rest
  {
    hide LE, TakeLE, Pow;
    PowersOf256();
    if b != [] {
      assert b == [b[0]] + b[1..];
      TakeLEIff(b[1..], 2, n, rest);
      TakeLEIff(b[1..], 4, n, rest);
      TakeLEIff(b[1..], 8, n, rest);
    }
    if n <= MAX_SIZE && b == SerCompact(n) + rest {
      assert n < 253 ==> b[1..] == rest;
      assert 253 <= n <= 0xffff ==> b[1..] == LE(n, 2) + rest;
      assert n > 0xffff ==> b[1..] == LE(n, 4) + rest;
    }
    if b != [] && b[0] >= 253 {
      assert b[0] == 253 && b[1..] == LE(n, 2) + rest ==> b == [253] + LE(n, 2) + rest;
      assert b[0] == 254 && b[1..] == LE(n, 4) + rest ==> b == [254] + LE(n, 4) + rest;
    }
  }

  /** The boundaries of the short forms. */
  lemma CompactBoundaries()
    ensures SerCompact(252) == [252] && SerCompact(253) == [253, 253, 0] && SerCompact(0xffff) == [253, 0xff, 0xff]
    ensures SerCompact(0x1_0000) == [254, 0, 0, 1, 0]
  {
    assert LE(253, 2) == [253, 0] && LE(0xffff, 2) == [0xff, 0xff];
    assert LE(0x100, 2) == [0, 1] + LE(0, 0);
    assert LE(1, 2) == [1, 0];
    assert LE(0x1_0000, 4) == [0, 0] + LE(1, 2);
  }

  /** The largest size that is read, and the next one. */
  lemma CompactLimit()
    ensures ParseCompact([254, 0, 0, 0, 2]) == Some((0x0200_0000, [])) && ParseCompact([254, 1, 0, 0, 2]).None?
  {
    FromFour(0, 0, 0, 2);
    FromFour(1, 0, 0, 2);
    hide FromLE;
    assert [254, 0, 0, 0, 2][1..] == [0, 0, 0, 2] && [0, 0, 0, 2][..4] == [0, 0, 0, 2];
    assert [254, 1, 0, 0, 2][1..] == [1, 0, 0, 2] && [1, 0, 0, 2][..4] == [1, 0, 0, 2];
  }

  lemma FromFour(a: Byte, b: Byte, c: Byte, d: Byte)
    ensures FromLE([a, b, c, d]) == a as int + 0x100 * b as int + 0x1_0000 * c as int + 0x100_0000 * d as int
  {
    assert [a, b, c, d][1..] == [b, c, d] && [b, c, d][1..] == [c, d] && [c, d][1..] == [d] && [d][1..] == [];
    assert FromLE([d]) == d as int + 0x100 * FromLE([]);
    assert FromLE([c, d]) == c as int + 0x100 * FromLE([d]);
    assert FromLE([b, c, d]) == b as int + 0x100 * FromLE([c, d]);
  }

  function GetSizeOfCompactSize(n: nat): nat {
    if n < 253 then 1 else if n <= 0xffff then 3 else if n <= 0xffff_ffff then 5 else 9
  }

  // ----- Byte vectors: scripts -----

  function SerBytes(s: seq<Byte>): seq<Byte>
    requires |s| < 0x1_0000_0000_0000_0000
  {
    SerCompact(|s|) + s
  }

  function ParseBytes(b: seq<Byte>): Parsed<seq<Byte>> {
    match ParseCompact(b)
    case None => None
    case Some(c) => TakeBytes(c.1, c.0)
  }

  lemma {:induction false} BytesIff(b: seq<Byte>, s: seq<Byte>, rest: seq<Byte>)
    ensures ParseBytes(b) == Some((s, rest)) <==> |s| <= MAX_SIZE && b == SerBytes(s) + rest
  {
    hide SerCompact, ParseCompact, TakeBytes;
    var c := ParseCompact(b);
    if ParseBytes(b) == Some((s, rest)) {
      CompactIff(b, c.value.0, c.value.1);
      TakeBytesIff(c.value.1, c.value.0, s, rest);
      assert SerCompact(|s|) + (s + rest) == SerBytes(s) + rest;
    }
    if |s| <= MAX_SIZE && b == SerBytes(s) + rest {
      assert b == SerCompact(|s|) + (s + rest);
      CompactIff(b, |s|, s + rest);
      TakeBytesIff(s + rest, |s|, s, rest);
    }
  }

  // ----- Signed integers, as their unsigned bit patterns -----

  predicate IsSigned(v: int, k: nat) { -Half(k) <= v < Half(k) }

  /** 2^(8k - 1) for the two widths in use. */
  function Half(k: nat): int { if k == 4 then 0x8000_0000 else 0x8000_0000_0000_0000 }

  function Pattern(v: int, k: nat): nat
    requires IsSigned(v, k)
  {
    if v < 0 then v + 2 * Half(k) else v
  }

  /** Two's complement: the pattern differs from the number by a multiple of 256^k. */
  lemma PatternIs(v: int, k: nat)
    requires (k == 4 || k == 8) && IsSigned(v, k)
    ensures Pattern(v, k) < Pow(256, k) && (Pattern(v, k) == v || Pattern(v, k) == v + Pow(256, k))
  {
    PowersOf256();
    hide Pow;
  }

  function TakeSigned(b: seq<Byte>, k: nat): Parsed<int>
    requires k == 4 || k == 8
  {
    match TakeLE(b, k)
    case None => None
    case Some(c) => Some((if c.0 < Half(k) then c.0 else c.0 - 2 * Half(k), c.1))
  }

  lemma {:induction false} TakeSignedIff(b: seq<Byte>, k: nat, v: int, rest: seq<Byte>)
    requires k == 4 || k == 8
    ensures TakeSigned(b, k) == Some((v, rest)) <==> IsSigned(v, k) && b == LE(Pattern(v, k), k) + rest
  {
    hide TakeLE, LE, Pow;
    PowersOf256();
    var c := TakeLE(b, k);
    if c.Some? { TakeLEIff(b, k, c.value.0, c.value.1); }
    if IsSigned(v, k) { TakeLEIff(b, k, Pattern(v, k), rest); }
  }

  // ----- Transactions -----

  datatype COutPoint = COutPoint(hash: seq<Byte>, n: nat)

  /** The two element types of a transaction's vectors. */
  datatype Entry =
    | CTxIn(prevout: COutPoint, scriptSig: seq<Byte>, nSequence: nat)
    | CTxOut(nValue: int, scriptPubKey: seq<Byte>)

  datatype CTransaction = CTransaction(nVersion: int, vin: seq<Entry>, vout: seq<Entry>, nLockTime: nat)

  /** The ranges of the C++ field types. */
  predicate Typed(e: Entry) {
    match e
    case CTxIn(p, s, q) => |p.hash| == 32 && p.n < 0x1_0000_0000 && q < 0x1_0000_0000 && |s| < 0x1_0000_0000
    case CTxOut(v, s) => IsSigned(v, 8) && |s| < 0x1_0000_0000
  }

  /** Entries the reader can return: their scripts are within MAX_SIZE. */
  predicate Readable(e: Entry) {
    Typed(e) && (if e.CTxIn? then |e.scriptSig| else |e.scriptPubKey|) <= MAX_SIZE
  }

  predicate All(v: seq<Entry>, isIn: bool) {
    forall i :: 0 <= i < |v| ==> Typed(v[i]) && v[i].CTxIn? == isIn
  }

  predicate AllReadable(v: seq<Entry>, isIn: bool) {
    forall i :: 0 <= i < |v| ==> Readable(v[i]) && v[i].CTxIn? == isIn
  }

  predicate TypedTx(t: CTransaction) {
    && IsSigned(t.nVersion, 4) && t.nLockTime < 0x1_0000_0000
    && All(t.vin, true) && All(t.vout, false) && |t.vin| < 0x1_0000_0000 && |t.vout| < 0x1_0000_0000
  }

  predicate ReadableTx(t: CTransaction) {
    && IsSigned(t.nVersion, 4) && t.nLockTime < 0x1_0000_0000
    && AllReadable(t.vin, true) && AllReadable(t.vout, false) && |t.vin| <= MAX_SIZE && |t.vout| <= MAX_SIZE
  }

  function SerOutPoint(p: COutPoint): seq<Byte> { p.hash + LE(p.n, 4) }

  function SerEntry(e: Entry): seq<Byte>
    requires Typed(e)
  {
    match e
    case CTxIn(p, s, q) => SerOutPoint(p) + (SerBytes(s) + LE(q, 4))
    case CTxOut(v, s) => LE(Pattern(v, 8), 8) + SerBytes(s)
  }

  function SerAll(v: seq<Entry>): seq<Byte>
    requires forall i :: 0 <= i < |v| ==> Typed(v[i])
  {
    if v == [] then [] else SerEntry(v[0]) + SerAll(v[1..])
  }

  function SerVector(v: seq<Entry>): seq<Byte>
    requires |v| < 0x1_0000_0000 && forall i :: 0 <= i < |v| ==> Typed(v[i])
  {
    SerCompact(|v|) + SerAll(v)
  }

  function SerTx(t: CTransaction): seq<Byte>
    requires TypedTx(t)
  {
    LE(Pattern(t.nVersion, 4), 4) + (SerVector(t.vin) + (SerVector(t.vout) + LE(t.nLockTime, 4)))
  }

  function ParseOutPoint(b: seq<Byte>): Parsed<COutPoint> {
    match TakeBytes(b, 32)
    case None => None
    case Some(h) =>
      match TakeLE(h.1, 4)
      case None => None
      case Some(n) => Some((COutPoint(h.0, n.0), n.1))
  }

  function ParseIn(b: seq<Byte>): Parsed<Entry> {
    match ParseOutPoint(b)
    case None => None
    case Some(p) =>
      match ParseBytes(p.1)
      case None => None
      case Some(s) =>
        match TakeLE(s.1, 4)
        case None => None
        case Some(q) => Some((CTxIn(p.0, s.0, q.0), q.1))
  }

  function ParseOut(b: seq<Byte>): Parsed<Entry> {
    match TakeSigned(b, 8)
    case None => None
    case Some(v) =>
      match ParseBytes(v.1)
      case None => None
      case Some(s) => Some((CTxOut(v.0, s.0), s.1))
  }

  function ParseEntry(isIn: bool, b: seq<Byte>): Parsed<Entry> {
    if isIn then ParseIn(b) else ParseOut(b)
  }

  function ParseAll(isIn: bool, b: seq<Byte>, n: nat): Parsed<seq<Entry>> {
    if n == 0 then Some(([], b)) else
      match ParseEntry(isIn, b)
      case None => None
      case Some(e) =>
        match ParseAll(isIn, e.1, n - 1)
        case None => None
        case Some(v) => Some(([e.0] + v.0, v.1))
  }

  function ParseVector(isIn: bool, b: seq<Byte>): Parsed<seq<Entry>> {
    match ParseCompact(b)
    case None => None
    case Some(c) => ParseAll(isIn, c.1, c.0)
  }

  function ParseTx(b: seq<Byte>): Parsed<CTransaction> {
    match TakeSigned(b, 4)
    case None => None
    case Some(ver) =>
      match ParseVector(true, ver.1)
      case None => None
      case Some(vin) =>
        match ParseVector(false, vin.1)
        case None => None
        case Some(vout) =>
          match TakeLE(vout.1, 4)
          case None => None
          case Some(lock) => Some((CTransaction(ver.0, vin.0, vout.0, lock.0), lock.1))
  }

  // ----- Reading is exactly the inverse of writing, at every level -----

  lemma {:induction false} OutPointIff(b: seq<Byte>, p: COutPoint, rest: seq<Byte>)
    ensures ParseOutPoint(b) == Some((p, rest)) <==> |p.hash| == 32 && p.n < 0x1_0000_0000 && b == SerOutPoint(p) + rest
  {
    hide TakeBytes, TakeLE, LE, Pow;
    PowersOf256();
    var h := TakeBytes(b, 32);
    if ParseOutPoint(b) == Some((p, rest)) {
      TakeBytesIff(b, 32, h.value.0, h.value.1);
      TakeLEIff(h.value.1, 4, p.n, rest);
    }
    if |p.hash| == 32 && p.n < 0x1_0000_0000 && b == SerOutPoint(p) + rest {
      assert b == p.hash + (LE(p.n, 4) + rest);
      TakeBytesIff(b, 32, p.hash, LE(p.n, 4) + rest);
      TakeLEIff(LE(p.n, 4) + rest, 4, p.n, rest);
    }
  }

  lemma {:induction false} InIff(b: seq<Byte>, e: Entry, rest: seq<Byte>)
    ensures ParseIn(b) == Some((e, rest)) <==> Readable(e) && e.CTxIn? && b == SerEntry(e) + rest
  {
    hide ParseOutPoint, ParseBytes, TakeLE, LE, Pow, SerOutPoint, SerBytes;
    PowersOf256();
    if ParseIn(b) == Some((e, rest)) {
      var p := ParseOutPoint(b).value;
      var s := ParseBytes(p.1).value;
      OutPointIff(b, p.0, p.1);
      BytesIff(p.1, s.0, s.1);
      TakeLEIff(s.1, 4, e.nSequence, rest);
    }
    if Readable(e) && e.CTxIn? && b == SerEntry(e) + rest {
      var s, q := SerBytes(e.scriptSig), LE(e.nSequence, 4);
      assert b == SerOutPoint(e.prevout) + (s + (q + rest));
      OutPointIff(b, e.prevout, s + (q + rest));
      BytesIff(s + (q + rest), e.scriptSig, q + rest);
      TakeLEIff(q + rest, 4, e.nSequence, rest);
    }
  }

  lemma {:induction false} OutIff(b: seq<Byte>, e: Entry, rest: seq<Byte>)
    ensures ParseOut(b) == Some((e, rest)) <==> Readable(e) && e.CTxOut? && b == SerEntry(e) + rest
  {
    hide TakeSigned, ParseBytes, LE, Pattern, SerBytes, IsSigned;
    if ParseOut(b) == Some((e, rest)) {
      var v := TakeSigned(b, 8).value;
      TakeSignedIff(b, 8, v.0, v.1);
      BytesIff(v.1, e.scriptPubKey, rest);
    }
    if Readable(e) && e.CTxOut? && b == SerEntry(e) + rest {
      var s := SerBytes(e.scriptPubKey);
      assert b == LE(Pattern(e.nValue, 8), 8) + (s + rest);
      TakeSignedIff(b, 8, e.nValue, s + rest);
      BytesIff(s + rest, e.scriptPubKey, rest);
    }
  }

  lemma {:induction false} EntryIff(isIn: bool, b: seq<Byte>, e: Entry, rest: seq<Byte>)
    ensures ParseEntry(isIn, b) == Some((e, rest)) <==> Readable(e) && e.CTxIn? == isIn && b == SerEntry(e) + rest
  {
    hide ParseIn, ParseOut, SerEntry, Readable;
    if isIn { InIff(b, e, rest); } else { OutIff(b, e, rest); }
  }

  lemma {:induction false} AllIff(isIn: bool, b: seq<Byte>, n: nat, v: seq<Entry>, rest: seq<Byte>)
    ensures ParseAll(isIn, b, n) == Some((v, rest)) <==> |v| == n && AllReadable(v, isIn) && b == SerAll(v) + rest
    decreases n
  {
    hide ParseEntry, SerEntry, Readable;
    TypedIfReadable(v, isIn);
    if n == 0 {
      assert [] + rest == rest && [] + b == b;
    } else {
      if ParseAll(isIn, b, n) == Some((v, rest)) {
        var e := ParseEntry(isIn, b).value;
        EntryIff(isIn, b, e.0, e.1);
        var tail := ParseAll(isIn, e.1, n - 1).value.0;
        AllIff(isIn, e.1, n - 1, tail, rest);
        assert v == [e.0] + tail && v[1..] == tail;
        assert AllReadable(v, isIn);
        TypedIfReadable(v, isIn);
      }
      if |v| == n && AllReadable(v, isIn) && b == SerAll(v) + rest {
        var more := SerAll(v[1..]) + rest;
        assert b == SerEntry(v[0]) + more;
        EntryIff(isIn, b, v[0], more);
        AllIff(isIn, more, n - 1, v[1..], rest);
        assert [v[0]] + v[1..] == v;
      }
    }
  }

  lemma {:induction false} VectorIff(isIn: bool, b: seq<Byte>, v: seq<Entry>, rest: seq<Byte>)
    ensures ParseVector(isIn, b) == Some((v, rest)) <==> |v| <= MAX_SIZE && AllReadable(v, isIn) && b == SerVector(v) + rest
  {
    hide ParseCompact, SerCompact, ParseAll, SerAll, Readable, Typed;
    TypedIfReadable(v, isIn);
    if ParseVector(isIn, b) == Some((v, rest)) {
      var c := ParseCompact(b).value;
      CompactIff(b, c.0, c.1);
      AllIff(isIn, c.1, c.0, v, rest);
      assert SerCompact(|v|) + (SerAll(v) + rest) == SerVector(v) + rest;
    }
    if |v| <= MAX_SIZE && AllReadable(v, isIn) && b == SerVector(v) + rest {
      assert b == SerCompact(|v|) + (SerAll(v) + rest);
      CompactIff(b, |v|, SerAll(v) + rest);
      AllIff(isIn, SerAll(v) + rest, |v|, v, rest);
    }
  }

  lemma TypedIfReadable(v: seq<Entry>, isIn: bool)
    ensures AllReadable(v, isIn) ==> forall i :: 0 <= i < |v| ==> Typed(v[i])
  {
  }

  /** A byte string is read as t, leaving rest, exactly when it is the writing of t followed by rest. */
  lemma {:induction false} TxIff(b: seq<Byte>, t: CTransaction, rest: seq<Byte>)
    ensures ParseTx(b) == Some((t, rest)) <==> ReadableTx(t) && b == SerTx(t) + rest
  {
    hide TakeSigned, ParseVector, TakeLE, LE, Pow, SerVector, Pattern, IsSigned, Typed, Readable;
    PowersOf256();
    TypedIfReadable(t.vin, true);
    TypedIfReadable(t.vout, false);
    if ParseTx(b) == Some((t, rest)) {
      var ver := TakeSigned(b, 4).value;
      var vin := ParseVector(true, ver.1).value;
      var vout := ParseVector(false, vin.1).value;
      TakeSignedIff(b, 4, ver.0, ver.1);
      VectorIff(true, ver.1, vin.0, vin.1);
      VectorIff(false, vin.1, vout.0, vout.1);
      TakeLEIff(vout.1, 4, t.nLockTime, rest);
    }
    if ReadableTx(t) && b == SerTx(t) + rest {
      var vin, vout, lock := SerVector(t.vin), SerVector(t.vout), LE(t.nLockTime, 4);
      assert b == LE(Pattern(t.nVersion, 4), 4) + (vin + (vout + (lock + rest)));
      TakeSignedIff(b, 4, t.nVersion, vin + (vout + (lock + rest)));
      VectorIff(true, vin + (vout + (lock + rest)), t.vin, vout + (lock + rest));
      VectorIff(false, vout + (lock + rest), t.vout, lock + rest);
      TakeLEIff(lock + rest, 4, t.nLockTime, rest);
    }
  }

  /** Unserializing a serialized transaction followed by any bytes returns it and leaves those bytes. */
  lemma TxRoundTrip(t: CTransaction, rest: seq<Byte>)
    requires ReadableTx(t)
    ensures TypedTx(t) && ParseTx(SerTx(t) + rest) == Some((t, rest))
  {
    hide ParseTx, SerTx;
    TxIff(SerTx(t) + rest, t, rest);
  }

  /** No transaction's writing is a prefix of another's. */
  lemma {:induction false} PrefixFree(t: CTransaction, u: CTransaction, x: seq<Byte>, y: seq<Byte>)
    requires ReadableTx(t) && ReadableTx(u)
    ensures TypedTx(t) && TypedTx(u) && (SerTx(t) + x == SerTx(u) + y ==> t == u && x == y)
  {
    hide ParseTx, SerTx, ReadableTx;
    TxRoundTrip(t, x);
    TxRoundTrip(u, y);
  }

  // ----- Sizes, as the size-computing stream adds them up -----

  function SizeBytes(s: seq<Byte>): nat { GetSizeOfCompactSize(|s|) + |s| }

  function SizeEntry(e: Entry): nat {
    match e
    case CTxIn(p, s, q) => 36 + SizeBytes(s) + 4
    case CTxOut(v, s) => 8 + SizeBytes(s)
  }

  function SizeAll(v: seq<Entry>): nat {
    if v == [] then 0 else SizeEntry(v[0]) + SizeAll(v[1..])
  }

  function SizeTx(t: CTransaction): nat {
    4 + GetSizeOfCompactSize(|t.vin|) + SizeAll(t.vin) + GetSizeOfCompactSize(|t.vout|) + SizeAll(t.vout) + 4
  }

  lemma {:induction false} SizeAllIs(v: seq<Entry>)
    requires forall i :: 0 <= i < |v| ==> Typed(v[i])
    ensures |SerAll(v)| == SizeAll(v)
  {
    if v != [] { SizeAllIs(v[1..]); }
  }

  /** GetSerializeSize is the length of the writing. */
  lemma {:induction false} SizeTxIs(t: CTransaction)
    requires TypedTx(t)
    ensures |SerTx(t)| == SizeTx(t)
  {
    hide SerAll, SizeAll, Typed;
    SizeAllIs(t.vin);
    SizeAllIs(t.vout);
  }
}
