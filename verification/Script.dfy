/** CScript of primitives/script.h: building scripts by pushes and reading them back with GetOp2. */
module Script {
  import opened Options
  import opened Powers
  import opened Bytes
  import ScriptNum
  import P = Prevector

  const OP_PUSHDATA1: Byte := 0x4c
  const OP_PUSHDATA2: Byte := 0x4d
  const OP_PUSHDATA4: Byte := 0x4e
  const OP_1: Byte := 0x51
  const OP_INVALIDOPCODE: Byte := 0xff

  // ----- One instruction: its opcode and its immediate operand -----

  datatype Step = Step(opcode: Byte, data: seq<Byte>)

  /** How many bytes of size follow the opcode. */
  function Width(opcode: Byte): nat {
    if opcode == OP_PUSHDATA1 then 1 else if opcode == OP_PUSHDATA2 then 2 else if opcode == OP_PUSHDATA4 then 4 else 0
  }

  predicate WellFormed(st: Step) {
    if st.opcode < OP_PUSHDATA1 then |st.data| == st.opcode
    else if st.opcode <= OP_PUSHDATA4 then |st.data| < Pow(256, Width(st.opcode))
    else st.data == []
  }

  function StepBytes(st: Step): seq<Byte> {
    [st.opcode] + (LE(|st.data|, Width(st.opcode)) + st.data)
  }

  /** The operand's size, off the bytes after the opcode. */
  function ParseSize(opcode: Byte, b: seq<Byte>): Parsed<nat> {
    if opcode < OP_PUSHDATA1 then Some((opcode, b))
    else if opcode <= OP_PUSHDATA4 then TakeLE(b, Width(opcode))
    else Some((0, b))
  }

  function NextOp(b: seq<Byte>): Parsed<Step> {
    if b == [] then None else
      match ParseSize(b[0], b[1..])
      case None => None
      case Some(c) =>
        match TakeBytes(c.1, c.0)
        case None => None
        case Some(d) => Some((Step(b[0], d.0), d.1))
  }

  lemma {:induction false} SizeIff(opcode: Byte, b: seq<Byte>, data: seq<Byte>, rest: seq<Byte>)
    ensures ParseSize(opcode, b) == Some((|data|, rest)) <==>
      WellFormed(Step(opcode, data)) && b == LE(|data|, Width(opcode)) + rest
  {
    hide TakeLE, Pow;
    TakeLEIff(b, Width(opcode), |data|, rest);
    if Width(opcode) == 0 { assert LE(|data|, 0) + rest == rest; }
  }

  /** GetOp2 accepts exactly the well-formed instructions, and consumes exactly their bytes. */
  lemma {:induction false} NextOpIff(b: seq<Byte>, st: Step, rest: seq<Byte>)
    ensures NextOp(b) == Some((st, rest)) <==> WellFormed(st) && b == StepBytes(st) + rest
  {
    hide ParseSize, TakeBytes, LE, WellFormed;
    var size := LE(|st.data|, Width(st.opcode));
    if b != [] {
      assert b == [b[0]] + b[1..];
      var c := ParseSize(b[0], b[1..]);
      if c.Some? { TakeBytesIff(c.value.1, c.value.0, st.data, rest); }
      SizeIff(b[0], b[1..], st.data, st.data + rest);
      TakeBytesIff(st.data + rest, |st.data|, st.data, rest);
      assert StepBytes(st) + rest == [st.opcode] + (size + (st.data + rest));
      if b == StepBytes(st) + rest { assert b[1..] == size + (st.data + rest); }
    }
  }

  // ----- Whole scripts -----

  function Ops(b: seq<Byte>): Option<seq<Step>>
    decreases |b|
  {
    if b == [] then Some([]) else
      match NextOp(b)
      case None => None
      case Some(c) =>
        Consumes(b);
        match Ops(c.1)
        case None => None
        case Some(steps) => Some([c.0] + steps)
  }

  lemma {:induction false} Consumes(b: seq<Byte>)
    ensures NextOp(b).Some? ==> |NextOp(b).value.1| < |b|
  {
    hide NextOp;
    if NextOp(b).Some? { NextOpIff(b, NextOp(b).value.0, NextOp(b).value.1); }
  }

  function AllBytes(steps: seq<Step>): seq<Byte> {
    if steps == [] then [] else StepBytes(steps[0]) + AllBytes(steps[1..])
  }

  /** Parsing to the end is the inverse of laying out well-formed instructions. */
  lemma {:induction false} OpsIff(b: seq<Byte>, steps: seq<Step>)
    ensures Ops(b) == Some(steps) <==> (forall i :: 0 <= i < |steps| ==> WellFormed(steps[i])) && b == AllBytes(steps)
    decreases |b|
  {
    hide NextOp, WellFormed;
    if b != [] {
      Consumes(b);
      if steps != [] {
        var st, more := steps[0], steps[1..];
        assert steps == [st] + more;
        NextOpIff(b, st, AllBytes(more));
        if NextOp(b).Some? {
          var c := NextOp(b).value;
          NextOpIff(b, c.0, c.1);
          OpsIff(c.1, more);
        }
      }
    }
  }

  // ----- Building -----

  datatype Item = Data(bytes: seq<Byte>) | Number(n: int) | Opcode(code: Byte)

  /** What the source can push: vectors with a 32-bit size, int64 numbers whose negation exists, OP_0 and non-push opcodes. */
  predicate Pushable(i: Item) {
    match i
    case Data(d) => |d| < 0x1_0000_0000
    case Number(n) => -ScriptNum.INT64_BOUND < n < ScriptNum.INT64_BOUND
    case Opcode(c) => c == 0 || c > OP_PUSHDATA4
  }

  function DataStep(d: seq<Byte>): Step {
    if |d| < OP_PUSHDATA1 then Step(|d|, d)
    else Step(if |d| <= 0xff then OP_PUSHDATA1 else if |d| <= 0xffff then OP_PUSHDATA2 else OP_PUSHDATA4, d)
  }

  /** The instruction an item becomes. */
  function StepOf(i: Item): Step {
    match i
    case Data(d) => DataStep(d)
    case Number(n) =>
      if n == -1 || 1 <= n <= 16 then Step(n + (OP_1 - 1) as int, []) else DataStep(ScriptNum.Encoding(n))
    case Opcode(c) => Step(c, [])
  }

  lemma {:induction false} StepOfIsWellFormed(i: Item)
    requires Pushable(i)
    ensures WellFormed(StepOf(i))
  {
    hide Pow, ScriptNum.Encoding;
    PowersOf256();
    if i.Number? { ScriptNum.EncodingFits(i.n); }
  }

  function Build(items: seq<Item>): seq<Byte> {
    if items == [] then [] else StepBytes(StepOf(items[0])) + Build(items[1..])
  }

  function StepsOf(items: seq<Item>): seq<Step> {
    if items == [] then [] else [StepOf(items[0])] + StepsOf(items[1..])
  }

  /** Parsing a built script returns exactly its items, and consumes every byte. */
  lemma {:induction false} ParsesWhatWasBuilt(items: seq<Item>)
    requires forall i :: 0 <= i < |items| ==> Pushable(items[i])
    ensures Ops(Build(items)) == Some(StepsOf(items))
  {
    hide StepOf, WellFormed, StepBytes, NextOp, Pushable;
    if items != [] {
      var st := StepOf(items[0]);
      StepOfIsWellFormed(items[0]);
      ParsesWhatWasBuilt(items[1..]);
      NextOpIff(Build(items), st, Build(items[1..]));
      StepNonEmpty(st);
    }
  }

  lemma StepNonEmpty(st: Step)
    ensures StepBytes(st) != []
  {
  }

  /** A pushed number comes back as a small-integer opcode or as its one minimal encoding. */
  lemma {:induction false} NumberComesBack(n: int)
    requires Pushable(Number(n))
    ensures var st := StepOf(Number(n));
      if n == -1 || 1 <= n <= 16 then st.data == [] && st.opcode == 0x50 + n
      else ScriptNum.Minimal(st.data) && ScriptNum.Value(st.data) == n
  {
    ScriptNum.EncodingIs(n);
  }

  // ----- The code -----

  /** CScriptBase. */
  const INLINE: nat := 28

  /** Done, thrown with nothing changed, or broken: item_ptr did not point to the end of the script. */
  datatype Pushed = Done | Thrown | Broken

  /** At the end of a script, a position is right exactly as long as the script stays below 2^31 bytes. */
  lemma InsertFits(s: seq<Byte>, xs: seq<Byte>, cap: nat)
    requires cap < P.UINT_RANGE
    ensures P.Fits(P.InsertAll(|s|, xs), s, cap, INLINE) <==> |s| + |xs| < P.INT_BOUND
    ensures |xs| == 1 ==> (P.Fits(P.Insert(|s|, xs[0]), s, cap, INLINE) <==> |s| + 1 < P.INT_BOUND)
    ensures |xs| == 1 ==> (P.Fits(P.PushBack(xs[0]), s, cap, INLINE) <==> |s| < P.INT_BOUND)
    ensures s[..|s|] + xs + s[|s|..] == s + xs
  {
  }

  class CScript {
    const base: P.Prevector<Byte>

    ghost predicate Valid()
      reads this, base
    {
      base.Valid() && base.N == INLINE
    }

    function Bytes(): seq<Byte>
      requires Valid()
      reads this, base
    {
      base.Contents()
    }

    constructor ()
      ensures Valid() && Bytes() == [] && fresh(base)
    {
      base := new P.Prevector<Byte>(INLINE);
    }

    /** insert(end(), first, last) */
    method InsertAtEnd(xs: seq<Byte>) returns (ok: bool)
      requires Valid()
      modifies base
      ensures ok <==> |old(Bytes())| + |xs| < P.INT_BOUND
      ensures ok ==> Valid() && Bytes() == old(Bytes()) + xs
    {
      hide P.Fits, P.NextCapacity;
      assert |Bytes()| == base.Size();
      InsertFits(Bytes(), xs, base.Capacity());
      ok := base.InsertItems(base.Size(), xs);
    }

    /** insert(end(), value) */
    method InsertByte(x: Byte) returns (ok: bool)
      requires Valid()
      modifies base
      ensures ok <==> |old(Bytes())| + 1 < P.INT_BOUND
      ensures ok ==> Valid() && Bytes() == old(Bytes()) + [x]
    {
      hide P.Fits, P.NextCapacity;
      assert |Bytes()| == base.Size();
      InsertFits(Bytes(), [x], base.Capacity());
      ok := base.InsertOne(base.Size(), x);
    }

    /** push_back(value) */
    method PushByte(x: Byte) returns (ok: bool)
      requires Valid()
      modifies base
      ensures ok <==> |old(Bytes())| < P.INT_BOUND
      ensures ok ==> Valid() && Bytes() == old(Bytes()) + [x]
    {
      hide P.Fits, P.NextCapacity;
      assert |Bytes()| == base.Size();
      InsertFits(Bytes(), [x], base.Capacity());
      ok := base.Push(x);
    }

    /** The opcode and the size of a push. */
    method PushHeader(n: nat) returns (ok: bool)
      requires Valid()
      modifies base
      ensures ok <==> |old(Bytes())| + |Header(n)| < P.INT_BOUND
      ensures ok ==> Valid() && Bytes() == old(Bytes()) + Header(n)
    {
      hide LE, Valid, Bytes;
      ghost var b := Bytes();
      if n < 0x4c {
        ok := InsertByte(n);
      } else if n <= 0xff {
        ok := InsertByte(OP_PUSHDATA1);
        if !ok { return; }
        ok := InsertByte(n);
        assert b + [OP_PUSHDATA1] + [n] == b + [OP_PUSHDATA1, n];
      } else {
        var op, width := OP_PUSHDATA4, 4;
        if n <= 0xffff { op, width := OP_PUSHDATA2, 2; }
        ok := InsertByte(op);
        if !ok { return; }
        ok := InsertAtEnd(LE(n, width));
        assert b + [op] + LE(n, width) == b + ([op] + LE(n, width));
      }
    }

    /** The shortest push of a vector, as long as the script stays below 2^31 bytes. */
    method PushVector(b: seq<Byte>) returns (ok: bool)
      requires Valid()
      modifies base
      ensures ok <==> |old(Bytes())| + |StepBytes(DataStep(b))| < P.INT_BOUND
      ensures ok ==> Valid() && Bytes() == old(Bytes()) + StepBytes(DataStep(b))
    {
      HeaderIs(b);
      hide Header, StepBytes, DataStep, Valid, Bytes;
      ghost var was := Bytes();
      ok := PushHeader(|b|);
      if !ok { return; }
      ok := InsertAtEnd(b);
      assert was + Header(|b|) + b == was + (Header(|b|) + b);
    }

    /** Any int64 but the least, whose negation does not exist. */
    method PushInt64(n: int) returns (ok: bool)
      requires Valid() && -ScriptNum.INT64_BOUND < n < ScriptNum.INT64_BOUND
      modifies base
      ensures ok <==> if -1 <= n <= 16 then |old(Bytes())| < P.INT_BOUND
                      else |old(Bytes())| + |StepBytes(StepOf(Number(n)))| < P.INT_BOUND
      ensures ok ==> Valid() && Bytes() == old(Bytes()) + StepBytes(StepOf(Number(n)))
    {
      SmallNumber(n);
      hide StepBytes, ScriptNum.Encoding, Valid, Bytes, DataStep;
      if n == -1 || (n >= 1 && n <= 16) {
        ok := PushByte(n + 0x50);
      } else if n == 0 {
        ok := PushByte(0);
      } else {
        var v := ScriptNum.Serialize(n);
        ok := PushVector(v);
      }
    }

    /** Throws above OP_INVALIDOPCODE. */
    method PushOpcode(code: nat) returns (r: Pushed)
      requires Valid()
      modifies base
      ensures r.Thrown? <==> code > 0xff
      ensures r.Done? <==> code <= 0xff && |old(Bytes())| + 1 < P.INT_BOUND
      ensures r.Done? ==> Valid() && Bytes() == old(Bytes()) + [code]
      ensures r.Thrown? ==> Valid() && Bytes() == old(Bytes())
    {
      hide Valid, Bytes;
      if code > 0xff { return Thrown; }
      var ok := InsertByte(code);
      r := if ok then Done else Broken;
    }

    /** One item by the operator for its type. */
    method Push(i: Item) returns (ok: bool)
      requires Valid() && Pushable(i)
      modifies base
      ensures ok ==> Valid() && Bytes() == old(Bytes()) + StepBytes(StepOf(i))
      ensures |old(Bytes())| + |StepBytes(StepOf(i))| < P.INT_BOUND ==> ok
      ensures ok ==> |old(Bytes())| + |StepBytes(StepOf(i))| <= P.INT_BOUND
    {
      hide Valid, Bytes, DataStep, ScriptNum.Encoding;
      match i {
        case Data(d) =>
          ok := PushVector(d);
        case Number(n) =>
          SmallNumber(n);
          hide StepBytes;
          ok := PushInt64(n);
        case Opcode(c) =>
          NoSize(0);
          var r := PushOpcode(c);
          ok := r.Done?;
          assert StepBytes(Step(c, [])) == [c];
      }
    }
  }

  /** What stands before the data of a push of n bytes. */
  function Header(n: nat): seq<Byte> {
    if n < 0x4c then [n]
    else if n <= 0xff then [OP_PUSHDATA1, n]
    else if n <= 0xffff then [OP_PUSHDATA2] + LE(n, 2)
    else [OP_PUSHDATA4] + LE(n, 4)
  }

  lemma HeaderIs(d: seq<Byte>)
    ensures StepBytes(DataStep(d)) == Header(|d|) + d && |Header(|d|) + d| == |Header(|d|)| + |d|
  {
    hide LE;
    NoSize(|d|);
    if 0x4c <= |d| <= 0xff { OneByteSize(|d|); }
  }

  /** The integers with an opcode of their own take one byte. */
  lemma SmallNumber(n: int)
    ensures n == 0 ==> StepBytes(StepOf(Number(n))) == [0]
    ensures n == -1 || 1 <= n <= 16 ==> StepBytes(StepOf(Number(n))) == [n + 0x50]
  {
    NoSize(0);
    ZeroIsEmpty();
  }

  lemma NoSize(n: nat)
    ensures LE(n, 0) == []
  {
  }

  lemma OneByteSize(n: nat)
    requires n < 256
    ensures LE(n, 1) == [n]
  {
    assert LE(n / 256, 0) == [];
  }

  lemma ZeroIsEmpty()
    ensures ScriptNum.Encoding(0) == []
  {
  }

  /** One instruction at pc; a failed read reports OP_INVALIDOPCODE and no data. From 2^31 bytes on, the end of
      the script is before its start, and nothing is read. */
  method GetOp2(script: seq<Byte>, pc0: nat) returns (ok: bool, pc: nat, opcode: Byte, data: seq<Byte>)
    requires pc0 <= |script| < P.UINT_RANGE
    ensures pc0 <= pc <= |script|
    ensures ok <==> NextOp(script[pc0..]).Some? && |script| < P.INT_BOUND
    ensures ok ==> NextOp(script[pc0..]) == Some((Step(opcode, data), script[pc..]))
    ensures !ok ==> opcode == OP_INVALIDOPCODE && data == []
  {
    hide FromLE, LE, Pow, P.ItemPtr;
    P.ItemPtrOrCut(|script|);
    ok, pc, opcode, data := false, pc0, OP_INVALIDOPCODE, [];
    if pc >= P.ItemPtr(|script|) { return; }
    var op := script[pc];
    pc := pc + 1;
    assert script[pc0..][1..] == script[pc..];
    if op <= OP_PUSHDATA4 {
      var nSize: nat := 0;
      if op < OP_PUSHDATA1 {
        nSize := op;
      } else {
        var width := if op == OP_PUSHDATA1 then 1 else if op == OP_PUSHDATA2 then 2 else 4;
        if |script| - pc < width { return; }
        nSize := FromLE(script[pc..pc + width]);
        assert script[pc..][..width] == script[pc..pc + width] && script[pc..][width..] == script[pc + width..];
        pc := pc + width;
      }
      if |script| - pc < nSize { return; }
      data := script[pc..pc + nSize];
      assert script[pc..][..nSize] == data && script[pc..][nSize..] == script[pc + nSize..];
      pc := pc + nSize;
    } else {
      assert script[pc..][..0] == [] && script[pc..][0..] == script[pc..];
    }
    opcode := op;
    ok := true;
  }

  /** Reads instructions up to the end of the script. */
  method ParseAll(script: seq<Byte>) returns (ok: bool, steps: seq<Step>)
    requires |script| < P.UINT_RANGE
    ensures ok <==> Ops(script).Some? && (script == [] || |script| < P.INT_BOUND)
    ensures ok ==> Ops(script) == Some(steps)
  {
    hide NextOp;
    steps := [];
    var pc: nat := 0;
    assert script[0..] == script;
    ParsedStarts(script);
    while pc < |script|
      invariant pc <= |script| && Ahead(script, pc, steps)
      invariant pc > 0 ==> |script| < P.INT_BOUND
      decreases |script| - pc
    {
      ParsedStep(script, pc, steps);
      var opcode, data, next;
      ok, next, opcode, data := GetOp2(script, pc);
      if !ok { return; }
      pc := next;
      steps := steps + [Step(opcode, data)];
    }
    ParsedEnds(script, steps);
    ok := true;
  }

  /** After the instructions in steps, the rest of the script decides the rest of them. */
  ghost predicate Ahead(script: seq<Byte>, pc: nat, steps: seq<Step>)
    requires pc <= |script|
  {
    match Ops(script[pc..])
    case None => Ops(script).None?
    case Some(more) => Ops(script) == Some(steps + more)
  }

  lemma ParsedStarts(script: seq<Byte>)
    ensures Ahead(script, 0, [])
  {
    hide Ops;
    assert script[0..] == script;
    if Ops(script).Some? { assert [] + Ops(script).value == Ops(script).value; }
  }

  lemma {:induction false} ParsedStep(script: seq<Byte>, pc: nat, steps: seq<Step>)
    requires pc < |script| && Ahead(script, pc, steps)
    ensures match NextOp(script[pc..])
      case None => Ops(script).None?
      case Some(c) =>
        && |c.1| < |script| - pc && c.1 == script[|script| - |c.1|..]
        && Ahead(script, |script| - |c.1|, steps + [c.0])
  {
    hide NextOp;
    var b := script[pc..];
    Consumes(b);
    if NextOp(b).Some? {
      var c := NextOp(b).value;
      NextOpIff(b, c.0, c.1);
      Suffix(script, pc, StepBytes(c.0), c.1);
      if Ops(c.1).Some? {
        var more := Ops(c.1).value;
        assert steps + ([c.0] + more) == steps + [c.0] + more;
      }
    }
  }

  lemma Suffix(script: seq<Byte>, pc: nat, front: seq<Byte>, rest: seq<Byte>)
    requires pc <= |script| && script[pc..] == front + rest
    ensures rest == script[|script| - |rest|..]
  {
    assert script == script[..pc] + (front + rest);
  }

  lemma ParsedEnds(script: seq<Byte>, steps: seq<Step>)
    requires Ahead(script, |script|, steps)
    ensures Ops(script) == Some(steps)
  {
    assert script[|script|..] == [] && steps + [] == steps;
  }

  /** Pushes the items one after the other. */
  method BuildScript(items: seq<Item>) returns (ok: bool, script: CScript)
    requires forall i :: 0 <= i < |items| ==> Pushable(items[i])
    ensures ok ==> script.Valid() && script.Bytes() == Build(items)
    ensures |Build(items)| < P.INT_BOUND ==> ok
    ensures ok ==> |Build(items)| <= P.INT_BOUND
  {
    hide Build, StepOf, StepBytes, Pushable, CScript.Valid, CScript.Bytes;
    ok := true;
    script := new CScript();
    assert items[0..] == items && [] + Build(items) == Build(items);
    for i := 0 to |items|
      invariant ok && fresh(script) && fresh(script.base) && script.Valid()
      invariant script.Bytes() + Build(items[i..]) == Build(items)
      invariant |script.Bytes()| <= P.INT_BOUND
    {
      BuildStep(items, i);
      Reassociate(script.Bytes(), StepBytes(StepOf(items[i])), Build(items[i + 1..]));
      ok := script.Push(items[i]);
      if !ok { return; }
    }
    BuildStep(items, |items|);
    assert script.Bytes() + [] == script.Bytes();
  }

  lemma Reassociate(a: seq<Byte>, b: seq<Byte>, c: seq<Byte>)
    ensures a + (b + c) == a + b + c && |a + (b + c)| >= |a| + |b|
  {
  }

  /** Items pushed into a script come back from it, one instruction each, if and only if it is below 2^31 bytes. */
  method BuildThenParse(items: seq<Item>) returns (ok: bool, steps: seq<Step>)
    requires forall i :: 0 <= i < |items| ==> Pushable(items[i])
    ensures ok <==> |Build(items)| < P.INT_BOUND
    ensures ok ==> steps == StepsOf(items)
  {
    hide Build, Ops, Pushable, StepsOf, CScript.Valid, CScript.Bytes;
    steps := [];
    var script;
    ok, script := BuildScript(items);
    if !ok { return; }
    ParsesWhatWasBuilt(items);
    ok, steps := ParseAll(script.Bytes());
  }

  lemma BuildStep(items: seq<Item>, i: nat)
    requires i <= |items|
    ensures if i == |items| then Build(items[i..]) == [] else Build(items[i..]) == StepBytes(StepOf(items[i])) + Build(items[i + 1..])
  {
    hide StepBytes, StepOf;
    if i < |items| { assert items[i..][1..] == items[i + 1..]; }
  }
}
