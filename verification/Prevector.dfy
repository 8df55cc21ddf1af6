/** prevector of common/prevector.h: up to N elements in place, more on the heap; one field holds mode and length. */
module Prevector {
  const UINT_RANGE: nat := 0x1_0000_0000
  const INT_BOUND: nat := 0x8000_0000

  // ----- Raw memory: blocks owned by one vector, as values -----

  /** malloc: nothing is known of the contents. */
  method Malloc<T(0)>(n: nat) returns (m: seq<T>)
    ensures |m| == n
  {
    var junk: T := *;
    m := seq(n, _ => junk);
  }

  /** memcpy between two blocks. */
  function Copied<T>(dst: seq<T>, src: seq<T>, n: nat): (r: seq<T>)
    requires n <= |dst| && n <= |src|
    ensures |r| == |dst| && r[..n] == src[..n]
  {
    src[..n] + dst[n..]
  }

  /** memmove within one block. */
  function Moved<T>(m: seq<T>, to: nat, from: nat, n: nat): (r: seq<T>)
    requires to + n <= |m| && from + n <= |m|
    ensures |r| == |m| && r[..to] == m[..to] && r[to..to + n] == m[from..from + n]
  {
    m[..to] + m[from..from + n] + m[to + n..]
  }

  // ----- The same operations on a plain sequence -----

  datatype Op<T> =
    | Assign(n: nat, val: T)
    | AssignAll(items: seq<T>)
    | Resize(size: nat, zero: T)
    | Reserve(capacity: nat)
    | ShrinkToFit
    | Clear(zero: T)
    | Insert(pos: nat, item: T)
    | InsertCopies(pos: nat, count: nat, item: T)
    | InsertAll(pos: nat, items: seq<T>)
    | Erase(first: nat, last: nat)
    | PushBack(item: T)
    | PopBack
    | Store(pos: nat, item: T)

  function Copies<T>(n: nat, x: T): seq<T> { seq(n, _ => x) }

  /** What the standard vector does. */
  function Apply<T>(op: Op<T>, s: seq<T>): seq<T>
    requires InBounds(op, s)
  {
    match op
    case Assign(n, val) => Copies(n, val)
    case AssignAll(items) => items
    case Resize(n, zero) => if n <= |s| then s[..n] else s + Copies(n - |s|, zero)
    case Reserve(_) => s
    case ShrinkToFit => s
    case Clear(_) => []
    case Insert(p, x) => s[..p] + [x] + s[p..]
    case InsertCopies(p, n, x) => s[..p] + Copies(n, x) + s[p..]
    case InsertAll(p, xs) => s[..p] + xs + s[p..]
    case Erase(first, last) => s[..first] + s[last..]
    case PushBack(x) => s + [x]
    case PopBack => s[..|s| - 1]
    case Store(p, x) => s[p := x]
  }

  /** Iterators inside the vector, as every caller must pass them. */
  predicate InBounds<T>(op: Op<T>, s: seq<T>) {
    match op
    case Insert(p, _) => p <= |s|
    case InsertCopies(p, _, _) => p <= |s|
    case InsertAll(p, _) => p <= |s|
    case Erase(first, last) => first <= last <= |s|
    case PopBack => |s| > 0
    case Store(p, _) => p < |s|
    case _ => true
  }

  // ----- 32-bit sizes and positions -----

  /** A sum as the unsigned size type keeps it. */
  function Cut(n: nat): (r: nat)
    ensures r == n <==> n < UINT_RANGE
  {
    n % UINT_RANGE
  }

  /** Where item_ptr points, counted from the start of the block: its argument is a signed 32-bit number. */
  function ItemPtr(pos: nat): int {
    if Cut(pos) < INT_BOUND then Cut(pos) else Cut(pos) - UINT_RANGE
  }

  /** item_ptr points to the element it was asked for. */
  predicate Reaches(pos: nat): (r: bool)
    ensures r <==> pos < INT_BOUND
  {
    ItemPtr(pos) == pos
  }

  /** Read as a signed number, a position is right if and only if it is below 2^31; any other one is before the block. */
  lemma ItemPtrOrCut(pos: nat)
    requires pos < UINT_RANGE
    ensures ItemPtr(pos) == pos <==> pos < INT_BOUND
    ensures ItemPtr(pos) < 0 <==> pos >= INT_BOUND
  {
  }

  /** The capacity asked for when a vector must grow to n. */
  function Grown(n: nat): (r: nat)
    ensures r >= n && 2 * r <= 3 * n <= 2 * r + 1
  {
    n + n / 2
  }

  /** n elements can be held: by a block of capacity cap, or by a new one of capacity ask when cap is too small.
      A block on the heap takes a length of less than 2^32 - N - 1, and no capacity reaches 2^32. */
  predicate Roomy(n: nat, ask: nat, cap: nat, N: nat) {
    if n <= cap then cap == N || n + N + 1 < UINT_RANGE else ask < UINT_RANGE && n + N + 1 < UINT_RANGE
  }

  function CapacityFor(n: nat, ask: nat, cap: nat): nat { if n <= cap then cap else ask }

  /** Cut to 32 bits, the grown capacity suffices if and only if it was not cut. */
  lemma GrownOrCut(n: nat)
    requires n < UINT_RANGE
    ensures Cut(Grown(n)) >= n <==> Grown(n) < UINT_RANGE
  {
    if Grown(n) >= UINT_RANGE { assert Cut(Grown(n)) == Grown(n) - UINT_RANGE; }
  }

  /** The length that a value of the size field stands for. */
  function LengthOf(code: nat, N: nat): nat { if code <= N then code else code - N - 1 }

  /** Cut to 32 bits, the size field of a heap block still says n if and only if it was not cut. */
  lemma CodeOrCut(n: nat, N: nat)
    requires n < UINT_RANGE && N + 1 < UINT_RANGE
    ensures LengthOf(Cut(n + N + 1), N) == n <==> n + N + 1 < UINT_RANGE
  {
    if n + N + 1 >= UINT_RANGE { assert Cut(n + N + 1) == n + N + 1 - UINT_RANGE; }
  }

  /** No size is cut in this operation, and item_ptr points to every element it is asked for: the old end where the
      operation destroys or pushes, the last slot it constructs, the first slot after an insertion. */
  predicate Fits<T>(op: Op<T>, s: seq<T>, cap: nat, N: nat) {
    match op
    case Assign(n, _) => |s| < INT_BOUND && n <= INT_BOUND && Roomy(n, n, cap, N)
    case AssignAll(items) => |s| < INT_BOUND && |items| <= INT_BOUND && Roomy(|items|, |items|, cap, N)
    case Resize(n, _) => (n < |s| ==> |s| < INT_BOUND) && (n > |s| ==> n <= INT_BOUND && Roomy(n, n, cap, N))
    case Reserve(n) => n <= cap || (n < UINT_RANGE && |s| + N + 1 < UINT_RANGE)
    case ShrinkToFit => true
    case Clear(_) => |s| < INT_BOUND
    case Insert(p, _) => p + 1 < INT_BOUND && Roomy(|s| + 1, Grown(|s| + 1), cap, N)
    case InsertCopies(p, n, _) => p + n < INT_BOUND && Roomy(|s| + n, Grown(|s| + n), cap, N)
    case InsertAll(p, xs) => p + |xs| < INT_BOUND && Roomy(|s| + |xs|, Grown(|s| + |xs|), cap, N)
    case Erase(_, _) => |s| < INT_BOUND
    case PushBack(_) => |s| < INT_BOUND && Roomy(|s| + 1, Grown(|s| + 1), cap, N)
    case PopBack => |s| < INT_BOUND
    case Store(p, _) => p < INT_BOUND
  }

  /** The capacity after an operation; it equals N exactly when the elements are in place. */
  function NextCapacity<T>(op: Op<T>, s: seq<T>, cap: nat, N: nat): nat {
    match op
    case Assign(n, _) => CapacityFor(n, n, cap)
    case AssignAll(items) => CapacityFor(|items|, |items|, cap)
    case Resize(n, _) => CapacityFor(n, n, cap)
    case Reserve(n) => CapacityFor(n, n, cap)
    case ShrinkToFit => if |s| <= N then N else |s|
    case Insert(_, _) => CapacityFor(|s| + 1, Grown(|s| + 1), cap)
    case InsertCopies(_, n, _) => CapacityFor(|s| + n, Grown(|s| + n), cap)
    case InsertAll(_, xs) => CapacityFor(|s| + |xs|, Grown(|s| + |xs|), cap)
    case PushBack(_) => CapacityFor(|s| + 1, Grown(|s| + 1), cap)
    case _ => cap
  }

  lemma GapFacts<T>(b: seq<T>, c: seq<T>, p: nat, count: nat, n: nat)
    requires p <= n && n + count <= |b| && c == Moved(b, p + count, p, n - p)
    ensures c[..n + count][..p] == b[..n][..p] && c[..n + count][p + count..] == b[..n][p..]
  {
    assert c[p + count..p + count + (n - p)] == b[p..n];
    assert c[..p] == c[..p + count][..p];
  }

  lemma NextFilled<T>(c: seq<T>, s: seq<T>, p: nat, count: nat, done: seq<T>, x: T)
    requires p <= |s| && |done| < count && |c| == |s| + count && c[..p + |done|] == s[..p] + done && c[p + count..] == s[p..]
    ensures var c' := c[p + |done| := x]; c'[..p + |done + [x]|] == s[..p] + (done + [x]) && c'[p + count..] == s[p..]
  {
  }

  class Prevector<T(0)> {
    const N: nat
    /** _size: the length in place, or the length plus N + 1 on the heap. */
    var code: nat
    var direct: seq<T>
    var capacity: nat
    var indirect: seq<T>

    predicate IsDirect()
      reads this
    {
      code <= N
    }

    function Size(): nat
      reads this
    {
      LengthOf(code, N)
    }

    function Capacity(): nat
      reads this
    {
      if IsDirect() then N else capacity
    }

    /** The active member of the union. */
    function Block(): seq<T>
      reads this
    {
      if IsDirect() then direct else indirect
    }

    /** Nothing is said of the inactive member but its extent. */
    ghost predicate Valid()
      reads this
    {
      && |direct| == N && N + 1 < UINT_RANGE
      && (!IsDirect() ==> N < capacity == |indirect| < UINT_RANGE)
      && Size() <= |Block()| && code < UINT_RANGE
    }

    function Contents(): seq<T>
      requires Valid()
      reads this
    {
      Block()[..Size()]
    }

    constructor (N: nat)
      requires N + 1 < UINT_RANGE
      ensures this.N == N && Valid() && Contents() == [] && IsDirect()
    {
      this.N, code, capacity, indirect := N, 0, 0, [];
      var junk: T := *;
      direct := seq(N, _ => junk);
    }

    /** Writes one slot of the active block. */
    method Put(pos: nat, x: T)
      requires Valid() && pos < |Block()|
      modifies this`direct, this`indirect
      ensures Valid() && Block() == old(Block())[pos := x]
    {
      if IsDirect() { direct := direct[pos := x]; } else { indirect := indirect[pos := x]; }
    }

    method MemMove(to: nat, from: nat, n: nat)
      requires Valid() && to + n <= |Block()| && from + n <= |Block()|
      modifies this`direct, this`indirect
      ensures Valid() && Block() == Moved(old(Block()), to, from, n)
    {
      if IsDirect() { direct := Moved(direct, to, from, n); } else { indirect := Moved(indirect, to, from, n); }
    }

    /** What an operation that started from contents s and capacity cap reports and leaves: all is well, and the
        contents are those of a plain sequence, exactly when it fits. Nothing is said of a vector it broke. */
    ghost predicate Did(op: Op<T>, ok: bool, s: seq<T>, cap: nat)
      requires InBounds(op, s)
      reads this
    {
      && (ok <==> Fits(op, s, cap, N))
      && (ok ==> Valid() && Contents() == Apply(op, s) && Capacity() == NextCapacity(op, s, cap, N))
    }

    /** Moves the contents to a block of the new capacity, in place exactly when it is at most N. */
    method ChangeCapacity(n: nat) returns (ok: bool)
      requires Valid() && Size() <= n
      modifies this
      ensures ok <==> n <= N || (n < UINT_RANGE && old(Size()) + N + 1 < UINT_RANGE)
      ensures ok ==> Valid() && Contents() == old(Contents()) && Size() == old(Size())
      ensures ok ==> (IsDirect() <==> n <= N) && Capacity() == if n <= N then N else n
    {
      if Cut(n) != n { return false; }
      if n <= N {
        if !IsDirect() {
          direct := Copied(direct, indirect, Size());
          code := code - (N + 1);
        }
      } else {
        var m := Malloc<T>(n);
        if !IsDirect() {
          indirect := Copied(m, indirect, Size());
          capacity := n;
        } else {
          if Cut(code + N + 1) != code + N + 1 { return false; }
          indirect := Copied(m, direct, Size());
          capacity := n;
          direct := Malloc<T>(N);
          code := code + (N + 1);
        }
      }
      ok := true;
    }

    /** Destroys the elements from first to last and closes the gap; the end comes from item_ptr. */
    method EraseRange(first: nat, last: nat) returns (ok: bool)
      requires Valid() && first <= last <= Size()
      modifies this
      ensures Did(Erase(first, last), ok, old(Contents()), old(Capacity()))
    {
      var end := Size();
      if !Reaches(end) { return false; }
      ghost var b := Block();
      for p := first to last
        invariant |direct| == N && N + 1 < UINT_RANGE && (!IsDirect() ==> N < capacity == |indirect| < UINT_RANGE) && code < UINT_RANGE
        invariant IsDirect() == old(IsDirect()) && Capacity() == old(Capacity())
        invariant Block() == b && Size() == end - (p - first)
      {
        code := code - 1;
      }
      MemMove(first, last, end - last);
      assert Contents() == b[..end][..first] + b[..end][last..];
      ok := true;
    }

    /** The last of n elements can be counted and reached. */
    predicate Extends(n: nat)
      reads this
    {
      n == Size() || (n <= INT_BOUND && (IsDirect() || n + N + 1 < UINT_RANGE))
    }

    /** Counts one more element and constructs it in the last slot. */
    method Append(x: T) returns (ok: bool)
      requires Valid() && Size() < Capacity()
      modifies this
      ensures ok <==> old(Extends(Size() + 1))
      ensures ok ==> Valid() && Contents() == old(Contents()) + [x]
      ensures ok ==> IsDirect() == old(IsDirect()) && Capacity() == old(Capacity())
    {
      if Cut(code + 1) != code + 1 { return false; }
      if !Reaches(Size()) { return false; }
      code := code + 1;
      Put(Size() - 1, x);
      ok := true;
    }

    /** Constructs copies of x until there are n elements. */
    method Extend(n: nat, x: T) returns (ok: bool)
      requires Valid() && Size() <= n <= Capacity()
      modifies this
      ensures ok <==> old(Extends(n))
      ensures ok ==> Valid() && Contents() == old(Contents()) + Copies(n - old(Size()), x)
      ensures ok ==> IsDirect() == old(IsDirect()) && Capacity() == old(Capacity())
    {
      ghost var s := Contents();
      ok := true;
      while Size() < n
        invariant Valid() && |s| <= Size() <= n && Contents() == s + Copies(Size() - |s|, x)
        invariant IsDirect() == old(IsDirect()) && Capacity() == old(Capacity())
        invariant |s| < Size() ==> Size() <= INT_BOUND
        decreases n - Size()
      {
        ok := Append(x);
        if !ok { return; }
      }
    }

    /** Constructs the items in an empty vector. */
    method AppendItems(items: seq<T>) returns (ok: bool)
      requires Valid() && Contents() == [] && |items| <= Capacity()
      modifies this
      ensures ok <==> old(Extends(|items|))
      ensures ok ==> Valid() && Contents() == items
      ensures ok ==> IsDirect() == old(IsDirect()) && Capacity() == old(Capacity())
    {
      assert |Contents()| == Size();
      ok := true;
      for i := 0 to |items|
        invariant ok && Valid() && Contents() == items[..i] && Size() == i
        invariant IsDirect() == old(IsDirect()) && Capacity() == old(Capacity())
        invariant i <= INT_BOUND
      {
        ok := Append(items[i]);
        if !ok { return; }
        assert |Contents()| == Size();
      }
    }

    method ResizeTo(n: nat, zero: T) returns (ok: bool)
      requires Valid()
      modifies this
      ensures Did(Resize(n, zero), ok, old(Contents()), old(Capacity()))
    {
      ghost var s := Contents();
      assert |s| == Size();
      if Size() > n {
        ok := EraseRange(n, Size());
        if !ok { return; }
        assert |Contents()| == Size() == n;
      }
      if n > Capacity() {
        ok := ChangeCapacity(n);
        if !ok { return; }
      }
      ok := Extend(n, zero);
    }

    /** Drops the elements but not the block. */
    method ClearAll(zero: T) returns (ok: bool)
      requires Valid()
      modifies this
      ensures Did(Clear(zero), ok, old(Contents()), old(Capacity()))
    {
      assert |Contents()| == Size();
      ok := ResizeTo(0, zero);
    }

    method AssignCopies(n: nat, val: T) returns (ok: bool)
      requires Valid()
      modifies this
      ensures Did(Assign(n, val), ok, old(Contents()), old(Capacity()))
    {
      ok := ClearAll(val);
      if !ok { return; }
      assert |Contents()| == Size();
      if Capacity() < n {
        ok := ChangeCapacity(n);
        if !ok { return; }
      }
      ok := Extend(n, val);
    }

    method AssignItems(items: seq<T>, zero: T) returns (ok: bool)
      requires Valid()
      modifies this
      ensures Did(AssignAll(items), ok, old(Contents()), old(Capacity()))
    {
      ok := ClearAll(zero);
      if !ok { return; }
      assert |Contents()| == Size();
      if Capacity() < |items| {
        ok := ChangeCapacity(|items|);
        if !ok { return; }
      }
      ok := AppendItems(items);
    }

    method ReserveFor(n: nat) returns (ok: bool)
      requires Valid()
      modifies this
      ensures Did(Reserve(n), ok, old(Contents()), old(Capacity()))
    {
      assert |Contents()| == Size();
      ok := true;
      if n > Capacity() { ok := ChangeCapacity(n); }
    }

    /** Afterwards the elements are in place exactly when they fit there. */
    method Shrink() returns (ok: bool)
      requires Valid()
      modifies this
      ensures ok && Did(ShrinkToFit, ok, old(Contents()), old(Capacity())) && (IsDirect() <==> Size() <= N)
    {
      assert |Contents()| == Size();
      ok := ChangeCapacity(Size());
    }

    /** Asks for half as much again when the block is too small. */
    method GrowFor(newSize: nat) returns (ok: bool)
      requires Valid() && Size() <= newSize
      modifies this
      ensures ok <==> newSize < UINT_RANGE
                      && (newSize <= old(Capacity()) || (Grown(newSize) < UINT_RANGE && old(Size()) + N + 1 < UINT_RANGE))
      ensures ok ==> Valid() && Contents() == old(Contents()) && Size() == old(Size())
      ensures ok ==> newSize <= Capacity() == |Block()| && Capacity() == CapacityFor(newSize, Grown(newSize), old(Capacity()))
    {
      hide Grown;
      if Cut(newSize) != newSize { return false; }
      ok := true;
      if Capacity() < newSize { ok := ChangeCapacity(Grown(newSize)); }
    }

    /** Moves the elements from p on up by count and counts the room between, within the block. */
    method ShiftUp(p: nat, count: nat) returns (ok: bool)
      requires Valid() && p <= Size() && Size() + count <= |Block()|
      modifies this
      ensures ok <==> p + count < INT_BOUND && old(code) + count < UINT_RANGE
      ensures ok ==> Valid() && Size() == old(Size()) + count && Capacity() == old(Capacity())
      ensures ok ==> Contents()[..p] == old(Contents())[..p] && Contents()[p + count..] == old(Contents())[p..]
    {
      hide Moved, Cut;
      if !Reaches(p + count) || !Reaches(p) || Cut(code + count) != code + count { return false; }
      ghost var b := Block();
      var n := Size();
      MemMove(p + count, p, n - p);
      code := code + count;
      GapFacts(b, Block(), p, count, n);
      ok := true;
    }

    /** Makes room for count elements at p; what the room holds is not said. */
    method OpenGap(p: nat, count: nat) returns (ok: bool)
      requires Valid() && p <= Size()
      modifies this
      ensures ok <==> p + count < INT_BOUND && Roomy(old(Size()) + count, Grown(old(Size()) + count), old(Capacity()), N)
      ensures ok ==> Valid() && Size() == old(Size()) + count
      ensures ok ==> Capacity() == CapacityFor(old(Size()) + count, Grown(old(Size()) + count), old(Capacity()))
      ensures ok ==> Contents()[..p] == old(Contents())[..p] && Contents()[p + count..] == old(Contents())[p..]
    {
      hide Grown;
      ok := GrowFor(Size() + count);
      if !ok { return; }
      ok := ShiftUp(p, count);
    }

    method InsertOne(p: nat, x: T) returns (ok: bool)
      requires Valid() && p <= Size()
      modifies this
      ensures Did(Insert(p, x), ok, old(Contents()), old(Capacity()))
    {
      hide Grown, CapacityFor, Roomy, Cut, Moved;
      ghost var s := Contents();
      assert |s| == Size();
      ok := OpenGap(p, 1);
      if !ok { return; }
      assert Reaches(p);
      ghost var c := Contents();
      assert c == s[..p] + [c[p]] + s[p..];
      Put(p, x);
      assert Contents() == s[..p] + [x] + s[p..];
    }

    method InsertMany(p: nat, count: nat, x: T) returns (ok: bool)
      requires Valid() && p <= Size()
      modifies this
      ensures Did(InsertCopies(p, count, x), ok, old(Contents()), old(Capacity()))
    {
      hide Grown, CapacityFor, Roomy, Filling, Cut, Moved;
      ghost var s := Contents();
      assert |s| == Size();
      ok := OpenGap(p, count);
      if !ok { return; }
      StartFilling(s, p, count);
      ghost var cap := Capacity();
      assert Copies(0, x) == [];
      for i := 0 to count
        invariant Valid() && Capacity() == cap && Filling(s, p, count, Copies(i, x))
      {
        assert Reaches(p + i);
        FillSlot(p + i, x, s, p, count, Copies(i, x));
        assert Copies(i, x) + [x] == Copies(i + 1, x);
      }
      Filled(s, p, count, Copies(count, x));
    }

    method InsertItems(pos: nat, items: seq<T>) returns (ok: bool)
      requires Valid() && pos <= Size()
      modifies this
      ensures Did(InsertAll(pos, items), ok, old(Contents()), old(Capacity()))
    {
      hide Grown, CapacityFor, Roomy, Filling, Cut, Moved;
      ghost var s := Contents();
      assert |s| == Size();
      ok := OpenGap(pos, |items|);
      if !ok { return; }
      StartFilling(s, pos, |items|);
      FillGap(pos, items, s);
    }

    /** Constructs the items in the gap that was opened for them. */
    method FillGap(pos: nat, items: seq<T>, ghost s: seq<T>)
      requires Valid() && Filling(s, pos, |items|, []) && pos + |items| < INT_BOUND
      modifies this`direct, this`indirect
      ensures Valid() && Contents() == s[..pos] + items + s[pos..] && Capacity() == old(Capacity())
    {
      hide Filling;
      var p := pos;
      for i := 0 to |items|
        invariant Valid() && p == pos + i && Filling(s, pos, |items|, items[..i])
      {
        assert Reaches(p);
        FillSlot(p, items[i], s, pos, |items|, items[..i]);
        p := p + 1;
        assert items[..i] + [items[i]] == items[..i + 1];
      }
      assert items[..|items|] == items;
      Filled(s, pos, |items|, items);
    }

    /** The gap of a vector that held s, filled with done from the left. */
    ghost predicate Filling(s: seq<T>, p: nat, count: nat, done: seq<T>)
      requires Valid()
      reads this
    {
      && p <= |s| && |done| <= count && Size() == |s| + count
      && Contents()[..p + |done|] == s[..p] + done && Contents()[p + count..] == s[p..]
    }

    /** Constructs one element in the next slot of the gap. */
    method FillSlot(pos: nat, x: T, ghost s: seq<T>, ghost p: nat, ghost count: nat, ghost done: seq<T>)
      requires Valid() && Filling(s, p, count, done) && |done| < count && pos == p + |done|
      modifies this`direct, this`indirect
      ensures Valid() && Filling(s, p, count, done + [x])
    {
      ghost var c := Contents();
      Put(pos, x);
      assert Contents() == c[p + |done| := x];
      NextFilled(c, s, p, count, done, x);
    }

    lemma StartFilling(s: seq<T>, p: nat, count: nat)
      requires Valid() && p <= |s| && Size() == |s| + count
      requires Contents()[..p] == s[..p] && Contents()[p + count..] == s[p..]
      ensures Filling(s, p, count, [])
    {
    }

    lemma Filled(s: seq<T>, p: nat, count: nat, done: seq<T>)
      requires Valid() && Filling(s, p, count, done) && |done| == count
      ensures Contents() == s[..p] + done + s[p..]
    {
      assert Contents() == Contents()[..p + count] + Contents()[p + count..];
    }

    method Push(x: T) returns (ok: bool)
      requires Valid()
      modifies this
      ensures Did(PushBack(x), ok, old(Contents()), old(Capacity()))
    {
      hide Grown;
      assert |Contents()| == Size();
      ok := GrowFor(Size() + 1);
      if !ok { return; }
      if !Reaches(Size()) || Cut(code + 1) != code + 1 { return false; }
      Put(Size(), x);
      code := code + 1;
    }

    method Pop() returns (ok: bool)
      requires Valid() && Size() > 0
      modifies this
      ensures Did(PopBack, ok, old(Contents()), old(Capacity()))
    {
      assert |Contents()| == Size();
      ok := EraseRange(Size() - 1, Size());
    }

    /** operator[] on the left of an assignment. */
    method StoreAt(pos: nat, x: T) returns (ok: bool)
      requires Valid() && pos < Size()
      modifies this`direct, this`indirect
      ensures Did(Store(pos, x), ok, old(Contents()), old(Capacity()))
    {
      assert |Contents()| == Size();
      if !Reaches(pos) { return false; }
      Put(pos, x);
      ok := true;
    }

    /** operator=; both ends come from item_ptr. */
    method CopyFrom(other: Prevector<T>, zero: T) returns (ok: bool)
      requires Valid() && other.Valid() && other.N == N
      modifies this
      ensures ok <==> other == this || (old(Size()) < INT_BOUND && old(other.Size()) < INT_BOUND)
      ensures ok ==> Valid() && Contents() == old(other.Contents())
      ensures ok ==> other.Valid() && other.Contents() == old(other.Contents())
    {
      if other == this { return true; }
      assert |Contents()| == Size();
      ok := ResizeTo(0, zero);
      if !ok { return; }
      assert |Contents()| == Size();
      if !Reaches(other.Size()) { return false; }
      ok := ChangeCapacity(other.Size());
      ok := AppendItems(other.Block()[..other.Size()]);
    }

    method Swap(other: Prevector<T>)
      requires Valid() && other.Valid() && other.N == N
      modifies this, other
      ensures Valid() && other.Valid() && Contents() == old(other.Contents()) && other.Contents() == old(Contents())
    {
      direct, other.direct := other.direct, direct;
      capacity, other.capacity := other.capacity, capacity;
      indirect, other.indirect := other.indirect, indirect;
      code, other.code := other.code, code;
    }

    /** Any operation: it goes well, and does what it does to a plain sequence, if and only if it fits. */
    method Perform(op: Op<T>, zero: T) returns (ok: bool)
      requires Valid() && InBounds(op, Contents())
      modifies this
      ensures Did(op, ok, old(Contents()), old(Capacity()))
    {
      hide Fits, NextCapacity;
      assert |Contents()| == Size();
      match op {
        case Assign(n, val) => ok := AssignCopies(n, val);
        case AssignAll(items) => ok := AssignItems(items, zero);
        case Resize(n, z) => ok := ResizeTo(n, z);
        case Reserve(n) => ok := ReserveFor(n);
        case ShrinkToFit => ok := Shrink();
        case Clear(z) => ok := ClearAll(z);
        case Insert(p, x) => ok := InsertOne(p, x);
        case InsertCopies(p, n, x) => ok := InsertMany(p, n, x);
        case InsertAll(p, xs) => ok := InsertItems(p, xs);
        case Erase(first, last) => ok := EraseRange(first, last);
        case PushBack(x) => ok := Push(x);
        case PopBack => ok := Pop();
        case Store(p, x) => ok := StoreAt(p, x);
      }
    }
  }

  // ----- Whole runs -----

  /** Every operation of the run gets iterators inside the vector. */
  predicate Legal<T>(ops: seq<Op<T>>, s: seq<T>) {
    ops == [] || (InBounds(ops[0], s) && Legal(ops[1..], Apply(ops[0], s)))
  }

  function ApplyAll<T>(ops: seq<Op<T>>, s: seq<T>): seq<T>
    requires Legal(ops, s)
  {
    if ops == [] then s else ApplyAll(ops[1..], Apply(ops[0], s))
  }

  /** Every operation of the run fits. */
  predicate AllFit<T>(ops: seq<Op<T>>, s: seq<T>, cap: nat, N: nat)
    requires Legal(ops, s)
  {
    ops == [] || (Fits(ops[0], s, cap, N) && AllFit(ops[1..], Apply(ops[0], s), NextCapacity(ops[0], s, cap, N), N))
  }

  /** Across every direct/indirect switch, the contents are those of a plain sequence, if and only if every operation fits. */
  method Run<T(0)>(v: Prevector<T>, ops: seq<Op<T>>, zero: T) returns (ok: bool)
    requires v.Valid() && Legal(ops, v.Contents())
    modifies v
    ensures ok <==> AllFit(ops, old(v.Contents()), old(v.Capacity()), v.N)
    ensures ok ==> v.Valid() && v.Contents() == ApplyAll(ops, old(v.Contents()))
  {
    hide Apply, Fits, NextCapacity, InBounds;
    ok := true;
    for i := 0 to |ops|
      invariant ok && v.Valid() && Legal(ops[i..], v.Contents())
      invariant AllFit(ops[i..], v.Contents(), v.Capacity(), v.N) <==> AllFit(ops, old(v.Contents()), old(v.Capacity()), v.N)
      invariant ApplyAll(ops[i..], v.Contents()) == ApplyAll(ops, old(v.Contents()))
    {
      assert ops[i..][0] == ops[i] && ops[i..][1..] == ops[i + 1..];
      ok := v.Perform(ops[i], zero);
      if !ok { return; }
    }
    assert ops[|ops|..] == [];
  }

  // ----- Short vectors, and the first long ones -----

  predicate Asks<T>(op: Op<T>) { op.Reserve? ==> op.capacity < UINT_RANGE }

  /** Below 2^31 elements, before and after, no size is cut and every position is right. */
  lemma ShortFits<T>(op: Op<T>, s: seq<T>, cap: nat, N: nat)
    requires InBounds(op, s) && Asks(op) && |s| < INT_BOUND && |Apply(op, s)| < INT_BOUND && N < INT_BOUND && cap < UINT_RANGE
    ensures Fits(op, s, cap, N) && NextCapacity(op, s, cap, N) < UINT_RANGE
  {
  }

  /** Every length in the run is below 2^31. */
  predicate StaysShort<T>(ops: seq<Op<T>>, s: seq<T>)
    requires Legal(ops, s)
  {
    |s| < INT_BOUND && (ops == [] || (Asks(ops[0]) && StaysShort(ops[1..], Apply(ops[0], s))))
  }

  lemma {:induction false} ShortRunFits<T>(ops: seq<Op<T>>, s: seq<T>, cap: nat, N: nat)
    requires Legal(ops, s) && StaysShort(ops, s) && N < INT_BOUND && cap < UINT_RANGE
    ensures AllFit(ops, s, cap, N)
  {
    hide Apply, Fits, NextCapacity, InBounds, Asks;
    if ops != [] {
      ShortFits(ops[0], s, cap, N);
      ShortRunFits(ops[1..], Apply(ops[0], s), NextCapacity(ops[0], s, cap, N), N);
    }
  }

  /** 2^31 elements can still be constructed; the next one would go before the block. */
  lemma LastReachable<T>(zero: T)
    ensures Fits(Resize(INT_BOUND, zero), [], 28, 28) && !Fits(Resize(INT_BOUND + 1, zero), [], 28, 28)
    ensures ItemPtr(INT_BOUND) + INT_BOUND == 0
  {
  }

  /** A vector of 2^31 elements takes one more in front. But its end is before its block, so that it can be
      neither pushed to nor popped. */
  method FirstLongVector<T(0)>(op: Op<T>, zero: T) returns (resized: bool, ok: bool)
    requires op == PopBack || op.PushBack? || (op.Insert? && op.pos == 0)
    ensures resized && (ok <==> op.Insert?)
  {
    var v := new Prevector<T>(28);
    resized := v.ResizeTo(INT_BOUND, zero);
    LastReachable(zero);
    hide NextCapacity, Copies;
    assert |v.Contents()| == v.Size() == INT_BOUND by { FullLength<T>(v.Contents(), zero); }
    CapacityIs<T>(zero);
    hide Apply;
    ok := v.Perform(op, zero);
  }

  lemma FullLength<T>(s: seq<T>, zero: T)
    requires s == Apply(Resize(INT_BOUND, zero), [])
    ensures |s| == INT_BOUND
  {
  }

  lemma CapacityIs<T>(zero: T)
    ensures NextCapacity(Resize(INT_BOUND, zero), [], 28, 28) == INT_BOUND
  {
  }
}
