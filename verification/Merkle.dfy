/** The constant-space merkle root and branch calculator of primitives/merkle.cpp,
    proved against the level-by-level tree it stands in for.

    The pair hash h is a parameter: nothing but h being a function is used for the root
    and the branch, and collision freedom is assumed only where a theorem says so. */
module Merkle {
  import opened Powers

  /** The hash of two concatenated digests. */
  datatype PairHash<!T> = PairHash(f: (T, T) -> T)

  function Combine<T>(h: PairHash<T>, left: T, right: T): T {
    (h.f)(left, right)
  }

  // ----- The obvious tree -----

  /** The parents of one level; the last node of an odd level is paired with itself. */
  function Parents<T>(h: PairHash<T>, s: seq<T>): (r: seq<T>)
    ensures |r| == (|s| + 1) / 2
  {
    seq((|s| + 1) / 2, i requires 0 <= i < (|s| + 1) / 2 =>
      Combine(h, s[2 * i], if 2 * i + 1 < |s| then s[2 * i + 1] else s[2 * i]))
  }

  /** The root obtained by forming whole levels until one node is left. */
  function TreeRoot<T>(h: PairHash<T>, s: seq<T>): T
    requires |s| > 0
    decreases |s|
  {
    if |s| == 1 then s[0] else TreeRoot(h, Parents(h, s))
  }

  function Level<T>(h: PairHash<T>, s: seq<T>, k: nat): seq<T> {
    if k == 0 then s else Parents(h, Level(h, s, k - 1))
  }

  /** Number of levels above the leaves. */
  function Height(n: nat): nat {
    if n <= 1 then 0 else 1 + Height((n + 1) / 2)
  }

  /** The node paired with node i of a level. */
  function Sibling<T>(level: seq<T>, i: nat): T
    requires i < |level|
  {
    if i % 2 == 1 then level[i - 1] else if i + 1 < |level| then level[i + 1] else level[i]
  }

  /** Siblings of the ancestors of leaf p on the k lowest levels. */
  function Path<T>(h: PairHash<T>, s: seq<T>, p: nat, k: nat): (r: seq<T>)
    requires p < |s|
    ensures |r| == k
  {
    if k == 0 then [] else
      AncestorInLevel(h, s, p, k - 1);
      Path(h, s, p, k - 1) + [Sibling(Level(h, s, k - 1), Shr(p, k - 1))]
  }

  lemma {:induction false} AncestorInLevel<T>(h: PairHash<T>, s: seq<T>, p: nat, k: nat)
    requires p < |s|
    ensures Shr(p, k) < |Level(h, s, k)|
  {
    if k > 0 { AncestorInLevel(h, s, p, k - 1); }
  }

  ghost predicate SamePair<T>(level: seq<T>, i: nat) {
    2 * i + 1 < |level| && level[2 * i] == level[2 * i + 1]
  }

  /** Two complete sibling subtrees among the first c leaves have the same hash. */
  ghost predicate EqualPairAt<T>(h: PairHash<T>, s: seq<T>, c: nat, k: nat, i: nat)
  {
    2 * i + 1 < Shr(c, k) && SamePair(Level(h, s, k), i)
  }

  ghost predicate EqualPairBelow<T>(h: PairHash<T>, s: seq<T>, c: nat, top: nat)
  {
    exists k: nat, i: nat :: k < top && EqualPairAt(h, s, c, k, i)
  }

  ghost predicate EqualPair<T>(h: PairHash<T>, s: seq<T>, c: nat)
  {
    exists k: nat, i: nat :: EqualPairAt(h, s, c, k, i)
  }

  /** Slot k of the counter holds the last complete subtree of 2^k leaves, for each set bit k. */
  ghost predicate SlotsHold<T>(h: PairHash<T>, s: seq<T>, c: nat, inner: seq<T>)
    requires |inner| == 32
  {
    forall k :: 0 <= k < 32 && Bit(c, k) ==> SlotHolds(h, s, c, inner, k)
  }

  ghost predicate SlotHolds<T>(h: PairHash<T>, s: seq<T>, c: nat, inner: seq<T>, k: nat)
    requires |inner| == 32 && k < 32
  {
    0 < Shr(c, k) <= |Level(h, s, k)| && inner[k] == Level(h, s, k)[Shr(c, k) - 1]
  }

  lemma {:induction false} SamePairsAbove<T>(h: PairHash<T>, s: seq<T>, c: nat, top: nat, k: nat)
    requires 0 < c <= |s| && Shr(c - 1, top) == Shr(c, top) - 1 && Bit(c, top) && top <= k
    ensures Shr(c - 1, k) / 2 == Shr(c, k) / 2
    ensures top < k ==> Shr(c - 1, k) == Shr(c, k)
  {
    if top < k {
      assert Shr(c - 1, top + 1) == Shr(c, top + 1);
      ShrAgree(c - 1, c, top + 1, k);
    }
  }

  /** Adding leaf c changes no pair at or above the level where the carry stops. */
  lemma {:induction false} PairsAboveCarry<T>(h: PairHash<T>, s: seq<T>, c: nat, top: nat)
    requires 0 < c <= |s| && Shr(c - 1, top) == Shr(c, top) - 1 && Bit(c, top)
    ensures EqualPair(h, s, c) <==> EqualPair(h, s, c - 1) || EqualPairBelow(h, s, c, top)
  {
    hide Parents, Level;
    if EqualPair(h, s, c) {
      var k: nat, i: nat :| EqualPairAt(h, s, c, k, i);
      if top <= k {
        SamePairsAbove(h, s, c, top, k);
        assert EqualPairAt(h, s, c - 1, k, i);
      }
    }
    if EqualPair(h, s, c - 1) {
      var k: nat, i: nat :| EqualPairAt(h, s, c - 1, k, i);
      ShrMono(c - 1, c, k);
      assert EqualPairAt(h, s, c, k, i);
    }
  }

  // ----- The constant-space calculator -----

  const COUNTER_RANGE: nat := 0x1_0000_0000

  lemma ParentAt<T>(h: PairHash<T>, s: seq<T>, i: nat)
    requires 2 * i + 1 < |s|
    ensures Parents(h, s)[i] == Combine(h, s[2 * i], s[2 * i + 1])
  {
  }

  lemma {:induction false} ParentOfPair<T>(h: PairHash<T>, s: seq<T>, k: nat, i: nat)
    requires 2 * i + 1 < |Level(h, s, k)|
    ensures i < |Level(h, s, k + 1)|
    ensures Level(h, s, k + 1)[i] == Combine(h, Level(h, s, k)[2 * i], Level(h, s, k)[2 * i + 1])
  {
    hide Parents;
    ParentAt(h, Level(h, s, k), i);
  }

  /** x is the last complete subtree at level k of the first c leaves, and nothing of c is below it. */
  ghost predicate Carry<T>(h: PairHash<T>, s: seq<T>, c: nat, k: nat, x: T) {
    && 0 < c <= |s|
    && c == Shr(c, k) * Pow(2, k) && Shr(c - 1, k) == Shr(c, k) - 1
    && 0 < Shr(c, k) <= |Level(h, s, k)| && x == Level(h, s, k)[Shr(c, k) - 1]
  }

  ghost predicate LeftOfCarry<T>(h: PairHash<T>, s: seq<T>, c: nat, k: nat, left: T) {
    2 <= Shr(c, k) <= |Level(h, s, k)| && left == Level(h, s, k)[Shr(c, k) - 2]
  }

  /** The bits of a multiple of 2^k below bit k are clear. */
  lemma {:induction false} LowBitsZero(c: nat, k: nat, l: nat)
    requires c == Shr(c, k) * Pow(2, k) && l < k
    ensures !Bit(c, l)
  {
    ShrBounds(c, k - 1);
    var m, p := Shr(c, k), Pow(2, k - 1);
    Between(c, m, Shr(c, k - 1), p);
    if l < k - 1 { LowBitsZero(c, k - 1, l); }
  }

  lemma Between(c: nat, m: nat, q: nat, p: nat)
    requires p > 0 && c == m * (2 * p) && q * p <= c < (q + 1) * p
    ensures q == 2 * m
  {
    Associate(m, 2, p);
    if q < 2 * m { MulLe(q + 1, 2 * m, p); }
    if q > 2 * m { MulLe(2 * m + 1, q, p); }
  }

  lemma {:induction false} CarryStep(c: nat, k: nat)
    requires c == Shr(c, k) * Pow(2, k) && Shr(c, k) % 2 == 0
    ensures c == Shr(c, k + 1) * Pow(2, k + 1)
  {
    var m := Shr(c, k + 1);
    assert Shr(c, k) == 2 * m;
    assert 2 * m * Pow(2, k) == m * (2 * Pow(2, k));
  }

  /** A merge at level k of the carry: the slot is the left child, x the right one. */
  lemma {:induction false} MergeStep<T>(h: PairHash<T>, s: seq<T>, c: nat, k: nat, inner: seq<T>, x: T)
    requires Carry(h, s, c, k, x) && !Bit(c, k)
    requires k < 32 && |inner| == 32 && SlotsHold(h, s, c - 1, inner)
    ensures Carry(h, s, c, k + 1, Combine(h, inner[k], x))
    ensures LeftOfCarry(h, s, c, k, inner[k])
    ensures EqualPair(h, s, c - 1) || EqualPairBelow(h, s, c, k + 1)
            <==> EqualPair(h, s, c - 1) || EqualPairBelow(h, s, c, k) || inner[k] == x
  {
    hide Parents, Level;
    CarryStep(c, k);
    assert SlotHolds(h, s, c - 1, inner, k);
    ParentOfPair(h, s, k, Shr(c, k + 1) - 1);
    NewPairs(h, s, c, k);
  }

  /** The only pair that leaf c completes at level k is the last one. */
  lemma {:induction false} NewPairs<T>(h: PairHash<T>, s: seq<T>, c: nat, k: nat)
    requires 0 < c <= |s| && Shr(c - 1, k) == Shr(c, k) - 1 && Shr(c, k) >= 2 && !Bit(c, k)
    requires Shr(c, k) <= |Level(h, s, k)|
    ensures EqualPair(h, s, c - 1) || EqualPairBelow(h, s, c, k + 1)
            <==> EqualPair(h, s, c - 1) || EqualPairBelow(h, s, c, k)
                 || Level(h, s, k)[Shr(c, k) - 2] == Level(h, s, k)[Shr(c, k) - 1]
  {
    hide Parents, Level;
    var m := Shr(c, k) / 2 - 1;
    if EqualPairBelow(h, s, c, k + 1) {
      var l: nat, i: nat :| l < k + 1 && EqualPairAt(h, s, c, l, i);
      if l == k && i != m {
        assert EqualPairAt(h, s, c - 1, k, i);
      }
    }
    if Level(h, s, k)[Shr(c, k) - 2] == Level(h, s, k)[Shr(c, k) - 1] {
      assert EqualPairAt(h, s, c, k, m);
    }
  }

  /** Storing the merged subtree at the carry level re-establishes every slot. */
  lemma {:induction false} SlotsAfterCarry<T>(h: PairHash<T>, s: seq<T>, c: nat, top: nat, before: seq<T>, x: T)
    requires Carry(h, s, c, top, x) && Bit(c, top)
    requires top < 32 && |before| == 32 && SlotsHold(h, s, c - 1, before)
    ensures SlotsHold(h, s, c, before[top := x])
    ensures EqualPair(h, s, c) <==> EqualPair(h, s, c - 1) || EqualPairBelow(h, s, c, top)
  {
    hide Parents, Level;
    PairsAboveCarry(h, s, c, top);
    var after := before[top := x];
    forall k | 0 <= k < 32 && Bit(c, k)
      ensures SlotHolds(h, s, c, after, k)
    {
      if k < top {
        LowBitsZero(c, top, k);
        assert false;
      } else if top < k {
        SamePairsAbove(h, s, c, top, k);
        assert SlotHolds(h, s, c - 1, before, k);
      }
    }
  }

  /** matchlevel is the slot that depends on leaf p once p is among the first c leaves, and the
      branch so far is its path up to that slot. */
  ghost predicate Matched<T>(h: PairHash<T>, s: seq<T>, p: nat, c: nat, matchlevel: int, branch: seq<T>) {
    if p < c <= |s| then
      0 <= matchlevel < 32 && Bit(c, matchlevel) && Shr(p, matchlevel) == Shr(c, matchlevel) - 1
      && branch == Path(h, s, p, matchlevel)
    else matchlevel == -1 && branch == []
  }

  /** The node held at level k, the last of its level as far as c leaves reach, is an ancestor of leaf p. */
  ghost predicate OnPath<T>(h: PairHash<T>, s: seq<T>, p: nat, c: nat, k: nat, branch: seq<T>) {
    p < c <= |s| && Shr(p, k) == Shr(c, k) - 1 && branch == Path(h, s, p, k)
  }

  /** Bookkeeping of the branch during the carry of leaf c. */
  ghost predicate CarryMatch<T>(h: PairHash<T>, s: seq<T>, p: nat, c: nat, k: nat, matchx: bool, matchlevel: int, branch: seq<T>) {
    if matchx then OnPath(h, s, p, c, k, branch)
    else c > 0 && p != c - 1 && Matched(h, s, p, c - 1, matchlevel, branch) && (p < c ==> k <= matchlevel)
  }

  lemma {:induction false} CarryStart<T>(h: PairHash<T>, s: seq<T>, p: nat, c: nat)
    requires 0 < c <= |s|
    ensures Carry(h, s, c, 0, s[c - 1]) && !EqualPairBelow(h, s, c, 0)
  {
  }

  lemma {:induction false} MatchStart<T>(h: PairHash<T>, s: seq<T>, p: nat, c: nat, matchlevel: int, branch: seq<T>)
    requires 0 < c <= |s| && Matched(h, s, p, c - 1, matchlevel, branch)
    ensures CarryMatch(h, s, p, c, 0, c - 1 == p, matchlevel, branch)
  {
  }

  lemma {:induction false} PathStep<T>(h: PairHash<T>, s: seq<T>, p: nat, k: nat)
    requires p < |s|
    ensures Shr(p, k) < |Level(h, s, k)|
    ensures Path(h, s, p, k + 1) == Path(h, s, p, k) + [Sibling(Level(h, s, k), Shr(p, k))]
  {
    hide Parents, Level, Shr;
    AncestorInLevel(h, s, p, k);
  }

  lemma {:induction false} MatchStep<T>(h: PairHash<T>, s: seq<T>, p: nat, c: nat, k: nat, left: T, x: T,
                                        matchx: bool, matchlevel: int, branch: seq<T>)
    requires Carry(h, s, c, k, x) && !Bit(c, k) && LeftOfCarry(h, s, c, k, left)
    requires CarryMatch(h, s, p, c, k, matchx, matchlevel, branch)
    ensures matchx ==> CarryMatch(h, s, p, c, k + 1, true, matchlevel, branch + [left])
    ensures !matchx && matchlevel == k ==> CarryMatch(h, s, p, c, k + 1, true, matchlevel, branch + [x])
    ensures !matchx && matchlevel != k ==> CarryMatch(h, s, p, c, k + 1, false, matchlevel, branch)
  {
    hide Parents, Level, Path, Pow;
    if matchx || matchlevel == k {
      PathStep(h, s, p, k);
    }
  }

  lemma {:induction false} MatchExit<T>(h: PairHash<T>, s: seq<T>, p: nat, c: nat, k: nat, x: T,
                                        matchx: bool, matchlevel: int, branch: seq<T>)
    requires Carry(h, s, c, k, x) && Bit(c, k) && k < 32
    requires CarryMatch(h, s, p, c, k, matchx, matchlevel, branch)
    ensures Matched(h, s, p, c, if matchx then k else matchlevel, branch)
  {
    hide Parents, Level;
    if !matchx && p < c {
      SamePairsAbove(h, s, c, k, matchlevel);
    }
  }

  /** Everything the carry loop of leaf c keeps, at level k. */
  ghost predicate CarryInv<T>(h: PairHash<T>, s: seq<T>, c: nat, slots: seq<T>, k: nat, x: T, mutated: bool,
                              p: nat, want: bool, matchx: bool, matchlevel: int, branch: seq<T>) {
    && |slots| == 32 && k <= 32 && 0 < c <= COUNTER_RANGE
    && Carry(h, s, c, k, x) && SlotsHold(h, s, c - 1, slots)
    && (mutated <==> EqualPair(h, s, c - 1) || EqualPairBelow(h, s, c, k))
    && (if want then CarryMatch(h, s, p, c, k, matchx, matchlevel, branch) else branch == [])
  }

  lemma {:induction false} CarryInvStart<T>(h: PairHash<T>, s: seq<T>, c: nat, slots: seq<T>, mutated: bool,
                                            p: nat, want: bool, matchlevel: int, branch: seq<T>)
    requires 0 < c <= |s| && c <= COUNTER_RANGE && |slots| == 32 && SlotsHold(h, s, c - 1, slots)
    requires mutated <==> EqualPair(h, s, c - 1)
    requires if want then Matched(h, s, p, c - 1, matchlevel, branch) else branch == []
    ensures CarryInv(h, s, c, slots, 0, s[c - 1], mutated, p, want, c - 1 == p, matchlevel, branch)
  {
    hide Parents;
    CarryStart(h, s, p, c);
    if want { MatchStart(h, s, p, c, matchlevel, branch); }
  }

  lemma {:induction false} CarryInvStep<T>(h: PairHash<T>, s: seq<T>, c: nat, slots: seq<T>, k: nat, x: T, mutated: bool,
                                           p: nat, want: bool, matchx: bool, matchlevel: int, branch: seq<T>)
    requires k < 32 && CarryInv(h, s, c, slots, k, x, mutated, p, want, matchx, matchlevel, branch) && !Bit(c, k)
    ensures CarryInv(h, s, c, slots, k + 1, Combine(h, slots[k], x), mutated || slots[k] == x,
                     p, want, matchx || (want && matchlevel == k), matchlevel,
                     NextBranch(k, slots[k], x, want, matchx, matchlevel, branch))
  {
    hide Parents, Level, Carry, SlotsHold, EqualPair, EqualPairBelow, CarryMatch, LeftOfCarry;
    MergeStep(h, s, c, k, slots, x);
    if want { MatchStep(h, s, p, c, k, slots[k], x, matchx, matchlevel, branch); }
  }

  /** What one merge appends to the branch. */
  function NextBranch<T>(k: nat, left: T, x: T, want: bool, matchx: bool, matchlevel: int, branch: seq<T>): seq<T> {
    if want && matchx then branch + [left] else if want && matchlevel == k then branch + [x] else branch
  }

  lemma {:induction false} CarryInvExit<T>(h: PairHash<T>, s: seq<T>, c: nat, slots: seq<T>, k: nat, x: T, mutated: bool,
                                           p: nat, want: bool, matchx: bool, matchlevel: int, branch: seq<T>)
    requires k < 32 && CarryInv(h, s, c, slots, k, x, mutated, p, want, matchx, matchlevel, branch) && Bit(c, k)
    ensures SlotsHold(h, s, c, slots[k := x]) && (mutated <==> EqualPair(h, s, c))
    ensures if want then Matched(h, s, p, c, if matchx then k else matchlevel, branch) else branch == []
  {
    hide Parents, Level, Carry, SlotsHold, EqualPair, EqualPairBelow, CarryMatch, Matched;
    SlotsAfterCarry(h, s, c, k, slots, x);
    if want { MatchExit(h, s, p, c, k, x, matchx, matchlevel, branch); }
  }

  /** Bits of the 32-bit counter after it has counted c leaves, c at most 2^32. */
  lemma {:induction false} CounterBits<T>(h: PairHash<T>, s: seq<T>, c: nat, slots: seq<T>, k: nat, x: T, mutated: bool,
                                          p: nat, want: bool, matchx: bool, matchlevel: int, branch: seq<T>)
    requires CarryInv(h, s, c, slots, k, x, mutated, p, want, matchx, matchlevel, branch)
    ensures k < 32 ==> Bit(if c == COUNTER_RANGE then 0 else c, k) == Bit(c, k)
    ensures k == 32 ==> c == COUNTER_RANGE
    ensures c == COUNTER_RANGE && k < 32 ==> !Bit(c, k)
  {
    hide Pow, Shr, Level, SlotsHold, EqualPair, EqualPairBelow, CarryMatch;
    PowerOf32();
    if c == COUNTER_RANGE {
      ShrBounds(c, 32);
      assert Shr(c, 32) == 1;
      if k < 32 { LowBitsZero(c, 32, k); }
      assert Shr(0, k) == 0;
    }
  }

  /** One leaf: the carry loop merges it with the slots of the trailing ones of the counter.
      The counter is 32 bits wide; when it wraps, the loop shifts by 32, which is undefined. */
  method AddLeaf<T(==)>(h: PairHash<T>, leaves: seq<T>, count: nat, inner: array<T>, mutated: bool,
                        matchlevel: int, branchpos: nat, want: bool, branch: seq<T>)
    returns (undefined: bool, count': nat, mutated': bool, matchlevel': int, branch': seq<T>)
    requires count < |leaves| && count < COUNTER_RANGE && inner.Length == 32
    requires SlotsHold(h, leaves, count, inner[..])
    requires mutated <==> EqualPair(h, leaves, count)
    requires if want then Matched(h, leaves, branchpos, count, matchlevel, branch) else branch == []
    modifies inner
    ensures undefined <==> count + 1 == COUNTER_RANGE
    ensures !undefined ==>
              && count' == count + 1
              && SlotsHold(h, leaves, count', inner[..])
              && (mutated' <==> EqualPair(h, leaves, count'))
              && (if want then Matched(h, leaves, branchpos, count', matchlevel', branch') else branch' == [])
  {
    hide CarryInv, SlotsHold, EqualPair, Matched, Bit, Combine;
    var x := leaves[count];
    var matchx := count == branchpos;
    count' := if count + 1 == COUNTER_RANGE then 0 else count + 1;
    mutated', matchlevel', branch' := mutated, matchlevel, branch;
    ghost var c, slots := count + 1, inner[..];
    var level := 0;
    CarryInvStart(h, leaves, c, slots, mutated, branchpos, want, matchlevel, branch);
    CounterBits(h, leaves, c, slots, 0, x, mutated, branchpos, want, matchx, matchlevel, branch);
    while level < 32 && !Bit(count', level)
      invariant 0 <= level <= 32
      invariant CarryInv(h, leaves, c, slots, level, x, mutated', branchpos, want, matchx, matchlevel, branch')
      invariant level < 32 ==> Bit(count', level) == Bit(c, level) && (c == COUNTER_RANGE ==> !Bit(c, level))
      invariant level == 32 ==> c == COUNTER_RANGE
      modifies {}
    {
      CarryInvStep(h, leaves, c, slots, level, x, mutated', branchpos, want, matchx, matchlevel, branch');
      if want {
        if matchx {
          branch' := branch' + [inner[level]];
        } else if matchlevel' == level {
          branch' := branch' + [x];
          matchx := true;
        }
      }
      mutated' := mutated' || inner[level] == x;
      x := Combine(h, inner[level], x);
      level := level + 1;
      CounterBits(h, leaves, c, slots, level, x, mutated', branchpos, want, matchx, matchlevel, branch');
    }
    undefined := level == 32;
    if !undefined {
      CarryInvExit(h, leaves, c, slots, level, x, mutated', branchpos, want, matchx, matchlevel, branch');
      inner[level] := x;
      assert inner[..] == slots[level := x];
      if matchx {
        matchlevel' := level;
      }
    }
  }

  // ----- The final sweep -----

  lemma {:induction false} HeightBounds(n: nat)
    ensures n <= Pow(2, Height(n))
    ensures n > 1 ==> Height(n) > 0 && Pow(2, Height(n) - 1) < n
  {
    if n > 1 { HeightBounds((n + 1) / 2); }
  }

  /** x is the last node of level k, whose width times 2^k is the rounded-up count c. */
  ghost predicate Sweep<T>(h: PairHash<T>, s: seq<T>, k: nat, c: nat, x: T) {
    var level := Level(h, s, k);
    && |level| > 0 && c == |level| * Pow(2, k) && x == level[|level| - 1]
    && |s| <= c < |s| + Pow(2, k)
    && (if c == |s| then Shr(|s|, k) == |level| else Shr(|s|, k) == |level| - 1)
    && TreeRoot(h, level) == TreeRoot(h, s) && k + Height(|level|) == Height(|s|)
  }

  /** Bookkeeping of the branch during the sweep. */
  ghost predicate SweepMatch<T>(h: PairHash<T>, s: seq<T>, p: nat, k: nat, matchx: bool, matchlevel: int, branch: seq<T>) {
    if p >= |s| then !matchx && matchlevel == -1 && branch == []
    else if matchx then Shr(p, k) == |Level(h, s, k)| - 1 && branch == Path(h, s, p, k)
    else Matched(h, s, p, |s|, matchlevel, branch) && k <= matchlevel
         && (Shr(|s|, k) == |Level(h, s, k)| ==> k < matchlevel)
  }

  /** Everything the sweep keeps, except the state of the counter. */
  ghost predicate SweepInv<T>(h: PairHash<T>, s: seq<T>, slots: seq<T>, k: nat, c: nat, x: T,
                              p: nat, want: bool, matchx: bool, matchlevel: int, branch: seq<T>) {
    && |s| > 0 && |slots| == 32 && k <= 32 && c <= COUNTER_RANGE
    && SlotsHold(h, s, |s|, slots) && Sweep(h, s, k, c, x)
    && (c == COUNTER_RANGE ==> |s| > COUNTER_RANGE / 2)
    && (if want then SweepMatch(h, s, p, k, matchx, matchlevel, branch) else branch == [])
  }

  lemma {:induction false} ShrOfMultiple(w: nat, k: nat)
    ensures Shr(w * Pow(2, k), k) == w
  {
    hide Pow, Shr;
    ShrBounds(w * Pow(2, k), k);
    var q, b := Shr(w * Pow(2, k), k), Pow(2, k);
    if q < w { MulLe(q + 1, w, b); }
    if w < q { MulLe(w + 1, q, b); }
  }

  /** Going up one level from a level of more than one node. */
  lemma {:induction false} NextLevel<T>(h: PairHash<T>, s: seq<T>, k: nat)
    requires |s| > 0 && |Level(h, s, k)| > 1
    requires TreeRoot(h, Level(h, s, k)) == TreeRoot(h, s) && k + Height(|Level(h, s, k)|) == Height(|s|)
    ensures |Level(h, s, k + 1)| == (|Level(h, s, k)| + 1) / 2
    ensures TreeRoot(h, Level(h, s, k + 1)) == TreeRoot(h, s)
    ensures k + 1 + Height(|Level(h, s, k + 1)|) == Height(|s|)
  {
    hide Parents;
  }

  lemma {:induction false} LastParent<T>(h: PairHash<T>, s: seq<T>, k: nat)
    requires |Level(h, s, k)| % 2 == 1
    ensures |Level(h, s, k + 1)| == (|Level(h, s, k)| + 1) / 2
    ensures var level := Level(h, s, k);
            Level(h, s, k + 1)[|level| / 2] == Combine(h, level[|level| - 1], level[|level| - 1])
  {
    hide Parents, Combine;
    OddParent(h, Level(h, s, k));
  }

  lemma OddParent<T>(h: PairHash<T>, s: seq<T>)
    requires |s| % 2 == 1
    ensures Parents(h, s)[|s| / 2] == Combine(h, s[|s| - 1], s[|s| - 1])
  {
  }

  lemma OneMore(w: nat, b: nat)
    ensures (w + 1) * b == w * b + b
  {
  }

  lemma HalfWidth(w: nat, k: nat)
    requires w % 2 == 0
    ensures (w / 2) * Pow(2, k + 1) == w * Pow(2, k) && Pow(2, k + 1) == 2 * Pow(2, k) && Pow(2, k) > 0
  {
    var b := Pow(2, k);
    assert Pow(2, k + 1) == 2 * b;
    assert w == 2 * (w / 2);
    Associate(w / 2, 2, b);
  }

  /** The last node of an odd level is combined with itself. */
  lemma {:induction false} SweepDouble<T>(h: PairHash<T>, s: seq<T>, k: nat, c: nat, x: T)
    requires |s| > 0 && Sweep(h, s, k, c, x) && |Level(h, s, k)| % 2 == 1 && |Level(h, s, k)| > 1
    ensures Sweep(h, s, k + 1, c + Pow(2, k), Combine(h, x, x)) && c + Pow(2, k) != |s|
  {
    hide Parents, Level, TreeRoot, Height, Combine, Pow;
    NextLevel(h, s, k);
    LastParent(h, s, k);
    var w := |Level(h, s, k)|;
    HalfWidth(w + 1, k);
    OneMore(w, Pow(2, k));
  }

  /** On an even level the slot is the left sibling of the last node. */
  lemma {:induction false} SweepMerge<T>(h: PairHash<T>, s: seq<T>, slots: seq<T>, k: nat, c: nat, x: T)
    requires |s| > 0 && Sweep(h, s, k, c, x) && |Level(h, s, k)| % 2 == 0 && c != |s|
    requires k < 32 && |slots| == 32 && SlotsHold(h, s, |s|, slots)
    ensures |Level(h, s, k)| >= 2 && slots[k] == Level(h, s, k)[|Level(h, s, k)| - 2]
    ensures Sweep(h, s, k + 1, c, Combine(h, slots[k], x))
  {
    hide Parents, Level, TreeRoot, Height, Combine, Pow;
    NextLevel(h, s, k);
    assert Bit(|s|, k);
    assert SlotHolds(h, s, |s|, slots, k);
    ParentOfPair(h, s, k, |Level(h, s, k)| / 2 - 1);
    HalfWidth(|Level(h, s, k)|, k);
  }

  lemma ShrStep(n: nat, k: nat)
    ensures Shr(n, k + 1) == Shr(n, k) / 2
  {
  }

  /** Widths and complete nodes of an odd level and the next one during the sweep. */
  lemma {:induction false} OddWidths<T>(h: PairHash<T>, s: seq<T>, k: nat, c: nat, x: T) returns (v: nat)
    requires |s| > 0 && Sweep(h, s, k, c, x) && |Level(h, s, k)| > 1 && |Level(h, s, k)| % 2 == 1
    ensures |Level(h, s, k)| == 2 * v + 1 && |Level(h, s, k + 1)| == v + 1 && Shr(|s|, k + 1) == v
    ensures Shr(|s|, k) == 2 * v + 1 || (Shr(|s|, k) == 2 * v && !Bit(|s|, k))
  {
    hide Parents, Level, TreeRoot, Height, Pow, Shr;
    v := |Level(h, s, k)| / 2;
    NextLevel(h, s, k);
    ShrStep(|s|, k);
  }

  lemma {:induction false} EvenWidths<T>(h: PairHash<T>, s: seq<T>, k: nat, c: nat, x: T) returns (v: nat)
    requires |s| > 0 && Sweep(h, s, k, c, x) && |Level(h, s, k)| > 1 && |Level(h, s, k)| % 2 == 0 && c != |s|
    ensures |Level(h, s, k)| == 2 * v && |Level(h, s, k + 1)| == v > 0
    ensures Shr(|s|, k) == 2 * v - 1 && Shr(|s|, k + 1) == v - 1
  {
    hide Parents, Level, TreeRoot, Height, Pow, Shr;
    v := |Level(h, s, k)| / 2;
    NextLevel(h, s, k);
    ShrStep(|s|, k);
  }

  /** The path of leaf p at a level where its ancestor is node 2 * v or 2 * v + 1. */
  lemma {:induction false} PathThrough<T>(h: PairHash<T>, s: seq<T>, p: nat, k: nat, v: nat)
    requires p < |s| && (Shr(p, k) == 2 * v || Shr(p, k) == 2 * v + 1)
    ensures Shr(p, k + 1) == v && Shr(p, k) < |Level(h, s, k)|
    ensures var level := Level(h, s, k);
      Path(h, s, p, k + 1) == Path(h, s, p, k) + [if Shr(p, k) == 2 * v + 1 then level[2 * v]
                                                  else if 2 * v + 1 < |level| then level[2 * v + 1] else level[2 * v]]
  {
    hide Parents, Level, Path, Shr;
    ShrStep(p, k);
    PathStep(h, s, p, k);
  }

  lemma {:induction false} DoubleAt<T>(h: PairHash<T>, s: seq<T>, k: nat, x: T,
                                       p: nat, matchx: bool, matchlevel: int, branch: seq<T>, v: nat)
    requires |Level(h, s, k)| == 2 * v + 1 && |Level(h, s, k + 1)| == v + 1 && Shr(|s|, k + 1) == v
    requires Shr(|s|, k) == 2 * v + 1 || (Shr(|s|, k) == 2 * v && !Bit(|s|, k))
    requires x == Level(h, s, k)[2 * v] && SweepMatch(h, s, p, k, matchx, matchlevel, branch)
    ensures SweepMatch(h, s, p, k + 1, matchx, matchlevel, if matchx then branch + [x] else branch)
  {
    hide Parents, Level, Path, Shr, Bit;
    if p < |s| && matchx { PathThrough(h, s, p, k, v); }
  }

  lemma {:induction false} MergeAt<T>(h: PairHash<T>, s: seq<T>, k: nat, left: T, x: T,
                                      p: nat, matchx: bool, matchlevel: int, branch: seq<T>, v: nat)
    requires |Level(h, s, k)| == 2 * v && |Level(h, s, k + 1)| == v > 0
    requires Shr(|s|, k) == 2 * v - 1 && Shr(|s|, k + 1) == v - 1
    requires left == Level(h, s, k)[2 * v - 2] && x == Level(h, s, k)[2 * v - 1]
    requires SweepMatch(h, s, p, k, matchx, matchlevel, branch)
    ensures SweepMatch(h, s, p, k + 1, matchx || matchlevel == k, matchlevel,
                       NextBranch(k, left, x, true, matchx, matchlevel, branch))
  {
    hide Parents, Level, Path, Shr, Bit;
    if p < |s| && (matchx || matchlevel == k) { PathThrough(h, s, p, k, v - 1); }
  }

  lemma {:induction false} SweepMatchDouble<T>(h: PairHash<T>, s: seq<T>, k: nat, c: nat, x: T,
                                               p: nat, matchx: bool, matchlevel: int, branch: seq<T>)
    requires |s| > 0 && Sweep(h, s, k, c, x) && |Level(h, s, k)| % 2 == 1 && |Level(h, s, k)| > 1
    requires SweepMatch(h, s, p, k, matchx, matchlevel, branch)
    ensures SweepMatch(h, s, p, k + 1, matchx, matchlevel, if matchx then branch + [x] else branch)
  {
    hide Parents, Level, Path, Sweep, Shr, Bit, SweepMatch;
    var v := OddWidths(h, s, k, c, x);
    SweepLast(h, s, k, c, x);
    DoubleAt(h, s, k, x, p, matchx, matchlevel, branch, v);
  }

  lemma SweepLast<T>(h: PairHash<T>, s: seq<T>, k: nat, c: nat, x: T)
    requires Sweep(h, s, k, c, x)
    ensures |Level(h, s, k)| > 0 && x == Level(h, s, k)[|Level(h, s, k)| - 1]
  {
    hide Level, Shr, Pow, TreeRoot, Height;
  }

  lemma {:induction false} SweepMatchMerge<T>(h: PairHash<T>, s: seq<T>, k: nat, c: nat, left: T, x: T,
                                              p: nat, matchx: bool, matchlevel: int, branch: seq<T>)
    requires |s| > 0 && Sweep(h, s, k, c, x) && |Level(h, s, k)| % 2 == 0 && c != |s|
    requires |Level(h, s, k)| >= 2 && left == Level(h, s, k)[|Level(h, s, k)| - 2]
    requires SweepMatch(h, s, p, k, matchx, matchlevel, branch)
    ensures SweepMatch(h, s, p, k + 1, matchx || matchlevel == k, matchlevel,
                       NextBranch(k, left, x, true, matchx, matchlevel, branch))
  {
    hide Parents, Level, Path, Sweep, Shr, Bit, SweepMatch;
    var v := EvenWidths(h, s, k, c, x);
    SweepLast(h, s, k, c, x);
    MergeAt(h, s, k, left, x, p, matchx, matchlevel, branch, v);
  }

  /** Bit k of the 32-bit counter tells the parity of the level; an odd level is never the wrapped one. */
  lemma {:induction false} SweepBits<T>(h: PairHash<T>, s: seq<T>, slots: seq<T>, k: nat, c: nat, x: T,
                                        p: nat, want: bool, matchx: bool, matchlevel: int, branch: seq<T>)
    requires SweepInv(h, s, slots, k, c, x, p, want, matchx, matchlevel, branch)
    ensures k < 32 ==> (Bit(Wrap(c), k) <==> |Level(h, s, k)| % 2 == 1)
    ensures k == 32 ==> c == COUNTER_RANGE
    ensures k < 32 && |Level(h, s, k)| % 2 == 1 ==> c < COUNTER_RANGE
  {
    hide Parents, Level, TreeRoot, Height, SlotsHold, SweepMatch, Pow, Shr;
    PowerOf32();
    ShrOfMultiple(|Level(h, s, k)|, k);
    if c == COUNTER_RANGE && k < 32 {
      ShrBounds(c, 32);
      assert Shr(c, 32) == 1;
      LowBitsZero(c, 32, k);
      assert Shr(0, k) == 0;
    }
  }

  /** The value held by the 32-bit counter. */
  function Wrap(c: nat): nat {
    if c == COUNTER_RANGE then 0 else c
  }

  lemma {:induction false} SweepInvDouble<T>(h: PairHash<T>, s: seq<T>, slots: seq<T>, k: nat, c: nat, x: T,
                                             p: nat, want: bool, matchx: bool, matchlevel: int, branch: seq<T>)
    requires SweepInv(h, s, slots, k, c, x, p, want, matchx, matchlevel, branch)
    requires k < 32 && Bit(c, k) && c < COUNTER_RANGE && c != Pow(2, k)
    ensures c + Pow(2, k) <= COUNTER_RANGE && c + Pow(2, k) != |s|
    ensures SweepInv(h, s, slots, k + 1, c + Pow(2, k), Combine(h, x, x), p, want, matchx, matchlevel,
                     if want && matchx then branch + [x] else branch)
  {
    hide Parents, Level, TreeRoot, Height, SlotsHold, SweepMatch, Combine, Shr, Pow, Sweep, Bit;
    OddLevelCount(h, s, k, c, x);
    SweepDouble(h, s, k, c, x);
    if want { SweepMatchDouble(h, s, k, c, x, p, matchx, matchlevel, branch); }
  }

  /** A set bit of the counter that is not its only one marks an odd level of at least three nodes. */
  lemma {:induction false} OddLevelCount<T>(h: PairHash<T>, s: seq<T>, k: nat, c: nat, x: T)
    requires |s| > 0 && k < 32 && Sweep(h, s, k, c, x) && Bit(c, k) && c < COUNTER_RANGE && c != Pow(2, k)
    ensures |Level(h, s, k)| % 2 == 1 && |Level(h, s, k)| > 1 && c + Pow(2, k) <= COUNTER_RANGE
    ensures c + Pow(2, k) == COUNTER_RANGE ==> |s| > COUNTER_RANGE / 2
  {
    hide Parents, Level, TreeRoot, Height, Shr, Pow;
    var w, b := |Level(h, s, k)|, Pow(2, k);
    ShrOfMultiple(w, k);
    assert w != 1 by { assert 1 * b == b; }
    RoundUp(w, k);
    assert (w + 1) * b == c + b && (w - 1) * b == c - b;
  }

  /** Rounding an odd width up stays within 2^32 and reaches it only from above 2^31. */
  lemma {:induction false} RoundUp(w: nat, k: nat)
    requires k < 32 && w % 2 == 1 && w > 1 && w * Pow(2, k) < COUNTER_RANGE
    ensures (w + 1) * Pow(2, k) <= COUNTER_RANGE
    ensures (w + 1) * Pow(2, k) == COUNTER_RANGE ==> (w - 1) * Pow(2, k) >= COUNTER_RANGE / 2
  {
    hide Pow;
    PowerSplit(k, 32);
    PowerOf32();
    RoundUpBy(w, Pow(2, k), Pow(2, 32 - k));
  }

  lemma RoundUpBy(w: nat, b: nat, t: nat)
    requires t * b == COUNTER_RANGE && w * b < COUNTER_RANGE && w >= 3
    ensures (w + 1) * b <= COUNTER_RANGE
    ensures (w + 1) * b == COUNTER_RANGE ==> (w - 1) * b >= COUNTER_RANGE / 2
  {
    if w >= t { MulLe(t, w, b); }
    MulLe(w + 1, t, b);
    MulLe(3, w, b);
    assert (w + 1) * b == w * b + b && (w - 1) * b == w * b - b;
  }

  lemma {:induction false} SweepInvMerge<T>(h: PairHash<T>, s: seq<T>, slots: seq<T>, k: nat, c: nat, x: T,
                                            p: nat, want: bool, matchx: bool, matchlevel: int, branch: seq<T>)
    requires SweepInv(h, s, slots, k, c, x, p, want, matchx, matchlevel, branch)
    requires k < 32 && |Level(h, s, k)| % 2 == 0 && c != |s|
    ensures SweepInv(h, s, slots, k + 1, c, Combine(h, slots[k], x), p, want,
                     matchx || (want && matchlevel == k), matchlevel,
                     NextBranch(k, slots[k], x, want, matchx, matchlevel, branch))
  {
    hide Parents, Level, TreeRoot, Height, SlotsHold, SweepMatch, Combine, Sweep;
    SweepMerge(h, s, slots, k, c, x);
    if want { SweepMatchMerge(h, s, k, c, slots[k], x, p, matchx, matchlevel, branch); }
  }

  /** When the counter is a power of two the sweep has reached the top. */
  lemma {:induction false} SweepExit<T>(h: PairHash<T>, s: seq<T>, slots: seq<T>, k: nat, c: nat, x: T,
                                        p: nat, want: bool, matchx: bool, matchlevel: int, branch: seq<T>)
    requires SweepInv(h, s, slots, k, c, x, p, want, matchx, matchlevel, branch) && c == Pow(2, k) && k < 32
    ensures x == TreeRoot(h, s) && |s| <= COUNTER_RANGE / 2
    ensures branch == if want && p < |s| then Path(h, s, p, Height(|s|)) else []
  {
    hide Parents, Level, SlotsHold, Path, Pow;
    var level, b := Level(h, s, k), Pow(2, k);
    if |level| > 1 { MulLe(2, |level|, b); }
    PowerSplit(k, 31);
    PowerOf32();
    if want && p < |s| && !matchx {
      ShrDecreases(|s|, if c == |s| then k + 1 else k, matchlevel);
      assert false;
    }
  }

  /** Below the lowest set bit every level is even and complete. */
  ghost predicate Even<T>(h: PairHash<T>, s: seq<T>, k: nat) {
    var level := Level(h, s, k);
    && |s| > 0 && |level| > 0 && Shr(|s|, k) == |level| && |s| == |level| * Pow(2, k)
    && TreeRoot(h, level) == TreeRoot(h, s) && k + Height(|level|) == Height(|s|)
  }

  lemma {:induction false} EvenStep<T>(h: PairHash<T>, s: seq<T>, k: nat)
    requires Even(h, s, k) && !Bit(|s|, k)
    ensures Even(h, s, k + 1)
  {
    hide Parents, Level, TreeRoot, Height;
    NextLevel(h, s, k);
    CarryStep(|s|, k);
  }

  lemma {:induction false} EvenBelow32<T>(h: PairHash<T>, s: seq<T>, k: nat)
    requires Even(h, s, k) && |s| < COUNTER_RANGE
    ensures k < 32
  {
    hide Pow, Shr, Level;
    if k >= 32 {
      PowerSplit(32, k);
      PowerOf32();
      MulLe(1, |Level(h, s, k)|, Pow(2, k));
    }
  }

  lemma {:induction false} SweepStart<T>(h: PairHash<T>, s: seq<T>, slots: seq<T>, k: nat,
                                         p: nat, want: bool, matchlevel: int, branch: seq<T>)
    requires Even(h, s, k) && Bit(|s|, k) && |s| < COUNTER_RANGE && k < 32
    requires |slots| == 32 && SlotsHold(h, s, |s|, slots)
    requires if want then Matched(h, s, p, |s|, matchlevel, branch) else branch == []
    ensures SweepInv(h, s, slots, k, |s|, slots[k], p, want, matchlevel == k, matchlevel, branch)
  {
    hide Parents, Level, TreeRoot, Height, Path;
    assert SlotHolds(h, s, |s|, slots, k);
    if want && p < |s| && matchlevel < k {
      LowBitsZero(|s|, k, matchlevel);
      assert false;
    }
  }

  datatype Outcome<T> = Undefined | Done(root: T, mutated: bool, branch: seq<T>)

  /** The final sweep over the rightmost nodes, from the slots of all leaves. */
  method SweepUp<T>(h: PairHash<T>, leaves: seq<T>, count: nat, inner: array<T>, mutated: bool,
                    matchlevel: int, branchpos: nat, want: bool, branch: seq<T>)
    returns (r: Outcome<T>)
    requires 0 < |leaves| == count < COUNTER_RANGE && inner.Length == 32
    requires SlotsHold(h, leaves, count, inner[..])
    requires if want then Matched(h, leaves, branchpos, count, matchlevel, branch) else branch == []
    ensures r.Undefined? <==> |leaves| > COUNTER_RANGE / 2
    ensures r.Done? ==> r.root == TreeRoot(h, leaves) && r.mutated == mutated
    ensures r.Done? ==> r.branch == if want && branchpos < |leaves| then Path(h, leaves, branchpos, Height(|leaves|)) else []
  {
    hide Level, TreeRoot, Path, Height, Combine, SlotsHold, Matched, Even, SweepInv, Bit, Pow;
    ghost var slots := inner[..];
    var level, branch' := 0, branch;
    var count': nat := count;
    EvenStart(h, leaves);
    while level < 32 && !Bit(count', level)
      invariant 0 <= level <= 32 && Even(h, leaves, level)
    {
      EvenStep(h, leaves, level);
      level := level + 1;
    }
    EvenBelow32(h, leaves, level);
    var x := inner[level];
    var matchx := matchlevel == level;
    ghost var c: nat := count;
    SweepStart(h, leaves, slots, level, branchpos, want, matchlevel, branch);
    while count' != Pow(2, level)
      invariant 0 <= level < 32 && count' == c < COUNTER_RANGE && Bit(count', level)
      invariant SweepInv(h, leaves, slots, level, c, x, branchpos, want, matchx, matchlevel, branch')
      decreases 32 - level
    {
      SweepInvDouble(h, leaves, slots, level, c, x, branchpos, want, matchx, matchlevel, branch');
      if want && matchx {
        branch' := branch' + [x];
      }
      x := Combine(h, x, x);
      c := c + Pow(2, level);
      count' := Wrap(count' + Pow(2, level));
      level := level + 1;
      SweepBits(h, leaves, slots, level, c, x, branchpos, want, matchx, matchlevel, branch');
      ghost var from := level;
      while level < 32 && !Bit(count', level)
        invariant from <= level <= 32 && count' == Wrap(c) && c != |leaves|
        invariant SweepInv(h, leaves, slots, level, c, x, branchpos, want, matchx, matchlevel, branch')
        invariant level < 32 ==> (Bit(count', level) <==> |Level(h, leaves, level)| % 2 == 1)
        invariant level == 32 ==> c == COUNTER_RANGE
        invariant level < 32 && |Level(h, leaves, level)| % 2 == 1 ==> c < COUNTER_RANGE
      {
        SweepInvMerge(h, leaves, slots, level, c, x, branchpos, want, matchx, matchlevel, branch');
        if want {
          if matchx {
            branch' := branch' + [inner[level]];
          } else if matchlevel == level {
            branch' := branch' + [x];
            matchx := true;
          }
        }
        x := Combine(h, inner[level], x);
        level := level + 1;
        SweepBits(h, leaves, slots, level, c, x, branchpos, want, matchx, matchlevel, branch');
      }
      if level == 32 {
        SweepWrapped(h, leaves, slots, c, x, branchpos, want, matchx, matchlevel, branch');
        return Undefined;
      }
    }
    SweepExit(h, leaves, slots, level, c, x, branchpos, want, matchx, matchlevel, branch');
    r := Done(x, mutated, branch');
  }

  lemma {:induction false} EvenStart<T>(h: PairHash<T>, s: seq<T>)
    requires |s| > 0
    ensures Even(h, s, 0)
  {
  }

  lemma {:induction false} SweepWrapped<T>(h: PairHash<T>, s: seq<T>, slots: seq<T>, c: nat, x: T,
                                           p: nat, want: bool, matchx: bool, matchlevel: int, branch: seq<T>)
    requires SweepInv(h, s, slots, 32, c, x, p, want, matchx, matchlevel, branch) && c == COUNTER_RANGE
    ensures |s| > COUNTER_RANGE / 2
  {
  }

  // ----- The interface -----

  /** MerkleComputation: defined exactly up to 2^31 leaves, where it agrees with the tree. */
  method MerkleComputation<T(==)>(h: PairHash<T>, zero: T, leaves: seq<T>, branchpos: nat, want: bool)
    returns (r: Outcome<T>)
    ensures r.Undefined? <==> |leaves| > COUNTER_RANGE / 2
    ensures |leaves| == 0 ==> r == Done(zero, false, [])
    ensures 0 < |leaves| <= COUNTER_RANGE / 2 ==> r.root == TreeRoot(h, leaves)
    ensures r.Done? ==> (r.mutated <==> EqualPair(h, leaves, |leaves|))
    ensures r.Done? ==> r.branch == if want && branchpos < |leaves| then Path(h, leaves, branchpos, Height(|leaves|)) else []
  {
    NothingCounted(h, leaves);
    hide Level, TreeRoot, Path, Height, SlotsHold, Matched, EqualPair;
    if |leaves| == 0 {
      return Done(zero, false, []);
    }
    var mutated, count, matchlevel, branch, undefined := false, 0, -1, [], false;
    var inner := new T[32](_ => zero);
    NothingCountedSlots(h, leaves, branchpos, inner[..]);
    while count < |leaves|
      invariant 0 <= count <= |leaves| && count < COUNTER_RANGE
      invariant SlotsHold(h, leaves, count, inner[..])
      invariant mutated <==> EqualPair(h, leaves, count)
      invariant if want then Matched(h, leaves, branchpos, count, matchlevel, branch) else branch == []
    {
      undefined, count, mutated, matchlevel, branch :=
        AddLeaf(h, leaves, count, inner, mutated, matchlevel, branchpos, want, branch);
      if undefined {
        return Undefined;
      }
    }
    r := SweepUp(h, leaves, count, inner, mutated, matchlevel, branchpos, want, branch);
  }

  lemma {:induction false} NothingCounted<T>(h: PairHash<T>, s: seq<T>)
    ensures !EqualPair(h, s, 0)
  {
    hide Level;
  }

  lemma {:induction false} NothingCountedSlots<T>(h: PairHash<T>, s: seq<T>, p: nat, slots: seq<T>)
    requires |slots| == 32
    ensures SlotsHold(h, s, 0, slots) && Matched(h, s, p, 0, -1, [])
  {
    hide Level;
  }

  method ComputeMerkleRoot<T(==)>(h: PairHash<T>, zero: T, leaves: seq<T>) returns (r: Outcome<T>)
    ensures r.Undefined? <==> |leaves| > COUNTER_RANGE / 2
    ensures r.Done? ==> r.root == (if |leaves| == 0 then zero else TreeRoot(h, leaves))
    ensures r.Done? ==> (r.mutated <==> EqualPair(h, leaves, |leaves|))
  {
    r := MerkleComputation(h, zero, leaves, COUNTER_RANGE - 1, false);
  }

  method ComputeMerkleBranch<T(==)>(h: PairHash<T>, zero: T, leaves: seq<T>, position: nat) returns (r: Outcome<T>)
    ensures r.Undefined? <==> |leaves| > COUNTER_RANGE / 2
    ensures r.Done? && position < |leaves| ==> r.branch == Path(h, leaves, position, Height(|leaves|))
    ensures r.Done? && position >= |leaves| ==> r.branch == []
  {
    r := MerkleComputation(h, zero, leaves, position, true);
  }

  /** Folding a leaf with its branch, lowest level first. */
  function Fold<T>(h: PairHash<T>, leaf: T, branch: seq<T>, index: nat): T {
    if branch == [] then leaf else
      var last := |branch| - 1;
      var below := Fold(h, leaf, branch[..last], index);
      if Bit(index, last) then Combine(h, branch[last], below) else Combine(h, below, branch[last])
  }

  method ComputeMerkleRootFromBranch<T>(h: PairHash<T>, leaf: T, branch: seq<T>, index: nat) returns (hash: T)
    ensures hash == Fold(h, leaf, branch, index)
  {
    hash := leaf;
    var nIndex := index;
    for i := 0 to |branch|
      invariant nIndex == Shr(index, i)
      invariant hash == Fold(h, leaf, branch[..i], index)
    {
      assert branch[..i + 1][..i] == branch[..i];
      if nIndex % 2 == 1 {
        hash := Combine(h, branch[i], hash);
      } else {
        hash := Combine(h, hash, branch[i]);
      }
      nIndex := nIndex / 2;
    }
    assert branch[..|branch|] == branch;
  }
}
