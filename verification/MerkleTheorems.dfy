/** What the merkle root, branch and mutation flag mean, for every list of leaves. */
module MerkleTheorems {
  import opened Powers
  import opened Merkle

  ghost predicate Injective<T(!new)>(h: PairHash<T>) {
    forall a, b, c, d :: Combine(h, a, b) == Combine(h, c, d) ==> a == c && b == d
  }

  /** No digest of the list is itself the hash of two digests. */
  ghost predicate Atoms<T(!new)>(h: PairHash<T>, s: seq<T>) {
    forall i, a, b :: 0 <= i < |s| ==> s[i] != Combine(h, a, b)
  }

  /** Two sibling nodes that are both really present on some level are equal. */
  ghost predicate EqualSiblings<T>(h: PairHash<T>, s: seq<T>) {
    exists k: nat, i: nat :: SamePair(Level(h, s, k), i)
  }

  // ----- Levels and the root -----

  lemma {:induction false} LevelOfParents<T>(h: PairHash<T>, s: seq<T>, k: nat)
    ensures Level(h, Parents(h, s), k) == Level(h, s, k + 1)
  {
    hide Parents;
    if k > 0 { LevelOfParents(h, s, k - 1); }
  }

  lemma {:induction false} RootAtHeight<T>(h: PairHash<T>, s: seq<T>)
    requires |s| > 0
    ensures |Level(h, s, Height(|s|))| == 1
    ensures TreeRoot(h, s) == Level(h, s, Height(|s|))[0]
    decreases |s|
  {
    hide Parents;
    if |s| > 1 {
      RootAtHeight(h, Parents(h, s));
      LevelOfParents(h, s, Height(|s|) - 1);
    }
  }

  /** A parent is the hash of its left child and that child's sibling. */
  lemma ParentIs<T>(h: PairHash<T>, s: seq<T>, i: nat)
    requires 2 * i < |s|
    ensures i < |Parents(h, s)| && Parents(h, s)[i] == Combine(h, s[2 * i], Sibling(s, 2 * i))
  {
  }

  // ----- Branches -----

  lemma {:induction false} NodeFromChild<T>(h: PairHash<T>, level: seq<T>, i: nat)
    requires i < |level|
    ensures i / 2 < |Parents(h, level)|
    ensures Parents(h, level)[i / 2]
            == if i % 2 == 1 then Combine(h, Sibling(level, i), level[i]) else Combine(h, level[i], Sibling(level, i))
  {
    ParentIs(h, level, i / 2);
    hide Parents;
  }

  lemma {:induction false} PathFolds<T>(h: PairHash<T>, s: seq<T>, p: nat, k: nat)
    requires p < |s|
    ensures Shr(p, k) < |Level(h, s, k)| && Fold(h, s[p], Path(h, s, p, k), p) == Level(h, s, k)[Shr(p, k)]
  {
    hide Parents, Combine;
    AncestorInLevel(h, s, p, k);
    if k > 0 {
      PathFolds(h, s, p, k - 1);
      PathStep(h, s, p, k - 1);
      assert Path(h, s, p, k)[..k - 1] == Path(h, s, p, k - 1);
      NodeFromChild(h, Level(h, s, k - 1), Shr(p, k - 1));
    }
  }

  /** Every leaf folded with its branch gives the root, and the branch has ceil(log2 n) entries. */
  lemma {:induction false} BranchGivesRoot<T>(h: PairHash<T>, s: seq<T>, p: nat)
    requires p < |s|
    ensures Fold(h, s[p], Path(h, s, p, Height(|s|)), p) == TreeRoot(h, s)
    ensures |Path(h, s, p, Height(|s|))| == Height(|s|) && |s| <= Pow(2, Height(|s|))
    ensures |s| > 1 ==> Pow(2, Height(|s|) - 1) < |s|
  {
    hide Parents, Level, Fold, Path, Pow;
    PathFolds(h, s, p, Height(|s|));
    RootAtHeight(h, s);
    HeightBounds(|s|);
  }

  lemma {:induction false} FoldDetermines<T(!new)>(h: PairHash<T>, s: seq<T>, p: nat, k: nat, leaf: T, branch: seq<T>)
    requires Injective(h) && p < |s| && |branch| == k && Shr(p, k) < |Level(h, s, k)|
    requires Fold(h, leaf, branch, p) == Level(h, s, k)[Shr(p, k)]
    ensures leaf == s[p] && branch == Path(h, s, p, k)
  {
    hide Parents, Combine;
    if k > 0 {
      AncestorInLevel(h, s, p, k - 1);
      NodeFromChild(h, Level(h, s, k - 1), Shr(p, k - 1));
      FoldDetermines(h, s, p, k - 1, leaf, branch[..k - 1]);
      PathStep(h, s, p, k - 1);
      assert branch == branch[..k - 1] + [branch[k - 1]];
    }
  }

  /** Without collisions only the true leaf, with its true branch, folds to the root. */
  lemma {:induction false} BranchSound<T(!new)>(h: PairHash<T>, s: seq<T>, p: nat, leaf: T, branch: seq<T>)
    requires Injective(h) && p < |s| && |branch| == Height(|s|)
    ensures Fold(h, leaf, branch, p) == TreeRoot(h, s) <==> leaf == s[p] && branch == Path(h, s, p, Height(|s|))
  {
    hide Parents, Level, Fold, Path, Pow, Injective, Height;
    AncestorInLevel(h, s, p, Height(|s|));
    RootAtHeight(h, s);
    BranchGivesRoot(h, s, p);
    if Fold(h, leaf, branch, p) == TreeRoot(h, s) {
      FoldDetermines(h, s, p, Height(|s|), leaf, branch);
    }
  }

  // ----- The mutation flag -----

  lemma {:induction false} AllButLastComplete<T>(h: PairHash<T>, s: seq<T>, k: nat)
    ensures Shr(|s|, k) <= |Level(h, s, k)| <= Shr(|s|, k) + 1
  {
    hide Parents;
    if k > 0 { AllButLastComplete(h, s, k - 1); }
  }

  /** A complete subtree that equals the incomplete last one hides an equal pair further down. */
  lemma {:induction false} EqualToIncomplete<T(!new)>(h: PairHash<T>, s: seq<T>, k: nat, j: nat)
    requires Injective(h) && j + 1 < |Level(h, s, k)| && Shr(|s|, k) + 1 == |Level(h, s, k)|
    requires Level(h, s, k)[j] == Level(h, s, k)[|Level(h, s, k)| - 1]
    ensures EqualPair(h, s, |s|)
  {
    hide Parents, Combine;
    if k > 0 {
      var below := Level(h, s, k - 1);
      var last := |Level(h, s, k)| - 1;
      AllButLastComplete(h, s, k - 1);
      ParentIs(h, below, j);
      ParentIs(h, below, last);
      if |below| % 2 == 1 {
        assert EqualPairAt(h, s, |s|, k - 1, j);
      } else {
        EqualToIncomplete(h, s, k - 1, 2 * j + 1);
      }
    }
  }

  /** The flag, which never compares during the sweep, still means: two present siblings are equal. */
  lemma {:induction false} MutatedMeansEqualSiblings<T(!new)>(h: PairHash<T>, s: seq<T>)
    requires Injective(h)
    ensures EqualPair(h, s, |s|) <==> EqualSiblings(h, s)
  {
    hide Parents, Combine, Level, Injective;
    if EqualPair(h, s, |s|) {
      var k: nat, i: nat :| EqualPairAt(h, s, |s|, k, i);
      assert SamePair(Level(h, s, k), i);
    }
    if EqualSiblings(h, s) {
      var k: nat, i: nat :| SamePair(Level(h, s, k), i);
      AllButLastComplete(h, s, k);
      if 2 * i + 1 < Shr(|s|, k) {
        assert EqualPairAt(h, s, |s|, k, i);
      } else {
        EqualToIncomplete(h, s, k, 2 * i);
      }
    }
  }

  // ----- Equal roots -----

  lemma {:induction false} LeftSpine<T(!new)>(h: PairHash<T>, s: seq<T>, t: seq<T>)
    requires Injective(h) && |s| > 0 && |t| > 0 && TreeRoot(h, s) == TreeRoot(h, t)
    requires Height(|s|) <= Height(|t|)
    ensures |Level(h, t, Height(|t|) - Height(|s|))| > 0
    ensures s[0] == Level(h, t, Height(|t|) - Height(|s|))[0]
    decreases |s|
  {
    hide Parents, Combine;
    if |s| == 1 {
      RootAtHeight(h, t);
    } else {
      LeftSpine(h, Parents(h, s), Parents(h, t));
      var d := Height(|t|) - Height(|s|);
      LevelOfParents(h, t, d);
      ParentIs(h, s, 0);
      ParentIs(h, Level(h, t, d), 0);
    }
  }

  lemma {:induction false} SiblingsOfParents<T>(h: PairHash<T>, s: seq<T>)
    ensures EqualSiblings(h, Parents(h, s)) ==> EqualSiblings(h, s)
  {
    hide Parents, Level;
    if EqualSiblings(h, Parents(h, s)) {
      var k: nat, i: nat :| SamePair(Level(h, Parents(h, s), k), i);
      LevelOfParents(h, s, k);
      assert SamePair(Level(h, s, k + 1), i);
    }
  }

  /** Equal parents of levels of different width: the wider one ends in an equal pair. */
  lemma {:induction false} UnevenTail<T(!new)>(h: PairHash<T>, s: seq<T>, t: seq<T>)
    requires Injective(h) && Parents(h, s) == Parents(h, t) && |s| != |t|
    ensures |Parents(h, s)| > 0
    ensures SamePair(s, |Parents(h, s)| - 1) || SamePair(t, |Parents(h, s)| - 1)
  {
    hide Parents, Combine;
    ParentIs(h, s, |Parents(h, s)| - 1);
    ParentIs(h, t, |Parents(h, s)| - 1);
  }

  /** One level is determined by the next when neither has equal siblings. */
  lemma {:induction false} ParentsDetermine<T(!new)>(h: PairHash<T>, s: seq<T>, t: seq<T>)
    requires Injective(h) && Parents(h, s) == Parents(h, t)
    requires (forall i: nat :: !SamePair(s, i)) && (forall i: nat :: !SamePair(t, i))
    ensures s == t
  {
    hide Parents, Combine;
    if |s| != |t| { UnevenTail(h, s, t); }
    forall i | 0 <= i < |s|
      ensures s[i] == t[i]
    {
      ParentIs(h, s, i / 2);
      ParentIs(h, t, i / 2);
    }
  }

  lemma {:induction false} SameHeightSameList<T(!new)>(h: PairHash<T>, s: seq<T>, t: seq<T>)
    requires Injective(h) && |s| > 0 && |t| > 0 && TreeRoot(h, s) == TreeRoot(h, t)
    requires Height(|s|) == Height(|t|)
    requires !EqualSiblings(h, s) && !EqualSiblings(h, t)
    ensures s == t
    decreases |s|
  {
    hide Parents, Combine, EqualSiblings;
    if |s| > 1 {
      SiblingsOfParents(h, s);
      SiblingsOfParents(h, t);
      SameHeightSameList(h, Parents(h, s), Parents(h, t));
      NoPairOfLeaves(h, s);
      NoPairOfLeaves(h, t);
      ParentsDetermine(h, s, t);
    }
  }

  lemma {:induction false} NoPairOfLeaves<T>(h: PairHash<T>, s: seq<T>)
    requires !EqualSiblings(h, s)
    ensures forall i: nat :: !SamePair(s, i)
  {
    forall i: nat
      ensures !SamePair(s, i)
    {
      assert s == Level(h, s, 0);
    }
  }

  /** Two non-empty lists of transaction ids with the same root and clear flags are the same list. */
  lemma {:induction false} SameRootSameList<T(!new)>(h: PairHash<T>, s: seq<T>, t: seq<T>)
    requires Injective(h) && |s| > 0 && |t| > 0 && Atoms(h, s) && Atoms(h, t)
    requires !EqualPair(h, s, |s|) && !EqualPair(h, t, |t|)
    requires TreeRoot(h, s) == TreeRoot(h, t)
    ensures s == t
  {
    MutatedMeansEqualSiblings(h, s);
    MutatedMeansEqualSiblings(h, t);
    SameHeight(h, s, t);
    SameHeight(h, t, s);
    SameHeightSameList(h, s, t);
  }

  lemma {:induction false} SameHeight<T(!new)>(h: PairHash<T>, s: seq<T>, t: seq<T>)
    requires Injective(h) && |s| > 0 && |t| > 0 && Atoms(h, s) && TreeRoot(h, s) == TreeRoot(h, t)
    ensures Height(|s|) >= Height(|t|)
  {
    hide Parents, Combine, TreeRoot, Injective;
    if Height(|s|) < Height(|t|) {
      LeftSpine(h, s, t);
      var below := Level(h, t, Height(|t|) - Height(|s|) - 1);
      ParentIs(h, below, 0);
    }
  }

  // ----- When the root alone identifies the list -----

  lemma {:induction false} PairOfParents<T>(h: PairHash<T>, s: seq<T>)
    requires |s| % 2 == 0 && EqualPair(h, Parents(h, s), |s| / 2)
    ensures EqualPair(h, s, |s|)
  {
    hide Parents, Level;
    var k: nat, i: nat :| EqualPairAt(h, Parents(h, s), |s| / 2, k, i);
    LevelOfParents(h, s, k);
    ShrOfHalf(|s|, k);
    assert EqualPairAt(h, s, |s|, k + 1, i);
  }

  function Repeated<T>(s: seq<T>, tail: nat): seq<T>
    requires tail <= |s|
  {
    s + s[|s| - tail..]
  }

  lemma RepeatedAt<T>(s: seq<T>, tail: nat, i: nat)
    requires tail <= |s| && i < |s| + tail
    ensures Repeated(s, tail)[i] == if i < |s| then s[i] else s[i - tail]
  {
  }

  lemma {:induction false} ParentsOfRepeated<T>(h: PairHash<T>, s: seq<T>, tail: nat)
    requires 0 < 2 * tail <= |s| && |s| % 2 == 0
    ensures Parents(h, Repeated(s, 2 * tail)) == Repeated(Parents(h, s), tail)
  {
    var t, p := Repeated(s, 2 * tail), Parents(h, s);
    hide Combine, Parents, Repeated;
    forall i: nat | i < |p| + tail
      ensures Parents(h, t)[i] == Repeated(p, tail)[i]
    {
      var j := if i < |p| then i else i - tail;
      ParentAt(h, t, i);
      ParentAt(h, s, j);
      RepeatedAt(p, tail, i);
      RepeatedAt(s, 2 * tail, 2 * i);
      RepeatedAt(s, 2 * tail, 2 * i + 1);
    }
  }

  lemma OddTimesPower(w: nat, k: nat)
    requires k > 0
    ensures w * Pow(2, k) == 2 * (w * Pow(2, k - 1)) && Pow(2, k) == 2 * Pow(2, k - 1) && Pow(2, k - 1) > 0
  {
  }

  ghost predicate RepeatsUnseen<T>(h: PairHash<T>, s: seq<T>, tail: nat)
    requires 0 < tail < |s|
  {
    var t := Repeated(s, tail); TreeRoot(h, t) == TreeRoot(h, s) && EqualPair(h, t, |t|)
  }

  lemma {:induction false} RepeatedParents<T>(h: PairHash<T>, s: seq<T>, tail: nat)
    requires 0 < 2 * tail < |s| && |s| % 2 == 0 && RepeatsUnseen(h, Parents(h, s), tail)
    ensures RepeatsUnseen(h, s, 2 * tail)
  {
    hide Parents, TreeRoot, EqualPair;
    var t, n := Repeated(s, 2 * tail), |s| / 2;
    assert |s| == 2 * n && |t| == 2 * (n + tail);
    Euclid(|t|, 2, n + tail, 0);
    ParentsOfRepeated(h, s, tail);
    RootOfParents(h, s);
    RootOfParents(h, t);
    PairOfParents(h, t);
  }

  /** The weakness the flag guards against: a list of w * 2^k leaves, w odd and above one, has the same root as
      the list that repeats its last 2^k leaves, and the flag is set for the longer one. */
  lemma {:induction false} RepeatedTailSameRoot<T>(h: PairHash<T>, s: seq<T>, w: nat, k: nat)
    requires w > 1 && w % 2 == 1 && |s| == w * Pow(2, k)
    ensures Pow(2, k) < |s|
    ensures var t := Repeated(s, Pow(2, k)); TreeRoot(h, t) == TreeRoot(h, s) && EqualPair(h, t, |t|)
    decreases k
  {
    hide Parents, Pow, TreeRoot, EqualPair;
    if k == 0 {
      PowStart();
      RepeatedLeaf(h, s);
    } else {
      OddTimesPower(w, k);
      MulLe(2, w, Pow(2, k - 1));
      RepeatedTailSameRoot(h, Parents(h, s), w, k - 1);
      RepeatedParents(h, s, Pow(2, k - 1));
    }
  }

  lemma PowStart()
    ensures Pow(2, 0) == 1
  {
  }

  lemma RootOfParents<T>(h: PairHash<T>, s: seq<T>)
    requires |s| > 1
    ensures TreeRoot(h, s) == TreeRoot(h, Parents(h, s))
  {
  }

  lemma {:induction false} RepeatedLeaf<T>(h: PairHash<T>, s: seq<T>)
    requires |s| > 1 && |s| % 2 == 1
    ensures var t := Repeated(s, 1); TreeRoot(h, t) == TreeRoot(h, s) && EqualPair(h, t, |t|)
  {
    var t := Repeated(s, 1);
    assert Parents(h, t) == Parents(h, s);
    hide Parents;
    assert Level(h, t, 0) == t;
    assert EqualPairAt(h, t, |t|, 0, |s| / 2);
  }

  /** Full trees: a list of 2^k leaves without equal siblings shares its root with no other list of that height. */
  lemma {:induction false} FullTreeIsUnique<T(!new)>(h: PairHash<T>, s: seq<T>, t: seq<T>)
    requires Injective(h) && |t| > 0 && |s| == Pow(2, Height(|s|)) && Height(|s|) == Height(|t|)
    requires !EqualSiblings(h, s) && TreeRoot(h, s) == TreeRoot(h, t)
    ensures s == t
    decreases |s|
  {
    hide Parents, Combine, EqualSiblings, Injective, Pow;
    if |s| > 1 {
      OddTimesPower(1, Height(|s|));
      SiblingsOfParents(h, s);
      FullTreeIsUnique(h, Parents(h, s), Parents(h, t));
      NoPairOfLeaves(h, s);
      FullLevel(h, s, t);
    } else {
      PowStart();
    }
  }

  /** An even level without equal siblings is determined by its parents. */
  lemma {:induction false} FullLevel<T(!new)>(h: PairHash<T>, s: seq<T>, t: seq<T>)
    requires Injective(h) && Parents(h, s) == Parents(h, t) && |s| % 2 == 0 && |t| > 0
    requires forall i: nat :: !SamePair(s, i)
    ensures s == t
  {
    hide Parents, Combine;
    var last := |Parents(h, s)| - 1;
    ParentIs(h, s, last);
    ParentIs(h, t, last);
    assert !SamePair(s, last);
    forall i | 0 <= i < |s|
      ensures i < |t| && s[i] == t[i]
    {
      ParentIs(h, s, i / 2);
      ParentIs(h, t, i / 2);
    }
  }

  lemma {:induction false} OddPart(n: nat) returns (w: nat, k: nat)
    requires n > 0
    ensures w % 2 == 1 && n == w * Pow(2, k)
  {
    if n % 2 == 1 {
      w, k := n, 0;
    } else {
      w, k := OddPart(n / 2);
      k := k + 1;
      OddTimesPower(w, k);
    }
  }

  lemma {:induction false} HeightOfPower(k: nat)
    ensures Height(Pow(2, k)) == k
  {
    if k > 0 { HeightOfPower(k - 1); }
  }

  ghost predicate SharesRoot<T(!new)>(h: PairHash<T>, s: seq<T>, t: seq<T>) {
    |s| > 0 && |t| > 0 && Atoms(h, t) && t != s && TreeRoot(h, t) == TreeRoot(h, s)
  }

  /** Among lists of atoms, one with a clear flag shares its root with another list
      if and only if its length is not a power of two. */
  lemma {:induction false} RootSharedIff<T(!new)>(h: PairHash<T>, s: seq<T>)
    requires Injective(h) && |s| > 0 && Atoms(h, s) && !EqualPair(h, s, |s|)
    ensures (exists t :: SharesRoot(h, s, t)) <==> |s| != Pow(2, Height(|s|))
  {
    hide Parents, Combine, TreeRoot, Injective, Pow, EqualPair, Height;
    if |s| == Pow(2, Height(|s|)) {
      MutatedMeansEqualSiblings(h, s);
      forall t | SharesRoot(h, s, t)
        ensures false
      {
        SameHeight(h, s, t);
        SameHeight(h, t, s);
        FullTreeIsUnique(h, s, t);
      }
    } else {
      var w, k := OddPart(|s|);
      HeightOfPower(k);
      RepeatedTailSameRoot(h, s, w, k);
      var t := Repeated(s, Pow(2, k));
      assert SharesRoot(h, s, t);
    }
  }

  // ----- The symbolic hash: it meets both assumptions -----

  datatype Digest = Atom(id: nat) | Pair(left: Digest, right: Digest)

  function FreeHash(): PairHash<Digest> { PairHash((a: Digest, b: Digest) => Pair(a, b)) }

  function Leaves(ids: seq<nat>): (r: seq<Digest>)
    ensures |r| == |ids|
  {
    seq(|ids|, i requires 0 <= i < |ids| => Atom(ids[i]))
  }

  lemma FreeHashIs(ids: seq<nat>)
    ensures Injective(FreeHash()) && Atoms(FreeHash(), Leaves(ids))
  {
    assert forall a, b :: Combine(FreeHash(), a, b) == Pair(a, b);
  }

  /** Two lists of atoms with the same root and clear flags are the same list. */
  lemma {:induction false} RootIdentifiesAtoms(a: seq<nat>, b: seq<nat>)
    requires |a| > 0 && |b| > 0 && TreeRoot(FreeHash(), Leaves(a)) == TreeRoot(FreeHash(), Leaves(b))
    requires !EqualPair(FreeHash(), Leaves(a), |a|) && !EqualPair(FreeHash(), Leaves(b), |b|)
    ensures a == b
  {
    hide FreeHash, TreeRoot, EqualPair;
    FreeHashIs(a);
    FreeHashIs(b);
    SameRootSameList(FreeHash(), Leaves(a), Leaves(b));
    forall i | 0 <= i < |a| ensures a[i] == b[i] { assert Leaves(a)[i] == Leaves(b)[i]; }
  }

  /** The lists of six and of eight leaves in the source's warning: same root, and only the second sets the flag. */
  lemma {:induction false} SixAndEight()
    ensures var h, six, eight := FreeHash(), Leaves([1, 2, 3, 4, 5, 6]), Leaves([1, 2, 3, 4, 5, 6, 5, 6]);
      TreeRoot(h, six) == TreeRoot(h, eight) && !EqualPair(h, six, 6) && EqualPair(h, eight, 8)
  {
    hide TreeRoot, EqualPair, FreeHash;
    var h, six, eight := FreeHash(), Leaves([1, 2, 3, 4, 5, 6]), Leaves([1, 2, 3, 4, 5, 6, 5, 6]);
    assert Pow(2, 1) == 2;
    RepeatedTailSameRoot(h, six, 3, 1);
    assert Repeated(six, 2) == eight;
    SixIsClear();
  }

  lemma {:induction false} SixIsClear()
    ensures !EqualPair(FreeHash(), Leaves([1, 2, 3, 4, 5, 6]), 6)
  {
    var h, six := FreeHash(), Leaves([1, 2, 3, 4, 5, 6]);
    forall k: nat, i: nat
      ensures !EqualPairAt(h, six, 6, k, i)
    {
      assert Shr(6, 1) == 3 && Shr(6, 2) == 1;
      if k >= 2 {
        ShrDecreases(6, 2, k);
      } else {
        assert Level(h, six, 1) == Parents(h, six);
        ParentIs(h, six, 0);
        ParentIs(h, six, 1);
      }
    }
  }

  // ----- The order of the leaves -----

  /** The atoms under a digest, in the order in which they were hashed. */
  function Fringe(d: Digest): seq<nat> {
    match d
    case Atom(id) => [id]
    case Pair(left, right) => Fringe(left) + Fringe(right)
  }

  function FringeAll(s: seq<Digest>): seq<nat> {
    if s == [] then [] else FringeAll(s[..|s| - 1]) + Fringe(s[|s| - 1])
  }

  lemma CombineIs(a: Digest, b: Digest)
    ensures Fringe(Combine(FreeHash(), a, b)) == Fringe(a) + Fringe(b)
  {
  }

  lemma {:induction false} FringeTwo(s: seq<Digest>, x: Digest, y: Digest)
    ensures FringeAll(s + [x]) == FringeAll(s) + Fringe(x)
    ensures FringeAll(s + [x, y]) == FringeAll(s) + (Fringe(x) + Fringe(y))
  {
    hide Fringe;
    assert (s + [x])[..|s|] == s;
    assert (s + [x, y])[..|s| + 1] == s + [x];
  }

  lemma ParentsStep(h: PairHash<Digest>, s: seq<Digest>)
    requires |s| >= 2 && |s| % 2 == 0
    ensures Parents(h, s) == Parents(h, s[..|s| - 2]) + [Combine(h, s[|s| - 2], s[|s| - 1])]
  {
    hide Combine;
  }

  /** One level up, the atoms stay in order. */
  lemma {:induction false} EvenFringe(s: seq<Digest>)
    requires |s| % 2 == 0
    ensures FringeAll(Parents(FreeHash(), s)) == FringeAll(s)
  {
    hide Parents, Fringe, Combine;
    if s == [] {
      NoParents();
    } else {
      var t, x, y := s[..|s| - 2], s[|s| - 2], s[|s| - 1];
      EvenFringe(t);
      ParentsStep(FreeHash(), s);
      CombineIs(x, y);
      assert s == t + [x, y];
      FringeTwo(t, x, y);
      FringeTwo(Parents(FreeHash(), t), Combine(FreeHash(), x, y), x);
    }
  }

  lemma NoParents()
    ensures Parents(FreeHash(), []) == []
  {
  }

  /** The last node of an odd level comes once more at the end. */
  lemma {:induction false} ParentsFringe(s: seq<Digest>)
    requires |s| > 0
    ensures FringeAll(Parents(FreeHash(), s)) == FringeAll(s) + if |s| % 2 == 0 then [] else Fringe(s[|s| - 1])
  {
    hide Parents, Fringe;
    if |s| % 2 == 0 {
      EvenFringe(s);
    } else {
      var x := s[|s| - 1];
      var t := s + [x];
      SameParents(FreeHash(), s);
      EvenFringe(t);
      FringeTwo(s, x, x);
    }
  }

  lemma SameParents(h: PairHash<Digest>, s: seq<Digest>)
    requires |s| % 2 == 1
    ensures Parents(h, s) == Parents(h, s + [s[|s| - 1]])
  {
    hide Combine;
  }

  lemma {:induction false} RootFringe(s: seq<Digest>)
    requires |s| > 0
    ensures FringeAll(s) <= Fringe(TreeRoot(FreeHash(), s))
    decreases |s|
  {
    hide Parents, Fringe, FreeHash;
    if |s| == 1 {
      assert s == [] + [s[0]];
      FringeTwo([], s[0], s[0]);
    } else {
      ParentsFringe(s);
      RootFringe(Parents(FreeHash(), s));
    }
  }

  lemma {:induction false} LeavesFringe(ids: seq<nat>)
    ensures FringeAll(Leaves(ids)) == ids
  {
    if ids != [] {
      var t := ids[..|ids| - 1];
      LeavesFringe(t);
      assert Leaves(ids)[..|ids| - 1] == Leaves(t);
      assert ids == t + [ids[|ids| - 1]];
    }
  }

  /** The root hashes the leaves from left to right: its atoms start with the whole list. */
  lemma {:induction false} RootInOrder(ids: seq<nat>)
    requires |ids| > 0
    ensures ids <= Fringe(TreeRoot(FreeHash(), Leaves(ids)))
  {
    hide TreeRoot, Fringe, FreeHash;
    RootFringe(Leaves(ids));
    LeavesFringe(ids);
  }

  /** What a fold puts before the leaf, from the top level down, and after it, from the bottom up. */
  function Before(branch: seq<Digest>, index: nat): seq<nat> {
    if branch == [] then [] else
      var last := |branch| - 1;
      (if Bit(index, last) then Fringe(branch[last]) else []) + Before(branch[..last], index)
  }

  function After(branch: seq<Digest>, index: nat): seq<nat> {
    if branch == [] then [] else
      var last := |branch| - 1;
      After(branch[..last], index) + if Bit(index, last) then [] else Fringe(branch[last])
  }

  /** A branch entry is hashed on the left of what it is folded with exactly where the index has a set bit. */
  lemma {:induction false} FoldInOrder(leaf: Digest, branch: seq<Digest>, index: nat)
    ensures Fringe(Fold(FreeHash(), leaf, branch, index)) == Before(branch, index) + Fringe(leaf) + After(branch, index)
  {
    hide Fringe, Combine, Bit, Fold, FreeHash;
    FoldStep(FreeHash(), leaf, branch, index);
    if branch != [] {
      var last := |branch| - 1;
      var below := Fold(FreeHash(), leaf, branch[..last], index);
      FoldInOrder(leaf, branch[..last], index);
      CombineIs(below, branch[last]);
      CombineIs(branch[last], below);
      Regroup(Fringe(branch[last]), Before(branch[..last], index), Fringe(leaf), After(branch[..last], index));
    } else {
      assert [] + Fringe(leaf) + [] == Fringe(leaf);
    }
  }

  lemma Regroup(x: seq<nat>, b: seq<nat>, f: seq<nat>, a: seq<nat>)
    ensures x + (b + f + a) == (x + b) + f + (a + []) && (b + f + a) + x == ([] + b) + f + (a + x)
  {
  }

  lemma FoldStep(h: PairHash<Digest>, leaf: Digest, branch: seq<Digest>, index: nat)
    ensures branch == [] ==> Fold(h, leaf, branch, index) == leaf
    ensures branch != [] ==>
      var last := |branch| - 1; var below := Fold(h, leaf, branch[..last], index);
      Fold(h, leaf, branch, index) == if Bit(index, last) then Combine(h, branch[last], below) else Combine(h, below, branch[last])
  {
  }
}
