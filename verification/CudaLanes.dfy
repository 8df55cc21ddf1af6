/** compute_hash of libnrghash-cuda/dagger_shuffled.cuh: eight lanes run in lockstep and share one
    hash at a time. Every register is a vector over the lanes; __shfl_sync reads one lane of it. */
module CudaLanes {
  import opened Powers
  import opened Nrghash

  const LANES: nat := 8

  /** What every lane receives from __shfl_sync(value, src, 8). */
  function Shfl<T>(value: seq<T>, src: nat): (r: seq<T>)
    requires src < |value|
    ensures |r| == LANES && forall lane :: 0 <= lane < LANES ==> r[lane] == value[src]
  {
    seq(LANES, _ => value[src])
  }

  /** bfe(a, 2, 3): the lane whose turn it is at accesses a .. a + 3. */
  function Turn(a: nat): (t: nat)
    ensures t < LANES
  {
    (a / 4) % 8
  }

  /** The 128-byte mix spread over the lanes, 16 bytes each. */
  function Split(mix: seq<Word>): (r: seq<seq<Word>>)
    requires |mix| == MIX_WORDS
    ensures Quads(r)
  {
    seq(LANES, lane requires 0 <= lane < LANES => mix[4 * lane..4 * lane + 4])
  }

  predicate Quads(v: seq<seq<Word>>) {
    |v| == LANES && forall lane :: 0 <= lane < LANES ==> |v[lane]| == 4
  }

  predicate IsDag(dag: seq<seq<Word>>) {
    |dag| > 0 && forall p :: 0 <= p < |dag| ==> |dag[p]| == MIX_WORDS
  }

  /** The offsets the lanes compute for access a + b, each from its own part of the mix. */
  function OwnOffsets(size: nat, init0: seq<Word>, mix: seq<seq<Word>>, a: nat, b: nat): (r: seq<nat>)
    requires size > 0 && |init0| == LANES && Quads(mix) && b < 4 && a + b < ACCESSES
    ensures |r| == LANES && forall lane :: 0 <= lane < LANES ==> r[lane] < size
  {
    seq(LANES, lane requires 0 <= lane < LANES => Fnv(Xor32(init0[lane], a + b), mix[lane][b]) % size)
  }

  /** Each lane mixes in its 16 bytes of the page at its offset. */
  function MixPages(dag: seq<seq<Word>>, mix: seq<seq<Word>>, offset: seq<nat>): (r: seq<seq<Word>>)
    requires IsDag(dag) && Quads(mix) && |offset| == LANES && forall lane :: 0 <= lane < LANES ==> offset[lane] < |dag|
    ensures Quads(r)
  {
    seq(LANES, lane requires 0 <= lane < LANES => FnvAll(mix[lane], dag[offset[lane]][4 * lane..4 * lane + 4]))
  }

  lemma {:induction false} XorComm(a: nat, b: nat)
    ensures Xor(a, b) == Xor(b, a)
  {
    if a > 0 && b > 0 { XorComm(a / 2, b / 2); }
  }

  lemma TurnIs(a: nat, b: nat)
    requires a % 4 == 0 && b < 4
    ensures (a + b) % MIX_WORDS == 4 * Turn(a) + b
  {
    var c := a / 4;
    var d, e := c / 8, c % 8;
    assert a == 4 * c && c == 8 * d + e;
    assert a + b == d * MIX_WORDS + (4 * e + b);
    Euclid(a + b, MIX_WORDS, d, 4 * e + b);
  }

  /** Lane t computes the page index of the sequential access. */
  lemma {:induction false} OffsetIs(size: nat, s0: Word, init0: seq<Word>, mix: seq<Word>, a: nat, b: nat)
    requires size > 0 && |mix| == MIX_WORDS && init0 == seq(LANES, _ => s0)
    requires a % 4 == 0 && b < 4 && a + b < ACCESSES
    ensures OwnOffsets(size, init0, Split(mix), a, b)[Turn(a)] == PageIndex(size, s0, a + b, mix)
  {
    hide Fnv, Xor;
    var t := Turn(a);
    XorComm(a + b, s0);
    TurnIs(a, b);
    hide Turn;
    assert Split(mix)[t][b] == mix[(a + b) % MIX_WORDS];
    assert init0[t] == s0;
  }

  /** Mixing a page lane by lane is mixing it as a whole. */
  lemma {:induction false} MixPagesIs(dag: seq<seq<Word>>, mix: seq<Word>, offset: seq<nat>, p: nat)
    requires IsDag(dag) && |mix| == MIX_WORDS && p < |dag| && |offset| == LANES
    requires forall lane :: 0 <= lane < LANES ==> offset[lane] == p
    ensures MixPages(dag, Split(mix), offset) == Split(FnvAll(mix, dag[p]))
  {
    hide Fnv;
    var r := MixPages(dag, Split(mix), offset);
    var next := FnvAll(mix, dag[p]);
    forall lane | 0 <= lane < LANES
      ensures r[lane] == Split(next)[lane]
    {
      assert r[lane] == FnvAll(mix[4 * lane..4 * lane + 4], dag[p][4 * lane..4 * lane + 4]);
      assert Split(next)[lane] == next[4 * lane..4 * lane + 4];
    }
  }

  /** One access of the lanes, with the offset of lane t shuffled to all, is one access of the sequential mix. */
  lemma {:induction false} LaneAccessIs(dag: seq<seq<Word>>, s: seq<Word>, init0: seq<Word>, a: nat, b: nat)
    requires IsDag(dag) && |s| == NODE_WORDS && init0 == seq(LANES, _ => s[0])
    requires a % 4 == 0 && b < 4 && a + b < ACCESSES
    ensures var mix := Split(MixAt(Gpu(dag), |dag|, s, a + b));
            MixPages(dag, mix, Shfl(OwnOffsets(|dag|, init0, mix, a, b), Turn(a)))
            == Split(MixAt(Gpu(dag), |dag|, s, a + b + 1))
  {
    hide OwnOffsets, MixPages, PageIndex, Split, FnvAll;
    var mix := MixAt(Gpu(dag), |dag|, s, a + b);
    OffsetIs(|dag|, s[0], init0, mix, a, b);
    MixPagesIs(dag, mix, Shfl(OwnOffsets(|dag|, init0, Split(mix), a, b), Turn(a)), PageIndex(|dag|, s[0], a + b, mix));
  }

  /** fnv_reduce */
  function FnvReduce(v: seq<Word>): (r: Word)
    requires |v| == 4
    ensures r == Reduce(v, 0)
  {
    Fnv(Fnv(Fnv(v[0], v[1]), v[2]), v[3])
  }

  /** fnv_reduce in every lane, gathered by the eight shuffles, is the compressed mix. */
  lemma {:induction false} GatherIs(mix: seq<Word>)
    requires |mix| == MIX_WORDS
    ensures seq(LANES, lane requires 0 <= lane < LANES => Reduce(Split(mix)[lane], 0)) == Compress(mix)
  {
    hide Fnv;
    var r := seq(LANES, lane requires 0 <= lane < LANES => Reduce(Split(mix)[lane], 0));
    forall lane | 0 <= lane < LANES
      ensures r[lane] == Compress(mix)[lane]
    {
      assert Split(mix)[lane] == mix[4 * lane..4 * lane + 4];
    }
  }

  /** The registers of the lanes while hashes i .. i + parallel - 1 are shared. */
  ghost predicate Sharing(dag: seq<seq<Word>>, s: seq<seq<Word>>, i: nat, parallel: nat,
                          mix: seq<seq<seq<Word>>>, init0: seq<seq<Word>>, n: nat, done: nat)
    requires IsDag(dag) && Seeds(s)
  {
    && i + parallel <= LANES && |mix| == |init0| == parallel && n < ACCESSES && done <= parallel
    && (forall p :: 0 <= p < parallel ==> init0[p] == seq(LANES, _ => s[i + p][0]))
    && (forall p :: 0 <= p < parallel ==> mix[p] == LaneMix(dag, s[i + p], if p < done then n + 1 else n))
  }

  predicate Seeds(s: seq<seq<Word>>) {
    |s| == LANES && forall lane :: 0 <= lane < LANES ==> |s[lane]| == NODE_WORDS
  }

  /** The sequential mix of a seed after n accesses, over the lanes. */
  function LaneMix(dag: seq<seq<Word>>, s: seq<Word>, n: nat): (r: seq<seq<Word>>)
    requires IsDag(dag) && |s| == NODE_WORDS && n <= ACCESSES
    ensures Quads(r)
  {
    Split(MixAt(Gpu(dag), |dag|, s, n))
  }

  /** Sharing of seed i + p: lane l starts from quarter l & 3 of the seed. */
  function ShareSeed(state: seq<seq<Word>>, src: nat): (r: seq<seq<Word>>)
    requires |state| == LANES && src < LANES && |state[src]| >= NODE_WORDS
    ensures Quads(r)
  {
    var shuffle := Shfl(state, src);
    seq(LANES, lane requires 0 <= lane < LANES => shuffle[lane][4 * (lane % 4)..4 * (lane % 4) + 4])
  }

  lemma {:induction false} ShareSeedIs(dag: seq<seq<Word>>, state: seq<seq<Word>>, src: nat, s: seq<Word>)
    requires IsDag(dag) && |state| == LANES && src < LANES && |s| == NODE_WORDS
    requires |state[src]| >= NODE_WORDS && state[src][..NODE_WORDS] == s
    ensures ShareSeed(state, src) == LaneMix(dag, s, 0)
  {
    var r := ShareSeed(state, src);
    var mix := s + s;
    forall lane | 0 <= lane < LANES
      ensures r[lane] == LaneMix(dag, s, 0)[lane]
    {
      assert r[lane] == s[4 * (lane % 4)..4 * (lane % 4) + 4];
      assert mix[4 * lane..4 * lane + 4] == s[4 * (lane % 4)..4 * (lane % 4) + 4];
    }
  }

  /** state[8..11] of each lane that has been served. */
  ghost predicate Served(dag: seq<seq<Word>>, s: seq<seq<Word>>, state: seq<seq<Word>>, n: nat)
    requires IsDag(dag) && Seeds(s)
  {
    && |state| == LANES && n <= LANES
    && (forall lane :: 0 <= lane < LANES ==> |state[lane]| == 24 && state[lane][..NODE_WORDS] == s[lane])
    && (forall lane :: 0 <= lane < n ==> state[lane][NODE_WORDS..] == Compress(MixAt(Gpu(dag), |dag|, s[lane], ACCESSES)))
  }

  lemma {:induction false} ServeStep(dag: seq<seq<Word>>, s: seq<seq<Word>>, state: seq<seq<Word>>, n: nat)
    requires IsDag(dag) && Seeds(s) && n < LANES && Served(dag, s, state, n)
    ensures Served(dag, s, state[n := state[n][..NODE_WORDS] + Compress(MixAt(Gpu(dag), |dag|, s[n], ACCESSES))], n + 1)
  {
    hide MixAt, Compress;
  }

  /** Share the seeds of one batch among the lanes. */
  method ShareInit(dag: seq<seq<Word>>, s: seq<seq<Word>>, state: seq<seq<Word>>, i: nat, parallel: nat)
    returns (mix: seq<seq<seq<Word>>>, init0: seq<seq<Word>>)
    requires IsDag(dag) && Seeds(s) && i + parallel <= LANES && Served(dag, s, state, i)
    ensures Sharing(dag, s, i, parallel, mix, init0, 0, 0)
  {
    hide LaneMix, ShareSeed;
    mix, init0 := [], [];
    for p := 0 to parallel
      invariant |mix| == |init0| == p
      invariant forall q :: 0 <= q < p ==> init0[q] == seq(LANES, _ => s[i + q][0])
      invariant forall q :: 0 <= q < p ==> mix[q] == LaneMix(dag, s[i + q], 0)
    {
      ShareSeedIs(dag, state, i + p, s[i + p]);
      assert state[i + p][0] == state[i + p][..NODE_WORDS][0];
      var shuffle := Shfl(state, i + p);
      mix := mix + [ShareSeed(state, i + p)];
      init0 := init0 + [Shfl(seq(LANES, lane requires 0 <= lane < LANES => shuffle[lane][0]), 0)];
      assert init0[p] == seq(LANES, _ => s[i + p][0]);
    }
  }

  lemma {:induction false} SharingStep(dag: seq<seq<Word>>, s: seq<seq<Word>>, i: nat, parallel: nat,
                                       mix: seq<seq<seq<Word>>>, init0: seq<seq<Word>>, a: nat, b: nat, p: nat)
    requires IsDag(dag) && Seeds(s) && p < parallel && a % 4 == 0 && b < 4 && a + b < ACCESSES
    requires Sharing(dag, s, i, parallel, mix, init0, a + b, p)
    ensures Quads(mix[p]) && |init0[p]| == LANES
    ensures var next := MixPages(dag, mix[p], Shfl(OwnOffsets(|dag|, init0[p], mix[p], a, b), Turn(a)));
            Sharing(dag, s, i, parallel, mix[p := next], init0, a + b, p + 1)
  {
    hide MixAt, Split, OwnOffsets, MixPages;
    LaneAccessIs(dag, s[i + p], init0[p], a, b);
  }

  lemma {:induction false} SharingNext(dag: seq<seq<Word>>, s: seq<seq<Word>>, i: nat, parallel: nat,
                                       mix: seq<seq<seq<Word>>>, init0: seq<seq<Word>>, n: nat)
    requires IsDag(dag) && Seeds(s) && Sharing(dag, s, i, parallel, mix, init0, n, parallel) && n + 1 < ACCESSES
    ensures Sharing(dag, s, i, parallel, mix, init0, n + 1, 0)
  {
    hide LaneMix;
  }

  /** Access a + b of every hash of one batch. */
  method SharedAccess(dag: seq<seq<Word>>, ghost s: seq<seq<Word>>, ghost i: nat, parallel: nat, a: nat, b: nat,
                      mix0: seq<seq<seq<Word>>>, init0: seq<seq<Word>>)
    returns (mix: seq<seq<seq<Word>>>)
    requires IsDag(dag) && Seeds(s) && a % 4 == 0 && b < 4 && a + b < ACCESSES
    requires Sharing(dag, s, i, parallel, mix0, init0, a + b, 0)
    ensures Sharing(dag, s, i, parallel, mix, init0, a + b, parallel)
  {
    SharingSizes(dag, s, i, parallel, mix0, init0, a + b, 0);
    hide Sharing, OwnOffsets, MixPages, Shfl, IsDag, Seeds, Quads, Turn;
    mix := mix0;
    var t := Turn(a);
    for p := 0 to parallel
      invariant |mix| == |init0| == parallel && Sharing(dag, s, i, parallel, mix, init0, a + b, p)
    {
      SharingStep(dag, s, i, parallel, mix, init0, a, b, p);
      var offset := Shfl(OwnOffsets(|dag|, init0[p], mix[p], a, b), t);
      mix := mix[p := MixPages(dag, mix[p], offset)];
    }
  }

  /** Batch state before access n, or after the last one. */
  ghost predicate Reached(dag: seq<seq<Word>>, s: seq<seq<Word>>, i: nat, parallel: nat,
                          mix: seq<seq<seq<Word>>>, init0: seq<seq<Word>>, n: nat)
    requires IsDag(dag) && Seeds(s)
  {
    if n < ACCESSES then Sharing(dag, s, i, parallel, mix, init0, n, 0)
    else n == ACCESSES && Sharing(dag, s, i, parallel, mix, init0, ACCESSES - 1, parallel)
  }

  lemma {:induction false} ReachedNext(dag: seq<seq<Word>>, s: seq<seq<Word>>, i: nat, parallel: nat,
                                       mix: seq<seq<seq<Word>>>, init0: seq<seq<Word>>, n: nat)
    requires IsDag(dag) && Seeds(s) && n < ACCESSES && Sharing(dag, s, i, parallel, mix, init0, n, parallel)
    ensures Reached(dag, s, i, parallel, mix, init0, n + 1)
  {
    hide Sharing;
    if n + 1 < ACCESSES { SharingNext(dag, s, i, parallel, mix, init0, n); }
  }

  /** The 64 accesses of one batch. */
  method SharedAccesses(dag: seq<seq<Word>>, ghost s: seq<seq<Word>>, ghost i: nat, parallel: nat,
                        mix0: seq<seq<seq<Word>>>, init0: seq<seq<Word>>)
    returns (mix: seq<seq<seq<Word>>>)
    requires IsDag(dag) && Seeds(s) && Sharing(dag, s, i, parallel, mix0, init0, 0, 0)
    ensures Sharing(dag, s, i, parallel, mix, init0, ACCESSES - 1, parallel)
  {
    hide Sharing, IsDag, Seeds;
    mix := mix0;
    var a := 0;
    while a < ACCESSES
      invariant 0 <= a <= ACCESSES && a % 4 == 0 && Reached(dag, s, i, parallel, mix, init0, a)
      decreases ACCESSES - a
    {
      for b := 0 to 4
        invariant Reached(dag, s, i, parallel, mix, init0, a + b)
      {
        mix := SharedAccess(dag, s, i, parallel, a, b, mix, init0);
        ReachedNext(dag, s, i, parallel, mix, init0, a + b);
      }
      a := a + 4;
    }
  }

  lemma SharingSizes(dag: seq<seq<Word>>, s: seq<seq<Word>>, i: nat, parallel: nat,
                     mix: seq<seq<seq<Word>>>, init0: seq<seq<Word>>, n: nat, done: nat)
    requires IsDag(dag) && Seeds(s) && Sharing(dag, s, i, parallel, mix, init0, n, done)
    ensures |mix| == |init0| == parallel
  {
  }

  lemma {:induction false} SharedMixIs(dag: seq<seq<Word>>, s: seq<seq<Word>>, i: nat, parallel: nat,
                                       mix: seq<seq<seq<Word>>>, init0: seq<seq<Word>>, p: nat)
    requires IsDag(dag) && Seeds(s) && p < parallel
    requires Sharing(dag, s, i, parallel, mix, init0, ACCESSES - 1, parallel)
    ensures Quads(mix[p])
    ensures seq(LANES, lane requires 0 <= lane < LANES => Reduce(mix[p][lane], 0))
            == Compress(MixAt(Gpu(dag), |dag|, s[i + p], ACCESSES))
  {
    hide MixAt, Compress;
    GatherIs(MixAt(Gpu(dag), |dag|, s[i + p], ACCESSES));
  }

  /** The instantiations of the kernel template. */
  predicate Parallelism(n: nat) {
    n == 1 || n == 2 || n == 4 || n == 8
  }

  predicate Aligned(i: nat, parallel: nat)
    requires parallel > 0
  {
    i % parallel == 0
  }

  lemma NextBatch(i: nat, parallel: nat)
    requires Parallelism(parallel) && i < LANES && Aligned(i, parallel)
    ensures i + parallel <= LANES && Aligned(i + parallel, parallel)
  {
  }

  lemma {:induction false} StartServing(dag: seq<seq<Word>>, s: seq<seq<Word>>, state: seq<seq<Word>>)
    requires IsDag(dag) && Seeds(s) && |state| == LANES
    requires forall lane :: 0 <= lane < LANES ==> state[lane] == s[lane] + seq(8, _ => 0)
    ensures Served(dag, s, state, 0)
  {
  }

  lemma {:induction false} AllServed(dag: seq<seq<Word>>, s: seq<seq<Word>>, state: seq<seq<Word>>, lane: nat)
    requires IsDag(dag) && Seeds(s) && Served(dag, s, state, LANES) && lane < LANES
    ensures state[lane] == s[lane] + Compress(MixAt(Gpu(dag), |dag|, s[lane], ACCESSES))
  {
    hide MixAt, Compress;
    assert state[lane] == state[lane][..NODE_WORDS] + state[lane][NODE_WORDS..];
  }

  lemma ServedSizes(dag: seq<seq<Word>>, s: seq<seq<Word>>, state: seq<seq<Word>>, n: nat)
    requires IsDag(dag) && Seeds(s) && Served(dag, s, state, n)
    ensures |state| == LANES && forall lane :: 0 <= lane < LANES ==> |state[lane]| == 24
  {
  }

  /** compute_hash, up to the final Keccak: every lane ends with the compressed mix of its own nonce. */
  method ComputeHash(parallel: nat, s: seq<seq<Word>>, dag: seq<seq<Word>>) returns (state: seq<seq<Word>>)
    requires Parallelism(parallel) && Seeds(s) && IsDag(dag)
    ensures |state| == LANES
    ensures forall lane :: 0 <= lane < LANES ==>
              state[lane] == s[lane] + Compress(MixAt(Gpu(dag), |dag|, s[lane], ACCESSES))
  {
    state := seq(LANES, lane requires 0 <= lane < LANES => s[lane] + seq(8, _ => 0));
    StartServing(dag, s, state);
    hide MixAt, Compress, Reduce, Sharing, Served, Aligned, Parallelism, IsDag, Seeds;
    var i := 0;
    while i < LANES
      invariant 0 <= i <= LANES && Aligned(i, parallel) && Served(dag, s, state, i)
    {
      NextBatch(i, parallel);
      var mix, init0 := ShareInit(dag, s, state, i, parallel);
      mix := SharedAccesses(dag, s, i, parallel, mix, init0);
      state := StoreMixes(dag, s, state, i, parallel, mix, init0);
      i := i + parallel;
    }
    ServedSizes(dag, s, state, LANES);
    forall lane | 0 <= lane < LANES
      ensures state[lane] == s[lane] + Compress(MixAt(Gpu(dag), |dag|, s[lane], ACCESSES))
    {
      AllServed(dag, s, state, lane);
    }
  }

  /** Update the mix across threads: lane i + p keeps the mix of hash i + p. */
  method StoreMixes(dag: seq<seq<Word>>, s: seq<seq<Word>>, state0: seq<seq<Word>>, i: nat, parallel: nat,
                    mix: seq<seq<seq<Word>>>, init0: seq<seq<Word>>) returns (state: seq<seq<Word>>)
    requires IsDag(dag) && Seeds(s) && i + parallel <= LANES && Served(dag, s, state0, i)
    requires Sharing(dag, s, i, parallel, mix, init0, ACCESSES - 1, parallel)
    ensures Served(dag, s, state, i + parallel)
  {
    hide MixAt, Compress, Reduce, Sharing, Served, IsDag, Seeds, Fnv;
    state := state0;
    SharingSizes(dag, s, i, parallel, mix, init0, ACCESSES - 1, parallel);
    for p := 0 to parallel
      invariant Served(dag, s, state, i + p)
    {
      SharedMixIs(dag, s, i, parallel, mix, init0, p);
      ServeStep(dag, s, state, i + p);
      ServedSizes(dag, s, state, i + p);
      var threadMix := seq(LANES, lane requires 0 <= lane < LANES => FnvReduce(mix[p][lane]));
      assert threadMix == seq(LANES, lane requires 0 <= lane < LANES => Reduce(mix[p][lane], 0));
      state := state[i + p := state[i + p][..NODE_WORDS] + threadMix];
    }
  }

  /** For any node table laid out as 128-byte pages, a lane's mix is the mix hash of sequential hashimoto. */
  lemma {:induction false} LaneMixIsMixHash(k: Keccak, input: seq<Word>, data: seq<seq<Word>>, dag: seq<seq<Word>>)
    requires IsDag(dag) && Serves(Full(data), |dag|)
    requires forall p :: 0 <= p < |dag| ==> dag[p] == Page(Full(data), |dag|, p)
    ensures Compress(MixAt(Gpu(dag), |dag|, Sha512(k, input), ACCESSES)) == Hashimoto(k, input, |dag|, Full(data)).mixhash
  {
    hide MixAt, Sha512, Sha256, Compress;
    SamePagesSameMix(Gpu(dag), Full(data), |dag|, Sha512(k, input), ACCESSES);
  }
}
