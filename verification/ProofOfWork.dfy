/** From block header to proof of work: cache generation, the memo table of caches, the active DAG
    and Miner::GetPOWHash (nrghash/nrghash.cpp, nrgcore/miner.cpp). */
module ProofOfWork {
  import opened Options
  import opened NrghashConstants
  import opened Nrghash
  import Powers
  import DagSizes
  import LargePrime

  // ----- Seed hash and cache -----

  const EPOCH0_SEED: seq<Word> :=
    [0xcfb1bce8, 0x2516608a, 0xb5597e11, 0x368cdcf2, 0x8304146e, 0x5fd2e90a, 0x7ae62b65, 0x5b81bbc9]

  function SeedHash(k: Keccak, epoch: nat): seq<Word> {
    if epoch == 0 then EPOCH0_SEED else Sha256(k, SeedHash(k, epoch - 1))
  }

  /** get_seedhash */
  method GetSeedHash(k: Keccak, block: nat) returns (s: seq<Word>)
    ensures s == SeedHash(k, block / EPOCH_LENGTH)
  {
    hide Sha256;
    s := EPOCH0_SEED;
    for i := 0 to block / EPOCH_LENGTH
      invariant s == SeedHash(k, i)
    {
      s := Sha256(k, s);
    }
  }

  /** The chain of n hashes, at least one, that fills the cache first. */
  function Chain(k: Keccak, seed: seq<Word>, n: nat): (r: seq<seq<Word>>)
    ensures |r| == (if n == 0 then 1 else n) && Nodes(r)
    decreases n
  {
    if n <= 1 then [Sha512(k, seed)] else
      var before := Chain(k, seed, n - 1);
      before + [Sha512(k, before[|before| - 1])]
  }

  function XorAll(a: seq<Word>, b: seq<Word>): (r: seq<Word>)
    requires |a| <= |b|
    ensures |r| == |a|
  {
    seq(|a|, i requires 0 <= i < |a| => Xor32(a[i], b[i]))
  }

  /** The index of the node before j, as the 32-bit sum n - 1 + j gives it. */
  function LeftOf(n: nat, j: nat): (l: nat)
    requires j < n
    ensures l < n
  {
    ((n - 1 + j) % WORD_RANGE) % n
  }

  /** It is the neighbour, cyclically, as long as the sum does not wrap. */
  lemma LeftIs(n: nat, j: nat)
    requires j < n <= 0x8000_0000
    ensures LeftOf(n, j) == if j == 0 then n - 1 else j - 1
  {
    var x := n - 1 + j;
    SmallModulus(x, WORD_RANGE);
    if j > 0 { OneTurn(j - 1, n); } else { SmallModulus(x, n); }
  }

  lemma SmallModulus(x: nat, m: nat)
    requires x < m
    ensures x % m == x
  {
  }

  lemma OneTurn(x: nat, m: nat)
    requires x < m
    ensures (m + x) % m == x
  {
    assert (m + x) / m == 1;
  }

  /** Node j is replaced by the hash of its predecessor xored with a node its first word picks. */
  function Stir(k: Keccak, data: seq<seq<Word>>, j: nat): (r: seq<seq<Word>>)
    requires j < |data| && Nodes(data)
    ensures |r| == |data| && Nodes(r)
  {
    var n := |data|;
    data[j := Sha512(k, XorAll(data[LeftOf(n, j)], data[data[j][0] % n]))]
  }

  function StirUpTo(k: Keccak, data: seq<seq<Word>>, j: nat): (r: seq<seq<Word>>)
    requires j <= |data| && Nodes(data)
    ensures |r| == |data| && Nodes(r)
    decreases j
  {
    if j == 0 then data else Stir(k, StirUpTo(k, data, j - 1), j - 1)
  }

  /** Node i as the turn of node j finds it: rewritten if it comes before j. */
  function Found(before: seq<seq<Word>>, after: seq<seq<Word>>, j: nat, i: nat): seq<Word>
    requires i < |before| == |after|
  {
    if i < j then after[i] else before[i]
  }

  /** What a round makes of node j, in terms of the nodes before and after the round. */
  ghost predicate Stirred(k: Keccak, before: seq<seq<Word>>, after: seq<seq<Word>>, j: nat)
    requires j < |before| == |after| && Nodes(before) && Nodes(after)
  {
    var n := |before|;
    after[j] == Sha512(k, XorAll(Found(before, after, j, LeftOf(n, j)), Found(before, after, j, before[j][0] % n)))
  }

  lemma {:induction false} StirUpToFrom(k: Keccak, data: seq<seq<Word>>, j: nat, i: nat)
    requires j <= |data| && Nodes(data) && i < |data|
    ensures i >= j ==> StirUpTo(k, data, j)[i] == data[i]
    decreases j
  {
    hide Sha512, XorAll, LeftOf;
    if j > 0 { StirUpToFrom(k, data, j - 1, i); }
  }

  lemma {:induction false} StirUpToKeeps(k: Keccak, data: seq<seq<Word>>, j: nat, m: nat, i: nat)
    requires i < j <= m <= |data| && Nodes(data)
    ensures StirUpTo(k, data, m)[i] == StirUpTo(k, data, j)[i]
    decreases m
  {
    hide Sha512, XorAll, LeftOf;
    if j < m { StirUpToKeeps(k, data, j, m - 1, i); }
  }

  lemma {:induction false} RoundIs(k: Keccak, data: seq<seq<Word>>, j: nat)
    requires j < |data| && Nodes(data)
    ensures Stirred(k, data, StirUpTo(k, data, |data|), j)
  {
    hide Sha512, XorAll, LeftOf;
    var n, s := |data|, StirUpTo(k, data, j);
    var l, v := LeftOf(n, j), data[j][0] % n;
    StirUpToFrom(k, data, j, j);
    StirUpToKeeps(k, data, j + 1, n, j);
    forall i | i == l || i == v
      ensures s[i] == Found(data, StirUpTo(k, data, n), j, i)
    {
      StirUpToFrom(k, data, j, i);
      if i < j { StirUpToKeeps(k, data, j, n, i); }
    }
  }

  function Rounds(k: Keccak, data: seq<seq<Word>>, r: nat): (res: seq<seq<Word>>)
    requires Nodes(data)
    ensures |res| == |data| && Nodes(res)
    decreases r
  {
    if r == 0 then data else
      var before := Rounds(k, data, r - 1);
      StirUpTo(k, before, |before|)
  }

  /** The cache of n nodes; with n cut to zero only the first hash is made and nothing is stirred. */
  function Cache(k: Keccak, seed: seq<Word>, n: nat): (r: seq<seq<Word>>)
    ensures |r| > 0 && Nodes(r)
  {
    if n == 0 then Chain(k, seed, 0) else Rounds(k, Chain(k, seed, n), CACHE_ROUNDS)
  }

  /** mkcache */
  method MkCache(k: Keccak, seed: seq<Word>, size: nat) returns (data: seq<seq<Word>>)
    ensures data == Cache(k, seed, (size / HASH_BYTES) % WORD_RANGE)
  {
    hide Sha512, Xor32, Stir;
    var n := (size / HASH_BYTES) % WORD_RANGE;
    data := [Sha512(k, seed)];
    var i := 1;
    while i < n
      invariant 1 <= i && (if n == 0 then i == 1 else i <= n) && data == Chain(k, seed, i)
    {
      data := data + [Sha512(k, data[|data| - 1])];
      i := i + 1;
    }
    if n == 0 {
      assert Chain(k, seed, 0) == [Sha512(k, seed)] == data;
      return;
    }
    ghost var chain := data;
    for round := 0 to CACHE_ROUNDS
      invariant |data| == n && data == Rounds(k, chain, round)
    {
      data := StirRound(k, data);
    }
  }

  /** One pass of mkcache over all nodes. */
  method StirRound(k: Keccak, before: seq<seq<Word>>) returns (data: seq<seq<Word>>)
    requires Nodes(before)
    ensures data == StirUpTo(k, before, |before|)
    ensures |data| == |before| && Nodes(data) && forall j :: 0 <= j < |before| ==> Stirred(k, before, data, j)
  {
    hide Sha512, Xor32, LeftOf, Stirred;
    data := before;
    var n := |data|;
    for j := 0 to n
      invariant |data| == n && data == StirUpTo(k, before, j)
    {
      var v := data[j][0] % n;
      var u := data[LeftOf(n, j)];
      ghost var u0 := u;
      for w := 0 to NODE_WORDS
        invariant |u| == NODE_WORDS
        invariant forall x :: 0 <= x < w ==> u[x] == Xor32(u0[x], data[v][x])
        invariant forall x :: w <= x < NODE_WORDS ==> u[x] == u0[x]
      {
        u := u[w := Xor32(u[w], data[v][w])];
      }
      assert u == XorAll(u0, data[v]);
      data := data[j := Sha512(k, u)];
    }
    forall j | 0 <= j < n ensures Stirred(k, before, data, j) { RoundIs(k, before, j); }
  }

  // ----- Epochs -----

  function EpochOf(block: nat): nat { block / EPOCH_LENGTH }

  /** Every block of an epoch has the same cache and the same dataset size. */
  ghost function EpochCache(k: Keccak, epoch: nat): (r: seq<seq<Word>>)
    ensures |r| > 0 && Nodes(r)
  {
    Cache(k, SeedHash(k, epoch), (DagSizes.CacheSize(epoch * EPOCH_LENGTH) / HASH_BYTES) % WORD_RANGE)
  }

  ghost function EpochPages(epoch: nat): nat {
    PageCount(DagSizes.FullSize(epoch * EPOCH_LENGTH))
  }

  lemma {:induction false} SameEpochSameSizes(block: nat)
    ensures DagSizes.CacheSize(block) == DagSizes.CacheSize(EpochOf(block) * EPOCH_LENGTH)
    ensures DagSizes.FullSize(block) == DagSizes.FullSize(EpochOf(block) * EPOCH_LENGTH)
  {
    hide DagSizes.PrimeAtMost;
    assert (EpochOf(block) * EPOCH_LENGTH) / EPOCH_LENGTH == EpochOf(block);
    DagSizes.StartsAreOdd(block);
    DagSizes.StartsAreOdd(EpochOf(block) * EPOCH_LENGTH);
  }

  lemma {:induction false} EpochCacheIs(k: Keccak, block: nat)
    ensures EpochCache(k, EpochOf(block))
      == Cache(k, SeedHash(k, block / EPOCH_LENGTH), (DagSizes.CacheSize(block) / HASH_BYTES) % WORD_RANGE)
  {
    hide Cache, SeedHash, DagSizes.CacheSize;
    SameEpochSameSizes(block);
  }

  /** The page count is never zero, even after it was cut to 32 bits: an odd prime is no multiple of 2^32. */
  lemma {:induction false} PagesPositive(epoch: nat)
    ensures EpochPages(epoch) > 0 && DagSizes.FullSize(epoch * EPOCH_LENGTH) % MIX_BYTES == 0
  {
    var block := epoch * EPOCH_LENGTH;
    DagSizes.StartsAreOdd(block);
    hide DagSizes.PrimeAtMost, DagSizes.DatasetStart, DagSizes.IsPrime;
    var q := DagSizes.PrimeAtMost(DagSizes.DatasetStart(block) / MIX_BYTES);
    DagSizes.PrimeBounds(DagSizes.DatasetStart(block) / MIX_BYTES);
    if q % WORD_RANGE == 0 { MultipleIsNotPrime(q); }
    assert (q * MIX_BYTES) / MIX_BYTES == q;
  }

  lemma MultipleIsNotPrime(q: nat)
    requires q % WORD_RANGE == 0
    ensures !DagSizes.IsPrime(q)
  {
    hide DagSizes.IsPrime;
    var h := q / WORD_RANGE;
    assert q == 2 * (0x8000_0000 * h);
    if q > 2 { DagSizes.EvenIsNotPrime(q); } else { DagSizes.PrimesFromTwo(q); }
  }

  lemma StartQuotient(epoch: nat)
    requires epoch <= 65226
    ensures DagSizes.DatasetStart(epoch * EPOCH_LENGTH) / MIX_BYTES == 0x1_0000 * (310 + epoch) - 1
  {
    assert epoch * EPOCH_LENGTH / EPOCH_LENGTH == epoch;
    var x := DagSizes.DATASET_BYTES_INIT + DagSizes.DATASET_BYTES_GROWTH * epoch;
    assert x - MIX_BYTES == MIX_BYTES * (0x1_0000 * (310 + epoch) - 1);
  }

  lemma {:induction false} PagesAre(epoch: nat)
    requires epoch <= 65226
    ensures EpochPages(epoch) == DagSizes.PrimeAtMost(0x1_0000 * (310 + epoch) - 1)
  {
    StartQuotient(epoch);
    hide DagSizes.PrimeAtMost, DagSizes.DatasetStart, DagSizes.IsPrime;
    var block := epoch * EPOCH_LENGTH;
    DagSizes.StartsAreOdd(block);
    var q := DagSizes.PrimeAtMost(0x1_0000 * (310 + epoch) - 1);
    DagSizes.PrimeBounds(0x1_0000 * (310 + epoch) - 1);
    PageCountOf(q);
  }

  lemma PageCountOf(q: nat)
    requires q < WORD_RANGE
    ensures PageCount(q * MIX_BYTES) == q
  {
    assert q * MIX_BYTES / MIX_BYTES == q;
  }

  /** As long as the page count fits 32 bits, the node count does exactly up to epoch 32458. */
  lemma {:induction false} FitsUpTo32458(epoch: nat)
    requires epoch <= 65226
    ensures EpochPages(epoch) < 0x8000_0000 <==> epoch <= 32458
  {
    hide DagSizes.PrimeAtMost, DagSizes.IsPrime, EpochPages;
    var n := 0x1_0000 * (310 + epoch) - 1;
    PagesAre(epoch);
    DagSizes.PrimeBounds(n);
    if epoch > 32458 {
      LargePrime.PrimeAbove31Bits();
      AtLeast(n, LargePrime.PRIME);
    }
  }

  lemma AtLeast(n: nat, p: nat)
    requires 2 <= p <= n && DagSizes.IsPrime(p)
    ensures DagSizes.PrimeAtMost(n) >= p
  {
    hide DagSizes.IsPrime;
  }

  /** The proof of work of an epoch, evaluated from the cache. */
  ghost function LightHash(k: Keccak, epoch: nat, input: seq<Word>): Result {
    PagesPositive(epoch);
    Hashimoto(k, input, EpochPages(epoch), Light(k, EpochCache(k, epoch)))
  }

  // ----- The miner -----

  /** The header fields that CBlockHeaderTruncatedLE copies: neither the nonce nor the mix hash. */
  datatype Truncated = Truncated(nVersion: int, hashPrevBlock: seq<nat>, hashMerkleRoot: seq<nat>, nTime: nat, nBits: nat, nHeight: nat)

  class BlockHeader {
    var fields: Truncated
    var nNonce: nat
    var hashMix: seq<Word>

    constructor (fields: Truncated, nNonce: nat)
      ensures this.fields == fields && this.nNonce == nNonce
    {
      this.fields, this.nNonce, hashMix := fields, nNonce, [];
    }
  }

  /** header_hash followed by the eight little-endian bytes of the nonce, as words. */
  function PowInput(headerHash: seq<Word>, nonce: nat): seq<Word> {
    headerHash + [nonce % WORD_RANGE, (nonce / WORD_RANGE) % WORD_RANGE]
  }

  /** The nonce follows the header hash as one 64-bit number, low word first. */
  lemma PowInputIs(headerHash: seq<Word>, nonce: nat)
    ensures var input, n := PowInput(headerHash, nonce), |headerHash|;
      && |input| == n + 2 && input[..n] == headerHash
      && var low: nat, high: nat := input[n], input[n + 1]; low + 0x1_0000_0000 * high == nonce % 0x1_0000_0000_0000_0000
  {
    var q, r := nonce / 0x1_0000_0000_0000_0000, nonce % 0x1_0000_0000_0000_0000;
    var h, l := r / WORD_RANGE, r % WORD_RANGE;
    assert nonce == (0x1_0000_0000 * q + h) * WORD_RANGE + l;
    Powers.Euclid(nonce, WORD_RANGE, 0x1_0000_0000 * q + h, l);
    Powers.Euclid(0x1_0000_0000 * q + h, WORD_RANGE, q, h);
  }

  datatype Dag = Dag(epoch: nat, size: nat, data: seq<seq<Word>>)

  /** A DAG that dag_t(block_number) generated in this process. */
  ghost predicate Generated(k: Keccak, dag: Dag) {
    && dag.size == DagSizes.FullSize(dag.epoch * EPOCH_LENGTH)
    && IsTable(k, EpochCache(k, dag.epoch), dag.size, dag.data)
  }

  /** The static state of Miner and of the cache memo table. */
  class Miner {
    const k: Keccak
    const truncatedHash: Truncated -> seq<Word>
    var active: Option<Dag>
    var caches: map<nat, seq<seq<Word>>>
    var dags: map<nat, Dag>

    constructor (k: Keccak, truncatedHash: Truncated -> seq<Word>)
      ensures Valid() && active == None && caches == map[] && dags == map[]
      ensures this.k == k && this.truncatedHash == truncatedHash
    {
      this.k, this.truncatedHash, active, caches, dags := k, truncatedHash, None, map[], map[];
    }

    /** Whatever the tables hold, it is what generation would give. */
    ghost predicate Valid()
      reads this
    {
      && (forall e :: e in caches ==> caches[e] == EpochCache(k, e))
      && (forall e :: e in dags ==> dags[e].epoch == e && Generated(k, dags[e]))
      && (active.Some? ==> Generated(k, active.value))
    }

    /** get_cache_from_cache, seen by one thread: hit, or build and insert. */
    method CacheFor(block: nat) returns (data: seq<seq<Word>>)
      requires Valid()
      modifies this`caches
      ensures Valid() && data == EpochCache(k, EpochOf(block))
      ensures caches == old(caches)[EpochOf(block) := data]
    {
      hide Cache, SeedHash, DagSizes.CacheSize, Generated, EpochCache;
      var epoch := EpochOf(block);
      if epoch in caches {
        assert caches == caches[epoch := caches[epoch]];
        return caches[epoch];
      }
      EpochCacheIs(k, block);
      var seed := GetSeedHash(k, block);
      var size := DagSizes.GetCacheSize(block);
      data := MkCache(k, seed, size);
      caches := caches[epoch := data];
    }

    /** get_dag, seen by one thread: hit, or generate and insert. */
    method DagFor(block: nat) returns (dag: Dag)
      requires Valid()
      modifies this`caches, this`dags
      ensures Valid() && dag.epoch == EpochOf(block) && Generated(k, dag)
      ensures dags == old(dags)[EpochOf(block) := dag]
    {
      hide EpochCache, DagSizes.FullSize, IsTable;
      var epoch := EpochOf(block);
      if epoch in dags {
        assert dags == dags[epoch := dags[epoch]];
        return dags[epoch];
      }
      var size := DagSizes.GetFullSize(block);
      SameEpochSameSizes(block);
      var cache := CacheFor(block);
      var data := Generate(k, cache, size);
      dag := Dag(epoch, size, data);
      dags := dags[epoch := dag];
    }

    /** ActiveDAG(next_dag): the DAG of an epoch becomes the one that full hashing uses, and the previous one, with
        its cache, leaves the memo tables. Throws, after the swap, exactly when the previous one is not in them. */
    method ActivateDag(block: nat) returns (ok: bool)
      requires Valid()
      modifies this
      ensures Valid() && active.Some? && active.value.epoch == EpochOf(block)
      ensures ok <==> old(active).None? || old(active).value.epoch in old(dags) || old(active).value.epoch == EpochOf(block)
      ensures old(active).None? || !ok ==> dags == old(dags)[EpochOf(block) := active.value]
      ensures old(active).Some? && ok ==>
        var e := old(active).value.epoch; dags == old(dags)[EpochOf(block) := active.value] - {e} && e !in caches
    {
      hide Generated, EpochCache;
      var dag := DagFor(block);
      var previous := active;
      active := Some(dag);
      if previous.None? { return true; }
      var e := previous.value.epoch;
      if e !in dags { return false; }
      dags := dags - {e};
      caches := caches - {e};
      ok := true;
    }

    /** Activating one epoch twice takes its DAG out of the table; the next activation of another epoch then throws. */
    method ActivateTwice(block: nat, other: nat) returns (ok: bool)
      requires Valid() && EpochOf(block) != EpochOf(other) && active.None?
      modifies this
      ensures Valid() && !ok && active.Some? && active.value.epoch == EpochOf(other)
    {
      ok := ActivateDag(block);
      ok := ActivateDag(block);
      ok := ActivateDag(other);
    }

    /** GetPOWHash: full hashing when the active DAG is of the header's epoch, light hashing otherwise. */
    method GetPOWHash(header: BlockHeader) returns (value: seq<Word>)
      requires Valid()
      requires active.Some? && active.value.epoch == EpochOf(header.fields.nHeight) ==>
                 EpochPages(EpochOf(header.fields.nHeight)) < 0x8000_0000
      modifies this`caches, header`hashMix
      ensures Valid()
      ensures var r := LightHash(k, EpochOf(header.fields.nHeight), PowInput(truncatedHash(header.fields), header.nNonce));
              value == r.value && header.hashMix == r.mixhash
    {
      hide EpochCache, DagSizes.FullSize, IsTable, Hashimoto, PageCount;
      var epoch := EpochOf(header.fields.nHeight);
      var input := PowInput(truncatedHash(header.fields), header.nNonce);
      PagesPositive(epoch);
      var ret;
      if active.Some? && active.value.epoch == epoch {
        var dag := active.value;
        FullEqualsLight(k, EpochCache(k, epoch), dag.size, dag.data, input);
        ret := HashimotoHash(k, input, PageCount(dag.size), Full(dag.data));
      } else {
        var cache := CacheFor(header.fields.nHeight);
        var size := DagSizes.GetFullSize(epoch * EPOCH_LENGTH);
        ret := HashimotoHash(k, input, PageCount(size), Light(k, cache));
      }
      header.hashMix := ret.mixhash;
      return ret.value;
    }
  }
}
