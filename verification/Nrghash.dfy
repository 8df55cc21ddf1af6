/** nrghash proof of work: nrghash/nrghash.cpp. Keccak is any pair of functions; words are 32 bits. */
module Nrghash {
  import opened NrghashConstants
  import opened Powers

  const WORD_RANGE: nat := 0x1_0000_0000
  type Word = x: nat | x < 0x1_0000_0000

  const NODE_WORDS: nat := 16
  const MIX_WORDS: nat := 32
  const DATASET_PARENTS: nat := 256
  const CACHE_ROUNDS: nat := 3
  const ACCESSES: nat := 64
  const FNV_PRIME: nat := 0x0100_0193

  // ----- Words -----

  function Xor(a: nat, b: nat): nat {
    if a == 0 then b else if b == 0 then a else 2 * Xor(a / 2, b / 2) + (a % 2 + b % 2) % 2
  }

  lemma {:induction false} XorBound(a: nat, b: nat, k: nat)
    requires a < Pow(2, k) && b < Pow(2, k)
    ensures Xor(a, b) < Pow(2, k)
  {
    if a > 0 && b > 0 { XorBound(a / 2, b / 2, k - 1); }
  }

  /** Xor works bit by bit. */
  lemma {:induction false} XorBit(a: nat, b: nat, k: nat)
    ensures Bit(Xor(a, b), k) <==> Bit(a, k) != Bit(b, k)
    decreases k
  {
    hide Bit;
    BitOfHalf(a, k);
    BitOfHalf(b, k);
    BitOfHalf(Xor(a, b), k);
    XorHalf(a, b);
    if k > 0 { XorBit(a / 2, b / 2, k - 1); }
  }

  lemma XorHalf(a: nat, b: nat)
    ensures Xor(a, b) / 2 == Xor(a / 2, b / 2) && Xor(a, b) % 2 == (a % 2 + b % 2) % 2
  {
  }

  function Xor32(a: Word, b: Word): Word {
    PowerOf32();
    XorBound(a, b, 32);
    Xor(a, b)
  }

  /** v1 * FNV_PRIME ^ v2 in 32 bits. */
  function Fnv(v1: Word, v2: Word): Word {
    Xor32((v1 * FNV_PRIME) % WORD_RANGE, v2)
  }

  /** fnv, bit by bit: the first word times the FNV prime, cut to 32 bits, xored with the second. */
  lemma {:induction false} FnvBit(a: Word, b: Word, k: nat)
    ensures Bit(Fnv(a, b), k) <==> Bit((a * 0x0100_0193) % 0x1_0000_0000, k) != Bit(b, k)
  {
    hide Bit, Xor;
    XorBit((a * FNV_PRIME) % WORD_RANGE, b, k);
  }

  lemma FnvEnds(v: Word)
    ensures Fnv(v, 0) == (v * 0x0100_0193) % 0x1_0000_0000 && Fnv(0, v) == v
  {
  }

  /** Wordwise fnv of a sequence with another at least as long. */
  function FnvAll(a: seq<Word>, b: seq<Word>): (r: seq<Word>)
    requires |a| <= |b|
    ensures |r| == |a|
  {
    seq(|a|, i requires 0 <= i < |a| => Fnv(a[i], b[i]))
  }

  // ----- Keccak -----

  datatype Keccak = Keccak(h512: seq<Word> -> seq<Word>, h256: seq<Word> -> seq<Word>)

  function Fit(w: seq<Word>, n: nat): (r: seq<Word>)
    ensures |r| == n
  {
    if |w| >= n then w[..n] else w + seq(n - |w|, _ => 0)
  }

  function Sha512(k: Keccak, input: seq<Word>): (r: seq<Word>)
    ensures |r| == NODE_WORDS
  {
    Fit((k.h512)(input), NODE_WORDS)
  }

  function Sha256(k: Keccak, input: seq<Word>): (r: seq<Word>)
    ensures |r| == 8
  {
    Fit((k.h256)(input), 8)
  }

  /** A Keccak of the right width is used as it is. */
  lemma KeccakIs(k: Keccak, input: seq<Word>)
    ensures |(k.h512)(input)| == 16 ==> Sha512(k, input) == (k.h512)(input)
    ensures |(k.h256)(input)| == 8 ==> Sha256(k, input) == (k.h256)(input)
  {
  }

  // ----- Dataset items -----

  predicate Nodes(c: seq<seq<Word>>) {
    forall i :: 0 <= i < |c| ==> |c[i]| == NODE_WORDS
  }

  function Parent(cache: seq<seq<Word>>, i: Word, j: nat, mix: seq<Word>): (r: seq<Word>)
    requires |cache| > 0 && Nodes(cache) && |mix| == NODE_WORDS && j < DATASET_PARENTS
    ensures |r| == NODE_WORDS
  {
    FnvAll(mix, cache[Fnv(Xor32(i, j), mix[j % NODE_WORDS]) % |cache|])
  }

  /** The mix of item i after j parents. */
  function ItemMix(k: Keccak, cache: seq<seq<Word>>, i: Word, j: nat): (r: seq<Word>)
    requires |cache| > 0 && Nodes(cache) && j <= DATASET_PARENTS
    ensures |r| == NODE_WORDS
  {
    if j == 0 then
      var first := cache[i % |cache|];
      Sha512(k, first[0 := Xor32(first[0], i)])
    else Parent(cache, i, j - 1, ItemMix(k, cache, i, j - 1))
  }

  function Item(k: Keccak, cache: seq<seq<Word>>, i: Word): (r: seq<Word>)
    requires |cache| > 0 && Nodes(cache)
    ensures |r| == NODE_WORDS
  {
    Sha512(k, ItemMix(k, cache, i, DATASET_PARENTS))
  }

  /** calc_dataset_item, mixing in place. */
  method CalcDatasetItem(k: Keccak, cache: seq<seq<Word>>, i: Word) returns (r: seq<Word>)
    requires |cache| > 0 && Nodes(cache)
    ensures r == Item(k, cache, i)
  {
    hide Fnv, Xor32, Sha512;
    var n := |cache|;
    var mix := cache[i % n];
    mix := mix[0 := Xor32(mix[0], i)];
    mix := Sha512(k, mix);
    for j := 0 to DATASET_PARENTS
      invariant mix == ItemMix(k, cache, i, j)
    {
      var parent := cache[Fnv(Xor32(i, j), mix[j % NODE_WORDS]) % n];
      ghost var before := mix;
      for w := 0 to NODE_WORDS
        invariant |mix| == NODE_WORDS
        invariant forall v :: 0 <= v < w ==> mix[v] == Fnv(before[v], parent[v])
        invariant forall v :: w <= v < NODE_WORDS ==> mix[v] == before[v]
      {
        mix := mix[w := Fnv(mix[w], parent[w])];
      }
      assert mix == FnvAll(before, parent);
    }
    r := Sha512(k, mix);
  }

  /** dag_t::impl_t::generate: the table of the first n items, n the node count cut to 32 bits. */
  method Generate(k: Keccak, cache: seq<seq<Word>>, size: nat) returns (data: seq<seq<Word>>)
    requires |cache| > 0 && Nodes(cache)
    ensures IsTable(k, cache, size, data)
  {
    hide Item;
    var n := (size / HASH_BYTES) % WORD_RANGE;
    data := [];
    for i := 0 to n
      invariant |data| == i && forall l :: 0 <= l < i ==> data[l] == Item(k, cache, l)
    {
      var item := CalcDatasetItem(k, cache, i);
      data := data + [item];
    }
  }

  ghost predicate IsTable(k: Keccak, cache: seq<seq<Word>>, size: nat, data: seq<seq<Word>>)
    requires |cache| > 0 && Nodes(cache)
  {
    && |data| == (size / HASH_BYTES) % WORD_RANGE
    && forall i :: 0 <= i < |data| ==> data[i] == Item(k, cache, i)
  }

  // ----- hashimoto -----

  /** Where hashimoto looks nodes up: a generated DAG, the cache, or 128-byte pages in GPU memory. */
  datatype Source =
    | Full(data: seq<seq<Word>>)
    | Light(k: Keccak, cache: seq<seq<Word>>)
    | Gpu(dag: seq<seq<Word>>)

  /** Every node that some page below the count asks for is there. */
  predicate Serves(src: Source, pages: nat) {
    match src
    case Full(data) => Nodes(data) && forall p, j :: 0 <= p < pages && 0 <= j < 2 ==> NodeIndex(p, j) < |data|
    case Light(_, cache) => |cache| > 0 && Nodes(cache)
    case Gpu(dag) => |dag| == pages && forall p :: 0 <= p < pages ==> |dag[p]| == MIX_WORDS
  }

  /** p * MIXNODES + j in 32 bits. */
  function NodeIndex(p: nat, j: nat): Word {
    (p * 2 + j) % WORD_RANGE
  }

  function Page(src: Source, pages: nat, p: nat): (r: seq<Word>)
    requires Serves(src, pages) && p < pages
    ensures |r| == MIX_WORDS
  {
    match src
    case Full(data) => data[NodeIndex(p, 0)] + data[NodeIndex(p, 1)]
    case Light(k, cache) => Item(k, cache, NodeIndex(p, 0)) + Item(k, cache, NodeIndex(p, 1))
    case Gpu(dag) => dag[p]
  }

  /** The page read at access i. */
  function PageIndex(pages: nat, s0: Word, i: nat, mix: seq<Word>): (p: nat)
    requires pages > 0 && i < ACCESSES && |mix| == MIX_WORDS
    ensures p < pages
  {
    Fnv(Xor32(i, s0), mix[i % MIX_WORDS]) % pages
  }

  /** The 128-byte mix after i accesses, from the 64-byte seed s. */
  function MixAt(src: Source, pages: nat, s: seq<Word>, i: nat): (mix: seq<Word>)
    requires pages > 0 && Serves(src, pages) && |s| == NODE_WORDS && i <= ACCESSES
    ensures |mix| == MIX_WORDS
  {
    if i == 0 then s + s else
      var mix := MixAt(src, pages, s, i - 1);
      FnvAll(mix, Page(src, pages, PageIndex(pages, s[0], i - 1, mix)))
  }

  function Reduce(mix: seq<Word>, i: nat): Word
    requires 4 * i + 3 < |mix|
  {
    Fnv(Fnv(Fnv(mix[4 * i], mix[4 * i + 1]), mix[4 * i + 2]), mix[4 * i + 3])
  }

  function Compress(mix: seq<Word>): (r: seq<Word>)
    requires |mix| == MIX_WORDS
    ensures |r| == 8
  {
    seq(8, i requires 0 <= i < 8 => Reduce(mix, i))
  }

  datatype Result = Result(value: seq<Word>, mixhash: seq<Word>)

  /** The proof-of-work function: one simple definition that every form must agree with. */
  function Hashimoto(k: Keccak, input: seq<Word>, pages: nat, src: Source): Result
    requires pages > 0 && Serves(src, pages)
  {
    var s := Sha512(k, input);
    var cmix := Compress(MixAt(src, pages, s, ACCESSES));
    Result(Sha256(k, s + cmix), cmix)
  }

  /** The mediator get_dag_item of full::hash and light::hash. */
  method GetDagItem(src: Source, pages: nat, p: nat, j: nat) returns (h: seq<Word>)
    requires Serves(src, pages) && p < pages && j < 2
    ensures |h| == NODE_WORDS && h == Page(src, pages, p)[j * NODE_WORDS..(j + 1) * NODE_WORDS]
  {
    hide Item;
    match src
    case Full(data) =>
      assert NodeIndex(p, j) < |data|;
      h := data[(p * 2 + j) % WORD_RANGE];
    case Light(k, cache) => h := CalcDatasetItem(k, cache, (p * 2 + j) % WORD_RANGE);
    case Gpu(dag) => h := dag[p][j * NODE_WORDS..(j + 1) * NODE_WORDS];
  }

  /** hashimoto::hash */
  method HashimotoHash(k: Keccak, input: seq<Word>, pages: nat, src: Source) returns (r: Result)
    requires pages > 0 && Serves(src, pages)
    ensures r == Hashimoto(k, input, pages, src)
  {
    hide Fnv, Xor32, Sha512, Sha256, Serves, Page;
    var s := Sha512(k, input);
    var mix: seq<Word> := s + s;
    for i := 0 to ACCESSES
      invariant mix == MixAt(src, pages, s, i)
    {
      var p := Fnv(Xor32(i, s[0]), mix[i % MIX_WORDS]) % pages;
      ghost var before := mix;
      for j := 0 to 2
        invariant MixedUpTo(before, mix, Page(src, pages, p), j * NODE_WORDS)
      {
        var h := GetDagItem(src, pages, p, j);
        for m := 0 to NODE_WORDS
          invariant MixedUpTo(before, mix, Page(src, pages, p), j * NODE_WORDS + m)
        {
          assert h[m] == Page(src, pages, p)[j * NODE_WORDS + m];
          mix := mix[j * NODE_WORDS + m := Fnv(mix[j * NODE_WORDS + m], h[m])];
        }
      }
      assert mix == FnvAll(before, Page(src, pages, p));
    }
    var cmix: seq<Word> := [];
    for i := 0 to 8
      invariant |cmix| == i && forall l :: 0 <= l < i ==> cmix[l] == Reduce(mix, l)
    {
      cmix := cmix + [Fnv(Fnv(Fnv(mix[4 * i], mix[4 * i + 1]), mix[4 * i + 2]), mix[4 * i + 3])];
    }
    assert cmix == Compress(mix);
    r := Result(Sha256(k, s + cmix), cmix);
  }

  ghost predicate MixedUpTo(before: seq<Word>, mix: seq<Word>, page: seq<Word>, n: nat) {
    && |before| == |mix| == |page| == MIX_WORDS && n <= MIX_WORDS
    && (forall v :: 0 <= v < n ==> mix[v] == Fnv(before[v], page[v]))
    && (forall v :: n <= v < MIX_WORDS ==> mix[v] == before[v])
  }

  // ----- Full and light agree -----

  lemma {:induction false} SamePagesSameMix(a: Source, b: Source, pages: nat, s: seq<Word>, i: nat)
    requires pages > 0 && Serves(a, pages) && Serves(b, pages) && |s| == NODE_WORDS && i <= ACCESSES
    requires forall p :: 0 <= p < pages ==> Page(a, pages, p) == Page(b, pages, p)
    ensures MixAt(a, pages, s, i) == MixAt(b, pages, s, i)
  {
    hide Page, Serves, PageIndex, FnvAll;
    if i > 0 { SamePagesSameMix(a, b, pages, s, i - 1); }
  }

  /** Sources that serve the same pages give the same proof of work. */
  lemma {:induction false} SamePagesSameHash(k: Keccak, input: seq<Word>, pages: nat, a: Source, b: Source)
    requires pages > 0 && Serves(a, pages) && Serves(b, pages)
    requires forall p :: 0 <= p < pages ==> Page(a, pages, p) == Page(b, pages, p)
    ensures Hashimoto(k, input, pages, a) == Hashimoto(k, input, pages, b)
  {
    hide Page, Serves, MixAt, Sha512, Sha256;
    SamePagesSameMix(a, b, pages, Sha512(k, input), ACCESSES);
  }

  /** Page count and node count as the code computes them, from the dataset size in bytes. */
  function PageCount(size: nat): nat { (size / MIX_BYTES) % WORD_RANGE }

  lemma TableSize(size: nat)
    requires size % MIX_BYTES == 0
    ensures var pages := PageCount(size);
      (size / HASH_BYTES) % WORD_RANGE == if pages < 0x8000_0000 then 2 * pages else 2 * pages - WORD_RANGE
  {
    var q := size / MIX_BYTES;
    var k, p := q / WORD_RANGE, q % WORD_RANGE;
    assert size == (2 * q) * HASH_BYTES + 0 && q == k * WORD_RANGE + p;
    Euclid(size, HASH_BYTES, 2 * q, 0);
    if p < 0x8000_0000 {
      Euclid(2 * q, WORD_RANGE, 2 * k, 2 * p);
    } else {
      Euclid(2 * q, WORD_RANGE, 2 * k + 1, 2 * p - WORD_RANGE);
    }
  }

  /** The generated table serves every page exactly when the 32-bit page count stays below 2^31. */
  lemma {:induction false} TableServes(k: Keccak, cache: seq<seq<Word>>, size: nat, data: seq<seq<Word>>)
    requires |cache| > 0 && Nodes(cache) && IsTable(k, cache, size, data) && size % MIX_BYTES == 0
    ensures Serves(Full(data), PageCount(size)) <==> PageCount(size) < 0x8000_0000
  {
    hide Item;
    var pages := PageCount(size);
    TableSize(size);
    hide PageCount;
    if pages >= 0x8000_0000 {
      assert NodeIndex(0x7fff_ffff, 1) == WORD_RANGE - 1;
    }
  }

  /** The precomputed DAG is a table of the function it caches: full and light hashing agree. */
  lemma {:induction false} FullEqualsLight(k: Keccak, cache: seq<seq<Word>>, size: nat, data: seq<seq<Word>>, input: seq<Word>)
    requires |cache| > 0 && Nodes(cache) && IsTable(k, cache, size, data) && size % MIX_BYTES == 0
    requires 0 < PageCount(size) < 0x8000_0000
    ensures Serves(Full(data), PageCount(size))
    ensures Hashimoto(k, input, PageCount(size), Full(data)) == Hashimoto(k, input, PageCount(size), Light(k, cache))
  {
    hide Item, Hashimoto;
    TableServes(k, cache, size, data);
    SamePagesSameHash(k, input, PageCount(size), Full(data), Light(k, cache));
  }
}
