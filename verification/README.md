# Energiminer, verified model

A Dafny model of the sequential and concurrent core of the Energi miner, with proofs for every input, every run or every reachable state:

- **Merkle calculator.** A binary counter in 32 slots computes root, branch and mutation flag. It is proved equal to the tree built level by level, and the flag is proved to mean what its users rely on.
- **Proof of work.** Cache and DAG generation, full and light hashing, the eight-lane GPU form, the memo tables and the choice in `GetPOWHash` all agree with one function. Keccak is an arbitrary function of fixed output length.
- **256-bit arithmetic and compact targets.** In-place limb arithmetic against the integers, and the floating-point-like target format against the value it denotes.
- **Worker thread.** A state machine over single accesses to shared state, any number of controllers, any interleaving.
- **Codecs.** Base58, VarInt, CompactSize, transactions over a stream, scripts, script numbers and the JSON fixed-point parser. For most of them one lemma says that a byte string is read as x leaving rest if and only if it is the writing of x followed by rest.
- **SHA-256.** The unrolled compression function and the streaming class against FIPS 180-4.
- **prevector.** The small-buffer vector refines a plain sequence over every run of operations, with the exact limits of its 32-bit sizes and positions; scripts are built on it.

## Layout

| files | contents |
|---|---|
| `Powers.dfy`, `Options.dfy`, `Bytes.dfy`, `Radix.dfy`, `Limbs.dfy` | shared arithmetic and byte strings |
| `Merkle.dfy`, `MerkleTheorems.dfy` | merkle calculator; what root, branch and flag mean |
| `NrghashConstants.dfy`, `Nrghash.dfy`, `CudaLanes.dfy`, `DagSizes.dfy`, `LargePrime.dfy`, `ProofOfWork.dfy`, `MemoTable.dfy` | proof of work |
| `Arith256.dfy`, `Shifts256.dfy`, `Division256.dfy`, `Compact.dfy` | 256-bit arithmetic and compact targets |
| `Worker.dfy` | worker thread |
| `Base58.dfy`, `Serialize.dfy`, `Streams.dfy`, `VarInt.dfy`, `ScriptNum.dfy`, `Script.dfy`, `JsonNumber.dfy`, `FixedPoint.dfy` | codecs |
| `Sha256Transform.dfy`, `Sha256Stream.dfy`, `Sha256Meaning.dfy` | SHA-256; byte order, rotations and constants |
| `Prevector.dfy` | small-buffer vector |

`dafny verify dfyconfig.toml` verifies the whole project.

## What does not hold, and when it does

- The comment on the merkle slots promises 2^32 leaves. The final sweep leaves the array, and its shift the word, as soon as there are more than 2^31: `MerkleComputation` is defined if and only if there are at most 2^31.
- The root alone does not identify the list: a list of w * 2^k leaves, w odd and above one, shares its root with the list that repeats its last 2^k leaves (`RepeatedTailSameRoot`; six and eight leaves in `SixAndEight`). A list of atoms with a clear flag shares its root with another list if and only if its length is not a power of two (`RootSharedIff`); two lists with clear flags never share one (`SameRootSameList`).
- `x *= x` on the same object gives zero, because the product is cleared before it is read; with a distinct operand `*=` is the product modulo 2^256 (`MulAssign`).
- A DAG table serves every page index if and only if there are fewer than 2^31 pages, since the node index is a 32-bit word (`TableServes`). While the page count itself fits 32 bits, that is so if and only if the epoch is at most 32458 (`FitsUpTo32458`).
- Activating a DAG throws if and only if one of another epoch was active and that epoch is not in the memo table, which is the case after it was activated twice (`ActivateDag`, `ActivateTwice`).
- `shouldStop` tells a running trun to stop if and only if a `stopWorking` is waiting (`StopIsSeenKillIsNot`); a waiting destructor, which does occur (`KillCanWaitUnseen`), is not seen.
- `CDataStream::read` consumes what was asked for, or throws and consumes nothing, if and only if position plus size fits 32 bits or is beyond the data even after the cut to 32 bits. Otherwise it overruns the buffer (`WrappedRead`) or, on streams of 2^32 bytes and more, falls back (`RewoundRead`).
- `set_vch` is defined if and only if there are at most eight bytes (`SetVch`).
- A prevector refines a plain sequence if and only if every operation fits (`Run`). Positions are signed 32-bit numbers, so the end of a vector of 2^31 elements is before its block: it can still be read and extended in front, but neither pushed to nor popped (`ItemPtrOrCut`, `FirstLongVector`). Below 2^31 elements everything fits (`ShortRunFits`); above, capacities and the size field are also cut (`GrownOrCut`, `CodeOrCut`).
- A script is read by `GetOp2` if and only if it is below 2^31 bytes, and built by pushes up to the same limit (`BuildThenParse`).
- Zero is accepted by `ParseFixedPoint` if and only if the written exponent plus the decimals lies in 0 .. 17, although its value always fits (`ZeroAcceptance`).
- A VarInt read into a w-byte type gives back n if and only if n < 256^w; other values come back reduced (`ReadOfWrite`).
- The table in the description of VarInts is not what the code writes for 16511 and 65535: it writes [ff 7f] and [82 fe 7f], and the printed bytes are the writings of 32895 and 65407 (`MisprintedVarInts`). All other entries agree (`DocumentedVarInts`).

## Model

| member | source | states |
|---|---|---|
| Merkle.AddLeaf | primitives/merkle.cpp:63-88 | one turn of the outer loop: the slots again hold the complete subtrees of the leaves counted, the flag is set exactly when two equal siblings have been merged, the branch so far is the path; the counter wraps exactly at 2^32 |
| Merkle.SweepUp | primitives/merkle.cpp:90-128 | the final sweep returns the root of the tree that duplicates last nodes, completes the branch, never compares, and leaves the 32 slots or the word exactly when there are more than 2^31 leaves |
| Merkle.MerkleComputation | primitives/merkle.cpp:44-129 | for every list: root of the level-by-level tree, flag, branch; the empty list gives zero and a clear flag |
| Merkle.ComputeMerkleRoot | primitives/merkle.cpp:131-135 | the root of the tree, and the flag |
| Merkle.ComputeMerkleBranch | primitives/merkle.cpp:137-141 | the siblings of the leaf's ancestors, one per level; nothing for a position outside the list |
| Merkle.ComputeMerkleRootFromBranch | primitives/merkle.cpp:143-154 | folds the leaf with the branch, the side at each level given by the index bit |
| MerkleTheorems.BranchGivesRoot | primitives/merkle.cpp:104-154 | folding any leaf with its branch gives the root; the branch has ceil(log2 n) entries |
| MerkleTheorems.BranchSound | primitives/merkle.cpp:137-154 | with a collision-free pair hash, a leaf and a branch of the right length fold to the root at a position if and only if they are the leaf and the branch of that position |
| MerkleTheorems.MutatedMeansEqualSiblings | primitives/merkle.cpp:35-40 | with a collision-free pair hash, the flag is set if and only if two siblings that are both present on some level are equal, even though the sweep never compares |
| MerkleTheorems.EqualToIncomplete | primitives/merkle.cpp:100-125 | a complete node equal to the last, incomplete one forces an equal pair that the carry loop did compare |
| MerkleTheorems.SameRootSameList | primitives/merkle.cpp:35-40 | two non-empty lists of atoms with equal roots and clear flags are the same list |
| MerkleTheorems.RootIdentifiesAtoms | primitives/merkle.cpp:35-40 | the same for the symbolic hash, which meets both assumptions |
| MerkleTheorems.RepeatedTailSameRoot | primitives/merkle.cpp:7-28 | a list of w * 2^k leaves, w odd and above one, has the same root as the list that repeats its last 2^k leaves, and the longer one sets the flag |
| MerkleTheorems.RootSharedIff | primitives/merkle.cpp:12-40 | among lists of atoms, one with a clear flag shares its root with another list if and only if its length is not a power of two |
| MerkleTheorems.SixAndEight | primitives/merkle.cpp:18-28 | the six and the eight leaves of the warning: same root, and only the eight set the flag |
| MerkleTheorems.RootInOrder | primitives/merkle.cpp:81-122 | the root hashes the leaves from left to right: under the symbolic hash, the list is a prefix of the leaves read off the root |
| MerkleTheorems.FoldInOrder | primitives/merkle.cpp:143-154 | folding a branch puts an entry on the left exactly where the index has a set bit: what is read off the result is the left entries, the leaf and the right entries |
| Nrghash.CalcDatasetItem | nrghash/nrghash.cpp:782-802 | the in-place loop over 256 parents computes the node defined by recursion |
| Nrghash.FnvBit | nrghash/nrghash.cpp:158-164 | every bit of fnv is the xor of the bits of the second word and of the first times 0x01000193, cut to 32 bits |
| Nrghash.FnvEnds | nrghash/nrghash.cpp:158-164 | with zero on the right it is the product, with zero on the left the other word |
| Nrghash.XorBit | nrghash/nrghash.cpp:158-164 | the xor of the model works bit by bit |
| Nrghash.Generate | nrghash/nrghash.cpp:768-780 | the generated table holds, at every index, the node that light evaluation computes there |
| Nrghash.GetDagItem | nrghash/nrghash.cpp:1157-1176 | a node fetched from a table or computed is the matching half of the page |
| Nrghash.HashimotoHash | nrghash/nrghash.cpp:1145-1185 | the loops over mix and pages compute the mathematical hashimoto function of the page source |
| Nrghash.SamePagesSameMix | nrghash/nrghash.cpp:1157-1169 | two sources that agree on all pages give the same mix after any number of accesses |
| Nrghash.SamePagesSameHash | nrghash/nrghash.cpp:1145-1185 | and hence the same result |
| Nrghash.TableServes | nrghash/nrghash.cpp:768-780 | a generated table answers every page index if and only if there are fewer than 2^31 pages |
| Nrghash.FullEqualsLight | nrghash/nrghash.cpp:1187-1218 | hashing with the generated table equals hashing with the cache |
| CudaLanes.OffsetIs | libnrghash-cuda/dagger_shuffled.cuh:48-60 | the lane whose turn it is computes the page index of the sequential access |
| CudaLanes.MixPagesIs | libnrghash-cuda/fnv.cuh:6-14 | mixing a page four words per lane is mixing it as a whole |
| CudaLanes.GatherIs | libnrghash-cuda/fnv.cuh:16-19 | the reductions of the eight lanes, gathered by shuffles, are the compressed mix |
| CudaLanes.ShareInit | libnrghash-cuda/dagger_shuffled.cuh:29-46 | after sharing, every lane holds its part of the initial mix of each of the parallel hashes |
| CudaLanes.SharedAccess | libnrghash-cuda/dagger_shuffled.cuh:54-59 | one access of all parallel hashes advances each lane's part of each mix by one sequential access |
| CudaLanes.SharedAccesses | libnrghash-cuda/dagger_shuffled.cuh:48-61 | the two access loops together perform all 64 accesses in order |
| CudaLanes.StoreMixes | libnrghash-cuda/dagger_shuffled.cuh:63-85 | only the lane that owns a hash stores its mix |
| CudaLanes.ComputeHash | libnrghash-cuda/dagger_shuffled.cuh:23-86 | for parallelism 1, 2, 4 or 8, every DAG and all eight seeds: each lane ends with its seed and the compressed sequential mix of that seed |
| CudaLanes.LaneMixIsMixHash | libnrghash-cuda/dagger_shuffled.cuh:20-86 | that mix is the mix hash of full hashing over the same pages |
| DagSizes.TrialDivision | nrghash/nrghash.cpp:147-156 | true exactly for the primes and for 0 and 1 |
| DagSizes.SmallDivisorsSuffice | nrghash/nrghash.cpp:147-156 | no divisor up to the square root means prime |
| DagSizes.StartsAreOdd | nrghash/nrghash.cpp:513-517 | for every 64-bit block number, wrap-around included, both start quotients are odd and at least 3 |
| DagSizes.StartsGrow | nrghash/nrghash.cpp:513-517 | below the 64-bit wrap both starts are 310 growths and one per epoch, less one unit |
| DagSizes.SearchDown | nrghash/nrghash.cpp:809-819 | stepping down two units at a time ends at the largest prime quotient at or below the start |
| DagSizes.GetFullSize | nrghash/nrghash.cpp:809-819 | the largest multiple of the page size at or below the start with prime quotient |
| DagSizes.GetCacheSize | nrghash/nrghash.cpp:513-523 | the same for the cache and the node size |
| ProofOfWork.GetSeedHash | nrghash/nrghash.cpp:525-535 | the seed of an epoch is that many hashes of the first seed |
| ProofOfWork.MkCache | nrghash/nrghash.cpp:457-494 | the two in-place phases compute the cache defined by recursion over nodes and rounds, 32-bit indices included |
| ProofOfWork.StirRound | nrghash/nrghash.cpp:474-484 | one in-place round: every node becomes the hash of the node at the 32-bit index n - 1 + j xored with the node its own first word picks, each taken new if it comes before j and old otherwise |
| ProofOfWork.LeftIs | nrghash/nrghash.cpp:477 | up to 2^31 nodes the 32-bit index is the left neighbour, cyclically |
| ProofOfWork.PagesPositive | nrghash/nrghash.cpp:809-819 | the 32-bit page count is never zero, wrap-around included: a prime is no multiple of 2^32 |
| ProofOfWork.FitsUpTo32458 | nrghash/nrghash.h:58-90 | as long as the page count fits 32 bits, it is below 2^31 if and only if the epoch is at most 32458 |
| LargePrime.PrimeAbove31Bits | nrghash/nrghash.cpp:809-819 | 2147513177 is prime, so the search from epoch 32459 on stops at or above it |
| LargePrime.OrderCertifies | nrghash/nrghash.cpp:147-156 | an element of prime order l modulo p with l * l > p, whose predecessor is invertible, makes p prime |
| ProofOfWork.Miner.CacheFor | nrghash/nrghash.cpp:567-604 | whatever the memo table holds, the cache of the block's epoch; the table stays correct |
| ProofOfWork.Miner.DagFor | nrghash/nrghash.cpp:846-883 | whatever the memo table holds, the generated DAG of the block's epoch |
| ProofOfWork.Miner.ActivateDag | nrgcore/miner.cpp:96-114 | the DAG of the block's epoch becomes active, the previous one and its cache leave the memo tables; throws, after the swap, exactly when the previous one is not in the table |
| ProofOfWork.Miner.ActivateTwice | nrghash/nrghash.cpp:1032-1040 | activating one epoch twice and then another throws |
| ProofOfWork.Miner.GetPOWHash | nrgcore/miner.cpp:80-94 | value and stored mix are those of direct light evaluation, whether no DAG, one of the same epoch or one of another epoch is active, and whatever the memo tables hold |
| ProofOfWork.PowInputIs | nrghash/nrghash.cpp:284-301 | the hashed input is the header hash followed by the nonce as one 64-bit number, low word first |
| MemoTable.RunKeepsInv | nrghash/nrghash.cpp:567-604 | in every interleaving of lookups, each table entry belongs to its epoch and every object handed out is the entry |
| MemoTable.OneObjectPerEpoch | nrghash/nrghash.cpp:567-604 | two callers that returned for the same epoch hold the same object |
| MemoTable.NeverMissing | nrghash/nrghash.cpp:590-603 | the branch that throws because an object was neither inserted nor found is dead |
| MemoTable.SameObjectForever | nrghash/nrghash.cpp:846-883 | also when the second call comes later in the run |
| MemoTable.CallReturns | nrghash/nrghash.cpp:567-604 | however the other threads interleave, a call returns for its epoch after at most three steps of its own, unless its build is cancelled |
| MemoTable.HitReturns | nrghash/nrghash.cpp:567-604 | an epoch in the table is served from it at once, and nothing is built |
| MemoTable.BuildsAreDistinct | nrghash/nrghash.cpp:567-604 | in every run no two threads have built the same object, and none has built one that is in the table |
| Arith256.AddAssign | primitives/arith_uint256.h:135-145 | sum modulo 2^256, also when both operands are the same object |
| Arith256.Increment | primitives/arith_uint256.h:173-180 | plus one modulo 2^256 |
| Arith256.Negate | primitives/arith_uint256.h:77-84 | the two's complement: zero minus the value modulo 2^256 |
| Arith256.SubAssign | primitives/arith_uint256.h:147-151 | difference modulo 2^256 |
| Arith256.CompareTo | primitives/arith_uint256.cpp:108-118 | the sign of the difference of the values |
| Arith256.Bits | primitives/arith_uint256.cpp:170-183 | the bit length of the value |
| Arith256.MulAssign32 | primitives/arith_uint256.cpp:54-64 | product with a word modulo 2^256 |
| Arith256.AccumulatorFits | primitives/arith_uint256.cpp:66-80 | carry plus limb plus a product of two words stays below 2^64 |
| Arith256.MulRow | primitives/arith_uint256.cpp:71-77 | one row of the schoolbook product, with the alias of operand and result told apart |
| Arith256.MulAssign | primitives/arith_uint256.cpp:66-80 | product modulo 2^256 with a distinct operand, zero with itself |
| Shifts256.ShiftLeft | primitives/arith_uint256.cpp:20-35 | times a power of two modulo 2^256, for every shift count |
| Shifts256.ShiftRight | primitives/arith_uint256.cpp:37-52 | floor division by a power of two, for every shift count |
| Division256.DivAssign | primitives/arith_uint256.cpp:82-106 | fails exactly on a zero divisor, with the dividend already cleared; otherwise the floor quotient |
| Division256.SetBit | primitives/arith_uint256.cpp:99-102 | setting a clear quotient bit adds its weight |
| Limbs.OrBit | primitives/arith_uint256.cpp:20-52 | the or that joins shifted limbs works bit by bit |
| Compact.GetCompact | primitives/arith_uint256.cpp:223-244 | mantissa, exponent and sign of the value; both assertions hold |
| Compact.SetCompact | primitives/arith_uint256.cpp:203-221 | the denoted number modulo 2^256; negative exactly for a sign bit on a nonzero number; overflow exactly when the denoted number reaches 2^256 |
| Compact.DenotedIs | primitives/arith_uint256.h:262-281 | the denoted number is the mantissa times 256^(exponent - 3), rounded down |
| Compact.DocumentedTargets | primitives/arith_uint256.h:262-281 | the two examples of the description, both ways |
| Compact.EncodeFits | primitives/arith_uint256.cpp:237-240 | the mantissa fits 23 bits and the exponent a byte |
| Compact.DecodeEncode | primitives/arith_uint256.h:262-281 | decoding an encoded value rounds it down to a multiple of 256^max(0, exponent - 3) |
| Compact.EncodeDecodeEncode | primitives/arith_uint256.cpp:203-244 | encoding again changes nothing |
| Compact.EncodeMono | primitives/arith_uint256.cpp:223-244 | larger values never get smaller encodings |
| Compact.OverflowExact | primitives/arith_uint256.cpp:216-219 | the three tests on exponent and mantissa hold exactly when the denoted number is at least 2^256 |
| Compact.EncodedFields | primitives/arith_uint256.cpp:203-244 | an encoded target reads back without sign or overflow |
| Worker.RunKeepsInv | primitives/worker.cpp:16-69 | in every interleaving the mutex has one holder, and holder, state, flag and thread position agree |
| Worker.StartEntersTrun | primitives/worker.cpp:16-46 | in every run, a startWorking that asks a new or a stopped thread for work does not return before the thread has entered trun |
| Worker.SecondStart | primitives/worker.cpp:16-46 | a run in which trun returns, is started again and is entered a second time |
| Worker.KillEndsThread | primitives/worker.cpp:61-69 | when the destructor is done the thread has ended, is not there to be started, and the mutex is free |
| Worker.ControllerMoves | primitives/worker.cpp:16-69 | a controller stays where it is exactly when it waits for the mutex, the state or the thread |
| Worker.ThreadMoves | primitives/worker.cpp:25-41 | the thread stays where it is exactly when there is none, it has ended, is inside trun or sleeps on Stopped |
| Worker.PublishNeverLosesStart | primitives/worker.cpp:33-37 | the exchange that publishes Stopped never swaps out Starting |
| Worker.KillNeverLost | primitives/worker.cpp:61-69 | while the destructor waits, its request is in the state or about to be put back, and the thread cannot enter trun again |
| Worker.StoppedMeansStopped | primitives/worker.cpp:48-59 | after stopWorking returns, the thread is not in trun until the next startWorking asks for work |
| Worker.StopIsSeenKillIsNot | primitives/worker.h:47-50 | in every run, a running trun is told to stop if and only if a stopWorking is waiting; a waiting destructor does not tell it |
| Worker.KillCanWaitUnseen | primitives/worker.cpp:61-69 | a run in which the destructor waits while trun runs and is not told |
| Worker.EveryWaitEnds | primitives/worker.cpp:16-69 | five steps of the thread with trun returning end every spin loop and the join, whatever the others do |
| Radix.MulAdd | primitives/base58.cpp:32-40 | one multiply-and-add pass over a digit buffer; the final carry is zero |
| Base58.EncodeBuffer | primitives/base58.cpp:70-71 | 58^(138n/100+1) >= 256^n: the buffer always suffices |
| Base58.DecodeBuffer | primitives/base58.cpp:22-24 | 256^(733n/1000+1) >= 58^n: the buffer always suffices |
| Base58.AlphabetIs | primitives/base58.cpp:7-8 | the alphabet as runs of characters is the literal of the source |
| Base58.EncodeBase58 | primitives/base58.cpp:60-98 | the encoding defined by zeros and base-58 digits |
| Base58.DecodeBase58 | primitives/base58.cpp:10-58 | acceptance and bytes as defined on the trimmed string |
| Base58.DecodeEncode | primitives/base58.cpp:10-98 | decoding an encoding gives the bytes back, for every byte string |
| Base58.EncodeDecode | primitives/base58.cpp:10-98 | an accepted string encodes back to itself without its surrounding white space |
| Base58.SpaceCodes | primitives/base58.cpp:13-45 | white space is the characters 9 to 13 and 32 |
| Base58.DecodeIgnoresSpaces | primitives/base58.cpp:13-47 | decoding ignores those characters around a string |
| Base58.CStringIs | primitives/base58.cpp:10-58 | only the characters before the first zero character are read |
| Serialize.CompactIff | common/serialize.h:262-317 | a size is read, leaving rest, if and only if it is at most MAX_SIZE and the bytes are its canonical writing followed by rest |
| Serialize.CompactBoundaries | common/serialize.h:262-285 | the writings on both sides of the limits of the short forms |
| Serialize.CompactLimit | common/serialize.h:287-317 | MAX_SIZE itself is read, the next size is refused |
| Bytes.LEByte | common/common.h:90-113 | byte i of a little-endian writing is the one of weight 256^i |
| Serialize.PatternIs | common/serialize.h:219-233 | a signed field is written as its two's complement |
| Serialize.BytesIff | common/serialize.h:641-681 | the same for byte vectors |
| Serialize.OutPointIff | primitives/transaction.h:30-36 | the same for outpoints |
| Serialize.InIff | primitives/transaction.h:109-114 | the same for inputs |
| Serialize.OutIff | primitives/transaction.h:155-159 | the same for outputs |
| Serialize.VectorIff | common/serialize.h:741-788 | the same for vectors of inputs or outputs |
| Serialize.TxIff | primitives/transaction.h:253-264 | a byte string is read as a transaction, leaving rest, if and only if it is the writing of that transaction followed by rest |
| Serialize.TxRoundTrip | primitives/transaction.h:253-264 | reading what was written, followed by any bytes, returns it and leaves those bytes |
| Serialize.PrefixFree | primitives/transaction.h:253-264 | no transaction's writing is a prefix of another's |
| Serialize.SizeTxIs | common/serialize.h:184-197 | the sum of the widths of all fields is the length of the writing |
| Streams.CDataStream.Read | common/streams.h:227-245 | consumes exactly the bytes asked for, or throws and consumes nothing, if and only if position plus size fits 32 bits or is still beyond the data after the cut; the exact conditions of the overrun and of the rewind, and the whole new state |
| Streams.WrappedRead | common/streams.h:227-245 | ten bytes, position 4, a size of 2^32 - 1: the copy overruns the buffer |
| Streams.RewoundRead | common/streams.h:227-245 | reading 2^32 bytes of a longer stream leaves all of them to be read again |
| Streams.CDataStream.Write | common/streams.h:264-269 | appends to what is left to read |
| Streams.WriteCompactSize | common/serialize.h:262-285 | appends the canonical writing of the size |
| Streams.ReadCompactSize | common/serialize.h:287-317 | the canonical reading: non-canonical forms and sizes above MAX_SIZE are rejected; from any stream below 2^32 bytes a valid size is read |
| Streams.SerializeBytes | common/serialize.h:641-649 | appends size and bytes |
| Streams.UnserializeBytes | common/serialize.h:666-681 | reading in blocks of up to 5000000 bytes is reading the vector in one piece; from any stream below 2^32 bytes a complete vector is read |
| Streams.UnserializeEntry | primitives/transaction.h:109-114 | reads one input or output field by field, from any stream below 2^32 bytes that holds one |
| Streams.SerializeEntry | primitives/transaction.h:109-114 | appends one input or output |
| Streams.UnserializeVector | common/serialize.h:771-788 | resizing and filling in batches reads exactly the announced elements, from any stream below 2^32 bytes that holds them |
| Streams.SerializeVector | common/serialize.h:741-753 | appends size and elements |
| Streams.UnserializeTx | primitives/transaction.h:255-264 | from any stream below 2^32 bytes that starts with a transaction, reads it and leaves exactly the bytes after it; otherwise throws, or breaks only within 5000000 bytes of 2^32 |
| Streams.SerializeTx | primitives/transaction.h:255-264 | appends the writing of a transaction |
| Streams.WriteThenRead | primitives/transaction.h:253-264 | a transaction written to a stream before other bytes comes back, and the other bytes are left |
| Streams.GetSerializeSize | common/serialize.h:952-980 | running the writers over the size-computing stream gives the length of the writing, modulo 2^64 |
| VarInt.AccIsValue | common/serialize.h:319-341 | what the reader accumulates is the documented weighted sum |
| VarInt.ValueOfBytes | common/serialize.h:319-341 | the writing of n is a terminated string with value n |
| VarInt.BytesOfValue | common/serialize.h:319-341 | every terminated string is the writing of its value |
| VarInt.DocumentedVarInts | common/serialize.h:335-340 | nine entries of the table in the description |
| VarInt.MisprintedVarInts | common/serialize.h:335-340 | the writings of 16511 and 65535, and the numbers whose writings the table prints for them |
| VarInt.VarIff | common/serialize.h:356-385 | a string is read as n, leaving rest, if and only if it is the writing of n followed by rest |
| VarInt.TmpSuffices | common/serialize.h:359 | (8w+6)/7 bytes are enough for a w-byte unsigned type |
| VarInt.GetSizeOfVarInt | common/serialize.h:343-354 | the length of the writing |
| VarInt.WriteVarInt | common/serialize.h:356-371 | the two loops append the writing, within the temporary array |
| VarInt.ReadVarInt | common/serialize.h:373-385 | the value up to the first byte without the continuation bit, modulo 256^w, from any stream below 2^32 bytes that holds one |
| VarInt.ReadOfWrite | common/serialize.h:356-385 | reading a written n gives n if and only if it fits the type, and its remainder otherwise |
| ScriptNum.Serialize | primitives/script.h:316-347 | the magnitude in the fewest bytes, the sign in the top bit or in a byte of its own |
| ScriptNum.SetVch | primitives/script.h:350-365 | or-ing the shifted bytes and clearing the sign bit gives the value, negated when the bit was set; undefined exactly above eight bytes |
| ScriptNum.FromVch | primitives/script.h:214-239 | rejects exactly the encodings that are too long or, on request, not minimal; reads the others up to eight bytes |
| ScriptNum.EncodingIsUnique | primitives/script.h:316-365 | serialize(n) is the one encoding that passes the minimality check and decodes to n |
| ScriptNum.DocumentedNumbers | primitives/script.h:223-237 | the examples of the minimality check, and their neighbours |
| ScriptNum.EncodingFits | primitives/script.h:316-347 | at most eight bytes above -2^63 |
| Script.NextOpIff | primitives/script.h:501-551 | an instruction is read, leaving rest, if and only if it is well formed and its bytes come first |
| Script.OpsIff | primitives/script.h:501-551 | parsing to the end inverts the layout of well-formed instructions |
| Script.ParsesWhatWasBuilt | primitives/script.h:376-551 | parsing a script built from pushes, integers and non-push opcodes returns exactly those items and consumes every byte |
| Script.NumberComesBack | primitives/script.h:376-391 | a pushed integer is a small-integer opcode or its minimal encoding |
| Script.CScript.PushVector | primitives/script.h:435-462 | appends the shortest push of the bytes, if and only if the script stays below 2^31 bytes |
| Script.CScript.PushInt64 | primitives/script.h:376-391 | appends the instruction of the integer; exact limits of the length, which differ for the opcodes that go through push_back |
| Script.CScript.PushOpcode | primitives/script.h:421-427 | throws and changes nothing exactly above 0xff; appends the opcode exactly when the script stays below 2^31 bytes |
| Script.GetOp2 | primitives/script.h:501-551 | reads one instruction at the position if and only if one is there and the script is below 2^31 bytes; otherwise reports the invalid opcode and no data |
| Script.ParseAll | primitives/script.h:501-551 | a loop over GetOp2 gives all instructions of a script, with the same limit |
| Script.BuildThenParse | primitives/script.h:376-551 | items pushed one by one into a script come back from it, one instruction each and every byte consumed, if and only if it is below 2^31 bytes |
| JsonNumber.LexIsGrammar | common/utilstrencodings.h:133-138 | the lexer reads a string as a literal if and only if it is the text of that literal in the grammar of section 6 of RFC 8259 |
| JsonNumber.DigitsAre | common/utilstrencodings.h:133-138 | a digit is one of the ten characters 0 to 9 |
| FixedPoint.ProcessMantissaDigit | common/utilstrencodings.cpp:556-571 | pending zeros and the digit are added exactly when the mantissa stays below 10^18 |
| FixedPoint.DigitValIs | common/utilstrencodings.cpp:567 | each digit character stands for its place in 0123456789 |
| FixedPoint.DecimalOfText | common/utilstrencodings.cpp:557-571 | reading the decimal text of a number gives the number |
| FixedPoint.ParseFixedPoint | common/utilstrencodings.cpp:573-663 | succeeds exactly on the accepted literals with their amount; every assignment stays in its integer type |
| FixedPoint.AcceptedIsExact | common/utilstrencodings.h:133-138 | an accepted literal yields its exact value times 10^decimals, below 10^18 in magnitude |
| FixedPoint.NonzeroIsAccepted | common/utilstrencodings.h:133-138 | every literal whose scaled value is a nonzero integer below 10^18 in magnitude is accepted with that value |
| FixedPoint.ZeroAcceptance | common/utilstrencodings.cpp:643-648 | zero is accepted if and only if exponent plus decimals is within 0 .. 17 |
| FixedPoint.OutcomeMeans | common/utilstrencodings.cpp:573-663 | success and failure in terms of the grammar alone, both directions |
| FixedPoint.WholeNumbers | common/utilstrencodings.cpp:573-663 | the text of a positive whole number, with or without sign, is accepted as that number times 10^decimals whenever this stays below 10^18 in magnitude |
| Sha256Transform.Ch | primitives/sha256.cpp:18 | equals the function of section 4.1.2 of FIPS 180-4 |
| Sha256Transform.Maj | primitives/sha256.cpp:19 | equals the function of section 4.1.2 of FIPS 180-4 |
| Sha256Transform.Round | primitives/sha256.cpp:26-32 | updating two registers and renaming the rest is one step of section 6.2.2 of FIPS 180-4 |
| Sha256Transform.ScheduleStep | primitives/sha256.cpp:70-85 | adding to a word of the sliding window gives the next schedule word |
| Sha256Transform.ExtendLastIs | primitives/sha256.cpp:117-118 | the left-to-right sum of the last two rounds is the sum of the others |
| Sha256Transform.Transform | primitives/sha256.cpp:48-129 | the 64 unrolled rounds compute the intermediate hash of section 6.2.2 of FIPS 180-4 |
| Sha256Transform.ValOfAdd | primitives/sha256.cpp:26-32 | the addition of words is addition modulo 2^32 |
| Sha256Meaning.ChunkWordIs | common/common.h:115-118 | the words of a block are read high byte first |
| Sha256Meaning.WriteBE32Is | common/common.h:125-128 | a word is written high byte first |
| Sha256Meaning.BigSigmaBits | primitives/sha256.cpp:20-21 | bit i of each big sigma is the xor of the three bits named in section 4.1.2 of FIPS 180-4 |
| Sha256Meaning.SmallSigmaBits | primitives/sha256.cpp:22-23 | the same for the small sigmas, with the bits shifted out missing |
| Sha256Meaning.InitialHashIs | primitives/sha256.cpp:34-45 | each initial word is the first 32 fractional bits of the square root of its prime, by squaring |
| Sha256Meaning.RoundConstants0 | primitives/sha256.cpp:53-68 | each constant of rounds 0 to 15 is the first 32 fractional bits of the cube root of its prime, by cubing |
| Sha256Meaning.RoundConstants1 | primitives/sha256.cpp:70-85 | the same for rounds 16 to 31 |
| Sha256Meaning.RoundConstants2 | primitives/sha256.cpp:87-102 | the same for rounds 32 to 47 |
| Sha256Meaning.RoundConstants3 | primitives/sha256.cpp:104-119 | the same for rounds 48 to 63 |
| Sha256Stream.PadFillsBlocks | primitives/sha256.cpp:168-174 | the padding of section 5.1.1 of FIPS 180-4 fills whole blocks with fewer than 64 zeros |
| Sha256Stream.LengthField | primitives/sha256.cpp:171-174 | below 2^61 bytes the last eight bytes are the bit length, high byte first |
| Sha256Stream.CSHA256.Write | primitives/sha256.cpp:142-166 | appends the data to the message that state, buffer and counter represent |
| Sha256Stream.CSHA256.Finalize | primitives/sha256.cpp:168-183 | the digest of the padded message |
| Sha256Meaning.OutputIs | primitives/sha256.cpp:168-183 | the digest is the eight words in order as one number, high byte first |
| Sha256Meaning.PaddingBytes | primitives/sha256.cpp:168-174 | the padding starts with 0x80 and goes on with zero bytes |
| Sha256Stream.CSHA256.Reset | primitives/sha256.cpp:185-190 | represents the empty message again |
| Sha256Stream.HashPieces | primitives/sha256.cpp:142-183 | any split of a message over writes gives the digest of the whole message |
| Prevector.Prevector.ChangeCapacity | common/prevector.h:157-181 | keeps the contents; in place exactly when the new capacity is at most N; goes well exactly when neither the capacity nor the size field is cut |
| Prevector.Prevector.EraseRange | common/prevector.h:369-379 | removes the range and keeps the capacity, if and only if there were fewer than 2^31 elements |
| Prevector.Prevector.ResizeTo | common/prevector.h:296-307 | cuts, or extends with default elements, if and only if it fits: old length below 2^31 to cut, new length at most 2^31 to extend, no size cut |
| Prevector.Prevector.AssignCopies | common/prevector.h:187-196 | the contents become n copies, if and only if it fits |
| Prevector.Prevector.AssignItems | common/prevector.h:198-210 | the contents become the items, if and only if it fits |
| Prevector.Prevector.Shrink | common/prevector.h:315-317 | keeps the contents; in place exactly when they fit there |
| Prevector.Prevector.OpenGap | common/prevector.h:335-341 | makes room and keeps what is before and after it, if and only if the first slot after the room is reached and no size is cut; grows by half exactly when the capacity is too small |
| Prevector.Prevector.InsertOne | common/prevector.h:323-333 | inserts one element, if and only if it fits |
| Prevector.Prevector.InsertMany | common/prevector.h:335-346 | inserts copies, if and only if it fits |
| Prevector.Prevector.InsertItems | common/prevector.h:348-363 | inserts the items in order, if and only if it fits |
| Prevector.Prevector.Push | common/prevector.h:381-388 | appends one element, if and only if there were fewer than 2^31 and no size is cut |
| Prevector.Prevector.CopyFrom | common/prevector.h:247-260 | takes the other vector's contents and leaves it unchanged, if and only if both are below 2^31 elements or the same object |
| Prevector.Prevector.Swap | common/prevector.h:410-413 | exchanges the contents |
| Prevector.GrownOrCut | common/prevector.h:326-328 | cut to 32 bits, the grown capacity suffices if and only if it was not cut |
| Prevector.CodeOrCut | common/prevector.h:262-264 | cut to 32 bits, the size field of a heap block still says its length if and only if it was not cut |
| Prevector.ItemPtrOrCut | common/prevector.h:149-184 | read as a signed 32-bit number, a position is right if and only if it is below 2^31; any other one points before the block |
| Prevector.LastReachable | common/prevector.h:296-307 | resizing an empty vector to 2^31 fits, to one more does not |
| Prevector.FirstLongVector | common/prevector.h:272-392 | a vector of 2^31 elements takes one more in front, and can be neither pushed to nor popped |
| Prevector.ShortRunFits | common/prevector.h:142-413 | a run in which every length is below 2^31 fits throughout, for N below 2^31 |
| Prevector.Prevector.Perform | common/prevector.h:187-413 | every operation goes well, and does to the contents what it does to a plain sequence, if and only if no size is cut in it and item_ptr points to every element it is asked for; the capacity it leaves |
| Prevector.Run | common/prevector.h:142-413 | over every run of operations, across every switch of mode, the contents are those of a plain sequence if and only if every operation fits |

## Left out

- Network clients, JSON messages, timers, device code other than the lane algorithm, monitoring and the command line.
- Keccak: an arbitrary function of fixed output length; reading `__shfl_sync` as the value held by that lane of the group.
- DAG files, progress callbacks and the concurrent `unload` of the memo tables, which takes no lock: the active DAG is generated in process, `unload` is modelled for one thread in `ActivateDag`, and cancellation only in `MemoTable`.
- Sleeping, the cost of thread creation and logging in the worker; an exception in trun is caught there and counts as its return.
- DagSizes.TrialDivision: reads the floating-point square root bound as i * i <= x.
- The byte reversal between `uint256` and the hash words, and the hash of the truncated header, which is an arbitrary function in `ProofOfWork`.
- `--`, bitwise operators, `EqualTo`, hexadecimal text and `getdouble` of the 256-bit type: they would only add easy members.
- Base58.EncodeBase58: does not model the 32-bit `int` of sizes and counters, so strings are below 2^31 characters in the source.
- Base64 and Base32 pairs.
- Serialize.TxIff: does not model `nRounds`, which is not serialized, nor the cached hash refreshed after reading.
- Streams.UnserializeTx: after a throw, or a read out of order, nothing is said of how much was consumed, and the reader is not followed further.
- Script.CScript.PushInt64: leaves out the least 64-bit integer, whose negation overflows in the source.
- Prevector.Run: element memory is a value owned by one vector, so aliasing of an inserted element with the vector is not modelled; nothing is said of a vector after an operation that did not fit.
- Sha256Stream.CSHA256.Finalize: digests with `8 * length` modulo 2^64 in the length field; it is the standard's digest below 2^61 bytes.
