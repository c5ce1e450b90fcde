# A verified model of the COLOSSUS-X chain, miner and hash code

This Dafny project models the part of the COLOSSUS-X repository that decides which blocks a node keeps, which one
is its tip, how a proof of work is searched, sealed and checked, and how the DAG behind the hash is built, cached
and read. It proves properties of that model; every file is checked together by

    dafny verify dfyconfig.toml

or, with a bound on solver resources instead of time, by

    dafny verify --resource-limit 2000000 --verification-time-limit 0 dfyconfig.toml

## What is modelled

**The chain store and fork choice** (`ChainState`, `Consensus`, `ForkChoice`, `Ancestry`, `Convergence`). The
in-memory store is a class whose methods update five fields; `InsertBlock` and `ValidateHeader` follow the source
check by check. Each method is tied to a function on `Chain` values, and the invariants are proved about those
functions over whole runs: every event stores exactly the block it should, the blocks form a tree closed under
parents, total works are exact sums along paths, the height index covers exactly 0 to the top, the tip is the unique
best block, and headers, works and tip do not depend on the order of arrival. The block the height index shows at a
contested height does; two orders leave the same index exactly when they agree on the last new block at every height.

**Concurrent insertion** (`Interleaving`). Nothing locks a whole `InsertBlock`, so it is also modelled one store
operation at a time, for any number of calls. Every reachable state is structurally sound. The tip, once all calls
have returned, is the best block exactly when it is, or outranks, every tip there was on the way; a schedule of two
calls shows that it can be moved back, and one mover at a time is enough to prevent that.

**The disk store** (`Snapshots`, `DiskFiles`, `DiskStores`, `Crashes`). The snapshot is text: sorted hex hashes,
decimal heights and works. Loading inverts flushing exactly. A flush that crashes or fails leaves the old contents
or the new. A crash loses a tip update exactly between storing a block that outranks the tip and moving the tip.
Sending that block again does not help; a later tip that outranks it does, and the blocks the tip fails to beat
after any run are exactly the lost ones that outrank it.

**Concrete inputs** (`Rivals`). A genesis block and two rival children of it, on which interleaving, a crash and the
order of arrival each show.

**The nonce search** (`Miner`, `BatchMiner`). Strided workers, the atomic flag, the one-slot channel, the closer
and the receiver are a transition system under an arbitrary scheduler. The batch search is a loop over a
backend's results; without a limit it tries only 100000 nonces, so the two searches agree on every hash and target
exactly when a limit is set or those nonces reach the end of the nonce space.

**The DAG, its caches and the hashes** (`DagSpec`, `DagNodes`, `DagGeneration`, `DagObjects`, `Accessors`,
`LatticeHash`, `StrictHash`, `Backends`, `DagCache`, `DagRaces`). The parallel fill is run byte by byte under an
arbitrary scheduler; each node is the hash of the seed and its own number. Both hashes are in-place loops over scratch
buffers and tiles, proved to compute one pure function of the node table whatever the buffers held, through every
host accessor. The validator's two caches are
maps of mutable DAG objects with counted frees; they refine a state machine on keys and an allocator, which says
exactly when a header is accepted, refused for its proof of work, or refused for want of a DAG. Hashing runs outside
the validator's lock, and `DagRaces` says exactly when no hash meets a closed DAG.

**What the hashes are, and what they depend on** (`HashLaws`, `PowLaws`, `HashReach`, `FnvDigits`). Each hash is stated
a second time, as a chain of states in which every step says which node it reads and which bytes it hashes; the two
forms are equivalent, and with them the proof-of-work rule. The nonce matters, and so does every node: in version 2 the
state's first eight bytes select any node; in version 1 the FNV-1a hash of the mix and the round does, which reaches
every 64-bit value. That is proved with a short basis of a 31-dimensional lattice, in `FnvDigits`; most of its text is
that basis.

**Sealing** (`Sealing`). A template, the cached DAG, the search under any schedule and `InsertBlock` are put
together: a mined block is exactly the template with a nonce, is accepted and becomes the tip. A spec that states no
separate initial size makes miners and validators disagree on epoch seeds once growth starts; the condition is exact.

**Keccak and SHA3-512 in the OpenCL kernel** (`Words`, `Fips202`, `KeccakTables`, `Keccak`, `Sha3`). `Fips202`
transcribes the bit-level definitions of FIPS 202, sections 3.1 to 3.4, 4, 5.1 and 6.1. The kernel's in-place lane
code, its three tables and its byte-wise padding are proved equal to them.

The library hash functions are parameters (`Crypto`): everything holds for any functions of those types. The clock
is a parameter of each call. Assumptions on hashes are stated where they are needed: no block hashes to zero, and,
for interleaved calls and arrival order, distinct submitted headers hash differently. The transactions of a block
are not covered by its hash, and the model keeps that.

The written design announces an 80 GB strict DAG, while the code starts at 8 GiB and grows by 512 MiB an epoch
(colossusx/spec.go:10-11). The model follows the code; no constant of it depends on either figure.

## Model

| member | source | states |
|---|---|---|
| `MemStore.MemoryStore.constructor` | pkg/chain/memory.go:34-40 | a new store is the empty chain |
| `MemStore.MemoryStore.StoreBlock` | pkg/chain/memory.go:42-57 | the whole new state after storing: block, height, work, and genesis and tip only where there were none |
| `MemStore.MemoryStore.SetCurrentTip` | pkg/chain/memory.go:102-110 | the tip moves exactly when the block is stored; nothing else changes |
| `MemStore.MemoryStore.GetHeader` | pkg/chain/memory.go:69-75 | the stored header, or not found |
| `MemStore.MemoryStore.GetBlockByHeight` | pkg/chain/memory.go:77-86 | the block the height index names, or not found |
| `MemStore.MemoryStore.CurrentTip` | pkg/chain/memory.go:88-100 | no tip exactly when the tip field is the zero hash; otherwise its block and its work |
| `MemStore.MemoryStore.TotalWork` | pkg/chain/memory.go:112-120 | the recorded work, or not found |
| `MemStore.MemoryStore.HasBlock` | pkg/chain/memory.go:122-127 | membership in the block map |
| `Work.LessOrEqualBE` | colossusx/target.go:25-35 | the early-exit byte scan decides numeric order of big-endian values |
| `Work.BlockWorkRange` | pkg/consensus/validator.go:173-180 | block work is zero only for the zero target, otherwise between 1 and 2^255 |
| `Work.BlockWorkIsQuotient` | pkg/consensus/validator.go:173-180 | block work is the largest w with w * (target + 1) <= 2^256 |
| `Work.BlockWorkAntitone` | pkg/consensus/validator.go:173-180 | a smaller nonzero target never has less work than a larger one |
| `Work.HexOrderIsNumeric` | pkg/consensus/validator.go:190-192 | comparing hex strings of hashes is comparing the hashes as numbers |
| `Work.SelectMaximises` | pkg/consensus/validator.go:182-194 | the candidate is selected exactly when it is the current block or beats it by work, then by smaller hash |
| `Work.OutranksIsTotal` | pkg/consensus/validator.go:182-194 | that order is strict and total on distinct hashes |
| `Consensus.CheckHeader` | pkg/consensus/validator.go:131-167 | the method on the store returns the first failing check, in the source's order |
| `Consensus.AcceptedMeans` | pkg/consensus/validator.go:131-167 | a header is accepted exactly when it is consistent in itself, attaches to the store without height wrap-around, and is not too far ahead |
| `Consensus.RejectionMeans` | pkg/consensus/validator.go:131-167 | which error each refused header gets: the first of epoch, target, parent, time and proof of work that is wrong |
| `Consensus.InsertBlock` | pkg/consensus/validator.go:196-232 | new store and result together are the insertion function of the old store |
| `ForkChoice.StoringKeepsWellFormed` | pkg/chain/memory.go:42-57 | storing an attaching block with its exact work keeps tree, works, height index and anchors |
| `ForkChoice.ChoosingIsOptimal` | pkg/consensus/validator.go:217-231 | store-then-choose keeps the tip optimal and moves it only to the new block |
| `ForkChoice.InsertOutcomes` | pkg/consensus/validator.go:196-232 | on a sound store insertion rejects, reports a known block, or stores with exact work; it never fails for want of a work entry |
| `ForkChoice.InsertKeepsInvariant` | pkg/consensus/validator.go:196-232 | insertion keeps every invariant; the store grows by exactly an accepted new block; the flag says whether it is the new tip |
| `ForkChoice.BecameTipMeansNewAndBest` | pkg/consensus/validator.go:217-231 | the flag is true exactly when the block was not stored before and now beats all others |
| `ForkChoice.StepKeepsInvariant` | pkg/node/node.go:84-102 | genesis initialisation, local insertion and peer blocks each keep the invariants, and the new state is the old one with exactly an acceptable new block added, or the old one itself |
| `ForkChoice.RunKeepsInvariant` | pkg/node/node.go:205-221 | so does any serialised run of them, from any sound state: it is a sequence of states with such a step at every event |
| `ForkChoice.RunFromEmptyIsOptimal` | pkg/node/node.go:84-102 | over every serialised run from an empty store the tree is exact, the tip is the best stored block, and no event stores less or more than it should |
| `ForkChoice.StepIsExact` | pkg/node/node.go:121-125 | an inserted or received block that is consistent, attached, timely and new is stored with its exact work, height entry and, if it outranks the tip, as the tip; a genesis only in an empty store; otherwise nothing changes |
| `ForkChoice.RunIsExact` | pkg/node/node.go:205-221 | a run is a sequence of states, each what its event exactly makes of the one before |
| `ForkChoice.GenesisIsStable` | pkg/chain/memory.go:50-52 | the genesis, once set, is never replaced |
| `Ancestry.AncestorWalk` | pkg/consensus/validator.go:146-161 | every stored block's walk ends at a height-0 root after height + 1 blocks with rising timestamps, and its work is the sum along it |
| `Ancestry.AncestorsAreDistinct` | pkg/consensus/validator.go:146-161 | no walk meets a block twice |
| `Ancestry.HeightIndexIsExact` | pkg/chain/memory.go:46-49 | the height index is defined exactly on 0 to the greatest height and names a block of each |
| `Ancestry.BlocksByHeight` | pkg/chain/memory.go:77-86 | a lookup by height succeeds exactly up to the greatest height and finds a stored block of that height under its own hash |
| `Convergence.SameHeadersSameTip` | pkg/consensus/validator.go:182-232 | two sound stores with the same headers have the same works and tip |
| `Convergence.RunsConverge` | pkg/consensus/validator.go:196-232 | any two serialised histories that end with the same headers agree on works and tip |
| `Convergence.DeliveryStoresAll` | pkg/consensus/validator.go:131-232 | delivered parents first, every valid block is stored: the result is the union of the headers |
| `Convergence.RunStoresAll` | pkg/node/node.go:205-221 | a run of inserted and received blocks in such an order ends with the union of the headers, whichever way each block came |
| `Convergence.OrderDoesNotMatter` | pkg/consensus/validator.go:131-232 | any two parents-first orders of the same valid, distinctly hashed blocks end with the same headers, works and tip, and with the same height index where no height is contested |
| `Convergence.SameHeadersSameIndex` | pkg/chain/memory.go:46-49 | two sound stores with the same headers and one block per height have the same height index |
| `Convergence.IndexAgreesExactly` | pkg/chain/memory.go:46-49 | two parents-first orders leave the same height index exactly when at every height the last new arrival is the same |
| `Convergence.HeightIndexDependsOnOrder` | pkg/chain/memory.go:48-48 | for two new blocks the index is the same both ways round exactly when their heights differ |
| `Interleaving.AloneIsInsert` | pkg/consensus/validator.go:196-232 | the operation-by-operation call, undisturbed, is the insertion function |
| `Interleaving.StoringIsSafe` | pkg/consensus/validator.go:214-216 | storing is safe even if another call stored the same header meanwhile |
| `Interleaving.EveryInterleavingIsSafe` | pkg/consensus/validator.go:196-232 | for any number of calls and any schedule, every reachable state is parent-closed with exact works and a stored tip |
| `Interleaving.TipIsBestUnlessMovedBack` | pkg/consensus/validator.go:214-231 | for any number of calls and any schedule: once all have returned, the tip is the best block exactly when it is, or outranks, every tip the store had on the way |
| `Interleaving.OneMoverKeepsTheBestTip` | pkg/consensus/validator.go:217-231 | if no other call moves the tip between a call's choosing and its moving, every interleaving ends with the best tip |
| `Interleaving.TwoCallsCanLoseTheBestTip` | pkg/consensus/validator.go:217-231 | for any two challengers, a schedule of two calls after which a stored block beats the tip |
| `Rivals.TipIsLostByInterleaving` | pkg/consensus/validator.go:217-231 | a concrete store and two concrete blocks whose calls end with a tip that is not the best block |
| `Rivals.IndexDependsOnOrder` | pkg/chain/memory.go:48-48 | two concrete siblings whose orders of arrival leave different height indexes |
| `Codec.HashRoundTrip` | pkg/chain/codec.go:40-54 | parsing a printed hash gives the hash back |
| `Codec.HeightRoundTrip` | pkg/chain/store_disk.go:156-157 | parsing a printed uint64 height gives it back |
| `Codec.BigIntRoundTrip` | pkg/chain/codec.go:56-72 | parsing a printed work gives it back, negative numbers included |
| `Codec.HexDigitsAre` | pkg/types/types.go:66-66 | a printed hash has two lower-case digits for each byte, the upper half first |
| `Codec.DecimalDigitsAre` | pkg/chain/store_disk.go:201-203 | decimal text has the digits of the number in order, the units last |
| `Codec.NoLeadingZero` | pkg/chain/store_disk.go:201-203 | and starts with a zero only for zero itself |
| `Snapshots.SnapshotIsReadable` | pkg/chain/store_disk.go:181-206 | every snapshot of a chain parses |
| `Snapshots.LoadInvertsFlush` | pkg/chain/store_disk.go:129-179 | whatever load makes of a chain's snapshot is exactly that chain |
| `DiskStores.BuildSnapshot` | pkg/chain/store_disk.go:181-206 | the loops over unordered maps produce the chain's snapshot, records sorted by hash |
| `DiskStores.Load` | pkg/chain/store_disk.go:129-179 | load succeeds exactly when the file can be read and every text parses, and then takes over every entry; a missing or empty file is the empty chain; the two errors are told apart |
| `DiskStores.DiskStore.Flush` | pkg/chain/store_disk.go:207-215 | a flush passes through unchanged, torn, written, renamed; success is the last, failure stops at an earlier one |
| `DiskStores.DiskStore.StoreBlock` | pkg/chain/store_disk.go:44-58 | memory becomes what the in-memory store's would, even if the flush fails; on success the disk holds it |
| `DiskStores.DiskStore.SetCurrentTip` | pkg/chain/store_disk.go:102-110 | an unknown hash changes nothing; otherwise the tip moves and is flushed |
| `DiskStores.NewDiskStore` | pkg/chain/store_disk.go:25-42 | opening succeeds exactly with a directory name, a directory and a loadable file, each failure has its cause, and a disk that holds a chain yields that chain |
| `DiskFiles.CrashLeavesOldOrNew` | pkg/chain/store_disk.go:211-215 | at every point of write-then-rename the disk holds exactly the old chain or exactly the new one |
| `DiskFiles.HoldsOne` | pkg/chain/store_disk.go:129-179 | a disk holds at most one chain |
| `Crashes.ReopeningIsACrashedInsert` | pkg/chain/store_disk.go:181-216 | dying during an operation's flush and reopening gives the store after some number of the call's operations |
| `Crashes.InterruptedInsert` | pkg/consensus/validator.go:196-232 | what an insertion interrupted after n operations leaves, for every n: the old store, the block stored under the old tip, or the finished insertion |
| `Crashes.CrashPointIsExact` | pkg/consensus/validator.go:214-231 | on an optimal store an interruption costs the best tip exactly if the block outranks the tip and it falls between storing and moving |
| `Crashes.StepPassedOver` | pkg/consensus/validator.go:196-232 | every event keeps the tree exact, and the blocks the tip fails to beat change exactly so: a badly timed crash adds the new block, anything else keeps those that outrank the new tip |
| `Crashes.DurableRunPassedOver` | pkg/consensus/validator.go:196-232 | after any run with any number of crashes the tree is exact and the blocks the tip fails to beat are exactly those passed over before or lost in a crash that outrank it, at most one per crash |
| `Crashes.DurableRunIsExact` | pkg/consensus/validator.go:196-232 | such a run is a sequence of states: every completed event does exactly what it should, every crash leaves exactly what the operations before it made |
| `Crashes.DurableRunIsOptimal` | pkg/consensus/validator.go:196-232 | after such a run from an optimal store the tip is best exactly when it outranks every lost block |
| `Crashes.DurableRunKeepsInvariant` | pkg/consensus/validator.go:196-232 | in particular the tip beats all but at most one block per crash |
| `Crashes.ReinsertingDoesNotRecover` | pkg/consensus/validator.go:201-204 | a lost block sent again, at any time, changes nothing and stays passed over |
| `Crashes.ChildRecovers` | pkg/consensus/validator.go:217-231 | a new child of the best stored block becomes the tip and beats every block, whatever was lost before |
| `Rivals.TipIsLostByCrash` | pkg/consensus/validator.go:214-231 | a concrete store and block for which an interruption after the fourth operation leaves a tip that is not the best block |
| `Miner.AddUint64` | colossusx/nonce.go:32-37 | the sum exists exactly when it fits 64 bits |
| `Miner.ActKeepsInv` | colossusx/miner.go:78-117 | every step of worker, closer or receiver keeps the invariant on hashed nonces, flag, channel and result |
| `Miner.HashingStep` | colossusx/miner.go:100-108 | a worker's hash is of a nonce nobody hashed before |
| `Miner.ExhaustedMeansNone` | colossusx/miner.go:88-114 | if all workers finish without a winner, every nonce of the range was hashed and none satisfies |
| `Miner.MineIsCorrect` | colossusx/miner.go:63-125 | under every schedule: success exactly when some nonce of the range satisfies, the answer is such a nonce, no nonce is hashed twice, at most one message is sent |
| `Miner.SchedulesAreFinite` | colossusx/miner.go:78-117 | no schedule is longer than the initial rank, so every worker and the search terminate |
| `Miner.SomebodyCanAct` | colossusx/miner.go:76-121 | no deadlock: while the caller waits or a worker runs, someone can act |
| `Miner.SearchCanFinish` | colossusx/miner.go:76-121 | any schedule so far can be carried on until all workers are done and the caller has its answer |
| `BatchMiner.ScanResults` | colossusx/miner.go:135-143 | the scan finds the first result that meets the target |
| `BatchMiner.HashBatch` | colossusx/miner.go:131-134 | every host backend gives the pointwise hashes on the table it was prepared with, or an error |
| `BatchMiner.MineBatch` | colossusx/miner.go:126-144 | the batch search returns the least satisfying nonce of its range, or none if there is none or the backend fails |
| `BatchMiner.BatchAgreesOnJob` | colossusx/miner.go:126-130 | for one job the two searches agree on success unless no limit was set and every satisfying nonce lies past the first 100000 |
| `BatchMiner.BatchAgreesWithSearch` | colossusx/miner.go:126-130 | they agree for every hash and target, under every schedule, exactly when a limit is set or the first 100000 nonces reach the end of the nonce space |
| `DagSpec.SizeIsSaturatingGrowth` | colossusx/spec.go:176-189 | for a valid spec the uint64 code is min(initial + epoch * growth, 2^64 - 64), a positive multiple of 64 |
| `DagSpec.SizeIsMonotone` | colossusx/spec.go:191-196 | the DAG never shrinks with height |
| `DagSpec.ResolvedIsValid` | colossusx/spec.go:198-202 | resolving keeps a spec valid |
| `DagSpec.NodesMakeTheSize` | colossusx/spec.go:204-213 | the nodes of a resolved spec fill exactly its size |
| `DagSpec.StrictSizes` | colossusx/spec.go:57-75 | the strict spec is valid, has 8 GiB and grows by 512 MiB every 8000 blocks up to 2^64 - 64 |
| `DagSpec.ResearchSpecs` | colossusx/spec.go:77-107 | a research spec is valid exactly when initial size and growth are whole numbers of nodes, and never counts growth twice |
| `DagSpec.ResolvingTwice` | colossusx/spec.go:162-202 | asking a resolved spec again gives the same size exactly when the initial size is stated, growth has not begun, or exact growth has reached 2^64 - 64 |
| `DagSpec.ResolvingTwiceCanDoubleCount` | colossusx/spec.go:162-202 | a concrete valid spec for which it does not |
| `Types.EncodeIsInjective` | pkg/types/types.go:83-101 | headers that encode alike are equal |
| `Types.EncodingLayout` | pkg/types/types.go:83-101 | where each field is in the 200 encoded bytes, numbers most significant byte first, and that mining encodes the first 192 |
| `Types.HashIdentifiesHeader` | pkg/types/types.go:97-103 | absent SHA-256 collisions the block hash identifies the header |
| `Types.ResolvedSeedAgrees` | pkg/types/types.go:112-117 | under the same condition resolving first leaves the epoch seed unchanged |
| `Types.SeedMaterial` | pkg/types/types.go:112-117 | the epoch seed hashes sixteen bytes: epoch number, then size, most significant byte first |
| `Types.SeedsIdentifyEpochs` | pkg/types/types.go:112-117 | absent a SHA-256 collision two heights have the same seed exactly when they are in the same epoch, and then the same size |
| `DagGeneration.PartitionNodes` | colossusx/dag.go:116-131 | the worker ranges cover the table and are pairwise disjoint, they are the shares of exact arithmetic, and no uint64 product or sum wraps |
| `DagGeneration.FillConcurrently` | colossusx/dag.go:133-145 | under every interleaving of byte writes node i ends as the Keccak hash of the seed followed by i in eight bytes, lowest first, and nothing else is touched |
| `DagGeneration.GenerateDAG` | colossusx/dag.go:102-147 | each error case exactly, including the panic of a spec without current size on a slice of too little capacity; otherwise every node is the hash of the seed and its number |
| `DagGeneration.GenerateTensorDAG` | colossusx/dag_tensor.go:10-28 | strict only; whole tiles that fit are BLAKE3 hashes of the seed and their numbers, the rest is untouched |
| `DagNodes.NodesAreHashed` | colossusx/dag_stateless.go:65-81 | recomputed nodes are those hashes too, in both modes |
| `DagNodes.NodesAreDistinct` | colossusx/dag.go:138-142 | where the hash has no collision on inputs of that length, all nodes of the buffer differ |
| `DagObjects.PopulateDAG` | colossusx/dag.go:149-157 | on any DAG, closed or without current size too, which outcome; on a usable one the nodes end as the table of its mode and seed |
| `DagObjects.Dag.ReadNode` | colossusx/dag.go:72-77 | reading returns the table's entry |
| `DagObjects.Dag.Close` | colossusx/dag.go:92-100 | an owned allocation is freed once; closing again does nothing |
| `Accessors.ReadNode` | colossusx/dag_stateless.go:35-46 | every accessor's read is the entry of the table it stands for; a recomputed one is the hash of the seed and its number |
| `Accessors.NodeCount` | colossusx/hash.go:15-18 | and its count is that table's length |
| `LatticeHash.ComputeFnv1a64` | colossusx/hash.go:107-118 | the loop computes FNV-1a with 64-bit wrap-around |
| `LatticeHash.Blake3RoundInput` | colossusx/hash.go:98-105 | the mix is XORed against both halves of the node |
| `LatticeHash.HashScratch.EnsureSeedInput` | colossusx/hash.go:31-45 | afterwards the seed buffer is empty with room for header and nonce |
| `LatticeHash.LatticeHash` | colossusx/hash.go:47-94 | whatever the scratch held, the result is the pure hash of the accessor's table; version 2 on a DAG is the strict hash |
| `StrictHash.TensorTile.Read` | colossusx/dag.go:80-91 | every field of the tile is overwritten with the decoded node |
| `StrictHash.ComputeLane` | colossusx/hash_strict_v2.go:40-46 | no int32 operation overflows, every partial sum is bounded, and the lane is the exact integer |
| `StrictHash.LaneBounded` | colossusx/hash_strict_v2.go:40-46 | for every tile, state and round a lane lies within 262527 of zero |
| `StrictHash.RoundBlock` | colossusx/hash_strict_v2.go:39-51 | the round's block is the sixteen lanes, mixed and encoded |
| `StrictHash.NextState` | colossusx/hash_strict_v2.go:35-56 | one round, commit included, is the pure round function of the table |
| `StrictHash.StrictV2Hash` | colossusx/hash_strict_v2.go:24-63 | the whole hash is the pure function of the accessor's table |
| `HashLaws.SeedInputMeans` | colossusx/hash.go:64-68 | what is hashed first is the header, followed by the nonce, if there is one, in eight bytes, lowest first |
| `HashLaws.StrictHashMeans` | colossusx/hash_strict_v2.go:24-63 | the version-2 hash is the end of a chain of states: each reads the node that its first eight bytes select, hashes sixteen lanes of it, and commits where due |
| `HashLaws.LaneMeans` | colossusx/hash_strict_v2.go:40-46 | a lane is bias, two state bytes and sixteen products of signed node bytes, of row i and column i + r |
| `HashLaws.LatticeHashMeans` | colossusx/hash.go:47-94 | the version-1 hash is the end of a chain of mixes: each reads the node that FNV-1a of mix and round selects, and hashes the mix XORed against both its halves |
| `HashLaws.FnvVectors` | colossusx/hash.go:107-118 | the hash of the empty input, of "a" and of "foobar" is FNV-1a's published value |
| `HashReach.NonceMatters` | colossusx/hash.go:64-68 | for any two nonces, any header and any nonempty table, some hash functions give different results, in both versions |
| `HashReach.StrictReadsEveryNode` | colossusx/hash_strict_v2.go:37-40 | for any header, nonce and table, a change of any one node changes the version-2 result under some hash functions |
| `HashReach.FnvReachesAll` | colossusx/hash.go:107-118 | for every tail and every 64-bit value, some 32 bytes before the tail hash to that value |
| `HashReach.LatticeReadsEveryNode` | colossusx/hash.go:73-84 | for any header and nonce, a change of node k alone can change the version-1 result exactly if the spec reads nodes at all; so for every k and every table size |
| `Backends.CpuBackend.Prepare` | backend_cpu.go:22-36 | the copied table equals the DAG's nodes |
| `Backends.CpuBackend.Hash` | backend_cpu.go:37-44 | the pure hash of the prepared copy, or of the DAG if nothing was prepared |
| `Backends.CpuBackend.HashBatch` | backend_cpu.go:46-56 | the pointwise hashes, as many as asked or as fit below 2^64 |
| `Backends.UnifiedBackend.Prepare` | backend_unified.go:26-43 | the view covers exactly the DAG's own bytes |
| `Backends.UnifiedBackend.Hash` | backend_unified.go:45-54 | the pure hash of what the view was prepared for, whatever DAG that was, or of this DAG if nothing was prepared |
| `Backends.UnifiedBackend.HashBatch` | backend_unified.go:56-71 | the pointwise hashes on that table, as many as asked or as fit |
| `Backends.LatticeHashSharedBuffer` | shared_dag_hash.go:38-73 | the pure hash of the nodes in the raw buffer |
| `Backends.HashBatchShared` | shared_dag_hash.go:26-36 | the pointwise hashes, as many as asked or as fit |
| `Backends.ConsensusHash` | pkg/consensus/validator.go:68-73 | the consensus backend computes the hash its DAG's spec selects |
| `Backends.HashHeaderStateless` | colossusx/dag_stateless.go:83-92 | each error case; otherwise the hash of the recomputed table |
| `Backends.VerifyHeaderStateless` | colossusx/dag_stateless.go:94-100 | accepts exactly when that hash meets the target |
| `PowLaws.HashMeans` | colossusx/hash.go:47-56 | the hash of a spec is the chain of its version |
| `PowLaws.EpochTableMeans` | colossusx/dag_stateless.go:35-81 | the table of a header has as many nodes as the size for its height holds, each the hash of its epoch seed and number |
| `PowLaws.PowOkMeans` | pkg/consensus/validator.go:284-294 | the proof-of-work rule: such a hash of the 192 mining bytes and the nonce, on that table, is at most the target, both read most significant byte first |
| `Backends.HashEveryWay` | backend_common.go:18-90 | table copy, shared view, raw buffer and the DAG itself give one result, with fresh or prepared backends and one scratch reused dirty |
| `DagCache.CacheKeyInjective` | pkg/consensus/validator.go:362-369 | a cache key determines seed and size |
| `DagCache.NewDag` | colossusx/dag.go:27-52 | a DAG comes exactly of a valid spec and an allocator that covers its size; what is allocated, returned or already freed otherwise |
| `DagCache.PowValidator.CachedDag` | pkg/consensus/validator.go:378-396 | a lookup succeeds exactly when the key is cached or the allocator covers the size, and returns a DAG holding the key's table; a failed build leaves the cache as it was and frees what it got |
| `DagCache.PowValidator.SharedMiningDag` | pkg/consensus/validator.go:307-310 | the lookup and the new cache keys are those of the state machine; the caches stay right and the books balanced |
| `DagCache.PowValidator.ValidationDag` | pkg/consensus/validator.go:296-305 | so is this one: the shared cache where the allocator allows reuse, else the fallback cache, which never fails |
| `DagCache.PowValidator.ValidatePoW` | pkg/consensus/validator.go:284-294 | from any cache state a header past the size check is accepted exactly when the tableless verifier accepts it and its DAG is cached or can be allocated; which of the two fails is told apart |
| `DagCache.PowValidator.SetMiningBackend` | pkg/consensus/validator.go:98-111 | the given allocator is taken over, every shared DAG is closed, fallback DAGs stay open and right |
| `DagCache.PowValidator.Close` | pkg/consensus/validator.go:263-282 | afterwards every allocation ever made has been freed exactly once, even with one DAG under several keys or in both caches |
| `DagCache.LifeCycle` | pkg/consensus/validator.go:263-396 | over any run of sealing, validating and reconfiguring, then closing: every verdict is that of the state machine and every allocation is freed exactly once |
| `DagCache.RunVerdicts` | pkg/consensus/validator.go:284-310 | in any such run a header is accepted exactly when the tableless verifier accepts it and a DAG was to be had; with heap allocators, or ones not shared with validation, that is always so |
| `DagRaces.HashesAreSafe` | pkg/consensus/validator.go:284-290 | in any interleaving every hash runs on an open DAG exactly when no reconfiguration or close comes while a goroutine hashes on a DAG it closes |
| `DagRaces.ReconfiguringTooEarly` | pkg/consensus/validator.go:107-110 | a concrete run in which one does |
| `Sealing.SearchTestsTheRule` | pkg/consensus/validator.go:234-257 | the search tests exactly the rule validators enforce on the sealed header |
| `Sealing.TestNonce` | pkg/consensus/validator.go:234-247 | hashing with one nonce on the cached DAG is the search's test, and the validators' rule on the sealed header |
| `Sealing.SealingIsSound` | pkg/consensus/validator.go:247-256 | under every schedule a sealed header is valid, and failure means no nonce of the range would be |
| `Sealing.SealedTemplateIsAccepted` | pkg/node/node.go:144-169 | a sealed template passes validation now or later in any store with its parent, and is the template in every field but the nonce |
| `Sealing.TemplateMeans` | pkg/node/node.go:149-161 | version, height, parent, target, size, seed; the least time that is neither before the clock nor at or before the tip's; roots that hash "height:" with the decimal height, and the 64 hex digits of the parent hash |
| `Sealing.MinedBlockIsSealed` | pkg/node/node.go:144-169 | a mined block is such a template, without transactions, with a nonce in range that makes its proof of work valid |
| `Sealing.OtherTemplatesAreRefused` | pkg/node/node.go:150-158 | where the size does not resolve once, validators refuse every template |
| `Sealing.ChildOfTipBecomesTip` | pkg/consensus/validator.go:196-232 | a valid new child of the tip becomes the tip, with the tip's work plus its own |
| `Sealing.MiningCanSucceed` | pkg/node/node.go:144-169 | some schedule mines a block exactly when the template's DAG is cached or can be allocated and some nonce of the search range makes its proof of work valid |
| `Sealing.MinedBlockBecomesTip` | pkg/node/node.go:121-125 | mining end to end: the block mined on the current tip is accepted later and becomes the tip |
| `Sealing.GenesisIsAccepted` | pkg/types/types.go:104-111 | a sealed genesis is accepted by others exactly when its target is nonzero and its time is not too far ahead |
| `Sealing.GenesisMeans` | pkg/types/types.go:104-111 | a genesis is empty, on the zero hash, with the configured time and target, the initial size, the seed of epoch zero and the hashes of the configured texts |
| `Sealing.GenesisByEitherRoute` | pkg/node/node.go:84-102 | initialising genesis and receiving it from a peer end in the same state |
| `Words.RotlMovesBits` | opencl_kernel.cl:51-53 | rotl64 moves each bit n places up, around the end |
| `KeccakTables.StopsAreTheWalk` | opencl_kernel.cl:27-30 | the lane table follows the walk of section 3.2.2 of FIPS 202 |
| `KeccakTables.OffsetsModulo64` | opencl_kernel.cl:22-25 | the rotation table is (k + 1)(k + 2) / 2 modulo 64 |
| `KeccakTables.OffsetOnTheWalk` | opencl_kernel.cl:22-25 | which is the offset section 3.2.2 gives the lane of step k |
| `KeccakTables.RndcIsRoundConstant` | opencl_kernel.cl:7-20 | each of the 24 constants is the one section 3.2.5 derives from its shift register |
| `Keccak.ThetaStep` | opencl_kernel.cl:92-96 | the in-place step gives every lane its column mask |
| `Keccak.ThetaIsTheta` | opencl_kernel.cl:92-96 | which is theta of section 3.2.1 on all 1600 bits |
| `Keccak.RhoPiStep` | opencl_kernel.cl:97-103 | the walk with one temporary sends every lane, rotated, to the next one |
| `Keccak.WalkedIsRhoPi` | opencl_kernel.cl:97-103 | which is the simultaneous rho, then pi, of sections 3.2.2 and 3.2.3, for all states |
| `Keccak.ChiStep` | opencl_kernel.cl:104-107 | the in-place step replaces every row |
| `Keccak.ChiIsChi` | opencl_kernel.cl:104-107 | which is chi of section 3.2.4 |
| `Keccak.IotaIsIota` | opencl_kernel.cl:108-108 | the constant's XOR is iota of section 3.2.5 |
| `Keccak.KeccakF` | opencl_kernel.cl:89-110 | the in-place permutation is Keccak-f[1600] of sections 3.3 and 3.4, for all states |
| `Sha3.Load64` | opencl_kernel.cl:59-63 | the loaded word is the eight bytes' bits, lowest first |
| `Sha3.Store64` | opencl_kernel.cl:69-71 | the stored bytes are the word's bits, the rest of the buffer untouched |
| `Sha3.AbsorbBlock` | opencl_kernel.cl:118-121 | a block is XORed into the first 576 bits of the state |
| `Sha3.LastBlock` | opencl_kernel.cl:123-126 | the filled buffer is the rest of the message, 0x06, zeros and 0x80, or 0x86 when both meet |
| `Sha3.FinalBlockIsPadding` | opencl_kernel.cl:123-126 | for every message length those bytes are the suffix 01 and the pad10*1 padding of section 5.1 |
| `Sha3.Sha3_512` | opencl_kernel.cl:112-130 | for every message length the digest is SHA3-512 of section 6.1 |
| `Sha3.DigestIsUnique` | opencl_kernel.cl:112-130 | that contract leaves exactly one digest |

## Left out

- Unconditional tip optimality for unsynchronised calls of InsertBlock: the code does not provide it; `Interleaving.TipIsBestUnlessMovedBack` says exactly when it holds.
- The MineResult fields for hash counts and rates of the concurrent search, and Benchmark: counters and clocks only.
- Version-2 hashing through the CPU table, the unified view and the raw buffer: `LatticeHash` recognises only a DAG there, and strict configuration refuses those backends.
- `Backends.HashEveryWay`: for specs of version below 2, for the same reason.
- Running out of memory: a Go slice is taken to be allocated; in the source the process ends otherwise.
- The allocator's name-based reuse verdict (`canValidationReuseMiningDAG`): a flag of the allocator, one branch per name.
- The reading methods of the disk store: they are those of the in-memory store.
- Reopening after failed flushes: the file is then the last one a flush completed, an earlier state of the same run, for which the same invariants were proved.
- Durability below the file system (lost or reordered writes after a rename): a completed rename is taken as durable.
- JSON syntax: a snapshot value and its text are taken as interchangeable; only hashes, heights and works are converted, and block bodies are carried as values.
- Locks inside one store operation, and the lock around one cache lookup: each operation is taken as atomic, as the mutexes make it. `DagCache` runs operations one after another; `DagRaces` has the overlap of hashing with the rest.
- What a hash on a closed DAG does (slicing a missing buffer panics, and device memory may be gone): `DagRaces` says only when it happens.
- Mining backends other than the consensus one while sealing: their Prepare may fail, and the search is modelled with the consensus hash.
- TCP transport, peer sets, message dispatch, logging, timers and the Run loop: only their calls into store and validator are kept.
- CUDA, OpenCL and Metal runtimes, allocator strategies, the kernel's BLAKE3 and lattice loop, and the empty version-2 kernels.
- SHA3, Keccak, BLAKE3 and SHA-256 as the Go libraries compute them: parameters.
- The ComputePrecision field of a spec: nothing reads it.
- Flag parsing, console output and ParseTargetHex.
