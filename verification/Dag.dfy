/** The DAG: node contents as functions of the index, and the allocation that holds them (colossusx/dag.go). */
module DagNodes {
  import opened Bytes
  import opened DagSpec

  /** keccak512(seed ++ le64(i)); dag_stateless.go computes the same on demand. */
  function ResearchNode(c: Crypto, seed: seq<byte>, i: uint64): Bytes64 {
    c.keccak512(seed + LittleEndian(i, 8))
  }

  /** The first 64 bytes of blake3(seed ++ le64(i)). */
  function StrictNode(c: Crypto, seed: seq<byte>, i: uint64): Bytes64 {
    c.blake3Xof64(seed + LittleEndian(i, 8))
  }

  /** Only the mode "strict" selects tensor nodes; an unset mode does not. */
  function NodeAt(c: Crypto, mode: Mode, seed: seq<byte>, i: uint64): Bytes64 {
    if mode == Strict then StrictNode(c, seed, i) else ResearchNode(c, seed, i)
  }

  /** The whole table for an epoch. */
  function TableOf(c: Crypto, mode: Mode, seed: seq<byte>, count: uint64): (t: seq<Bytes64>)
    ensures |t| == count && forall i :: 0 <= i < count ==> t[i] == NodeAt(c, mode, seed, i)
  {
    seq(count, i requires 0 <= i < count => NodeAt(c, mode, seed, i))
  }

  /** A buffer read as consecutive 64-byte nodes. */
  function NodesIn(buf: seq<byte>, count: nat): (t: seq<Bytes64>)
    requires 64 * count <= |buf|
    ensures |t| == count && forall i :: 0 <= i < count ==> t[i] == buf[64 * i..64 * i + 64]
  {
    seq(count, i requires 0 <= i < count => buf[64 * i..64 * i + 64])
  }

  /** The byte at position p of an epoch's table. */
  function TableByte(c: Crypto, mode: Mode, seed: seq<byte>, p: nat): byte
    requires p / 64 < TWO_TO_THE_64
  {
    NodeAt(c, mode, seed, p / 64)[p % 64]
  }

  /** A buffer that is right byte by byte is right node by node. */
  lemma BytesMakeNodes(c: Crypto, mode: Mode, seed: seq<byte>, buf: seq<byte>, count: uint64)
    requires 64 * count <= |buf|
    requires forall p :: 0 <= p < 64 * count ==> buf[p] == TableByte(c, mode, seed, p)
    ensures NodesIn(buf, count) == TableOf(c, mode, seed, count)
  {
    forall i | 0 <= i < count
      ensures NodesIn(buf, count)[i] == TableOf(c, mode, seed, count)[i]
    {
      var node := buf[64 * i..64 * i + 64];
      forall j | 0 <= j < 64
        ensures node[j] == NodeAt(c, mode, seed, i)[j]
      {
        assert node[j] == buf[64 * i + j];
        assert (64 * i + j) / 64 == i && (64 * i + j) % 64 == j;
      }
    }
  }

  // ----- What a node is, without the functions above

  /** The input a node is hashed from: the seed, then the node's number in eight bytes, lowest first. */
  ghost predicate IsNodeInput(m: seq<byte>, seed: seq<byte>, i: int) {
    |m| == |seed| + 8 && m[..|seed|] == seed && LittleEndianValue(m[|seed|..]) == i
  }

  ghost predicate IsHashedNode(hash: seq<byte> -> Bytes64, seed: seq<byte>, i: int, node: seq<byte>) {
    exists m :: IsNodeInput(m, seed, i) && node == hash(m)
  }

  /** The buffer's first nodes are the hashes of their own numbers. */
  ghost predicate HoldsHashedNodes(hash: seq<byte> -> Bytes64, seed: seq<byte>, buf: seq<byte>, count: nat)
    requires 64 * count <= |buf|
  {
    forall i :: 0 <= i < count ==> IsHashedNode(hash, seed, i, buf[64 * i..64 * i + 64])
  }

  lemma CounterInput(seed: seq<byte>, i: uint64)
    ensures IsNodeInput(seed + LittleEndian(i, 8), seed, i)
  {
    hide LittleEndian;
    hide LittleEndianValue;
    WordBytes(i, 8);
    var m := seed + LittleEndian(i, 8);
    assert m[..|seed|] == seed && m[|seed|..] == LittleEndian(i, 8);
  }

  /** Research nodes are Keccak hashes of the numbered seed, strict ones the first 64 bytes of its BLAKE3 output. */
  lemma NodesAreHashed(c: Crypto, mode: Mode, seed: seq<byte>, i: uint64)
    ensures mode != Strict ==> IsHashedNode(c.keccak512, seed, i, NodeAt(c, mode, seed, i))
    ensures mode == Strict ==> IsHashedNode(c.blake3Xof64, seed, i, NodeAt(c, mode, seed, i))
  {
    hide IsNodeInput;
    CounterInput(seed, i);
  }

  lemma TableIsHashed(c: Crypto, mode: Mode, seed: seq<byte>, buf: seq<byte>, count: uint64)
    requires 64 * count <= |buf| && NodesIn(buf, count) == TableOf(c, mode, seed, count)
    ensures mode != Strict ==> HoldsHashedNodes(c.keccak512, seed, buf, count)
    ensures mode == Strict ==> HoldsHashedNodes(c.blake3Xof64, seed, buf, count)
  {
    hide IsHashedNode;
    hide NodeAt;
    forall i | 0 <= i < count
      ensures mode != Strict ==> IsHashedNode(c.keccak512, seed, i, buf[64 * i..64 * i + 64])
      ensures mode == Strict ==> IsHashedNode(c.blake3Xof64, seed, i, buf[64 * i..64 * i + 64])
    {
      NodesAreHashed(c, mode, seed, i);
      assert NodesIn(buf, count)[i] == TableOf(c, mode, seed, count)[i];
    }
  }

  /** No two inputs of this length hash alike. */
  ghost predicate InjectiveOn(hash: seq<byte> -> Bytes64, length: nat) {
    forall x, y :: |x| == length && |y| == length && hash(x) == hash(y) ==> x == y
  }

  /** Where the hash is injective on numbered seeds, the nodes are pairwise distinct. */
  lemma NodesAreDistinct(hash: seq<byte> -> Bytes64, seed: seq<byte>, buf: seq<byte>, count: nat, i: nat, j: nat)
    requires 64 * count <= |buf| && HoldsHashedNodes(hash, seed, buf, count) && InjectiveOn(hash, |seed| + 8)
    requires i < j < count
    ensures buf[64 * i..64 * i + 64] != buf[64 * j..64 * j + 64]
  {
    var (x, y) := (buf[64 * i..64 * i + 64], buf[64 * j..64 * j + 64]);
    assert IsHashedNode(hash, seed, i, x) && IsHashedNode(hash, seed, j, y);
    var m :| IsNodeInput(m, seed, i) && x == hash(m);
    var n :| IsNodeInput(n, seed, j) && y == hash(n);
  }
}

/** Filling the DAG with one goroutine per range, under an arbitrary scheduler. */
module DagGeneration {
  import opened Bytes
  import opened DagSpec
  import opened DagNodes

  datatype Outcome = Filled | InvalidSpec | EmptySeed | TooSmall | NotStrict | OutOfRange

  /** One goroutine's share: it writes bytes `next` up to `end`. */
  datatype Range = Range(start: nat, next: nat, end: nat)

  /** Ranges in order, each within the table, together covering it without overlap. */
  ghost predicate Partition(ranges: seq<Range>, size: nat) {
    && (forall w :: 0 <= w < |ranges| ==> ranges[w].start <= ranges[w].next <= ranges[w].end <= size)
    && (forall w :: 0 <= w < |ranges| - 1 ==> ranges[w].end == ranges[w + 1].start)
    && (if ranges == [] then size == 0 else ranges[0].start == 0 && ranges[|ranges| - 1].end == size)
  }

  lemma {:induction false} PartitionIsOrdered(ranges: seq<Range>, size: nat, v: nat, w: nat)
    requires Partition(ranges, size) && v < w < |ranges|
    ensures ranges[v].end <= ranges[w].start
    decreases w - v
  {
    if v + 1 < w {
      PartitionIsOrdered(ranges, size, v + 1, w);
    }
  }

  ghost predicate Covered(ranges: seq<Range>, p: nat) {
    exists v :: 0 <= v < |ranges| && ranges[v].start <= p < ranges[v].end
  }

  /** Every position belongs to some range. */
  lemma {:induction false} PartitionCovers(ranges: seq<Range>, size: nat, p: nat, w: nat)
    requires Partition(ranges, size) && p < size && w < |ranges| && p < ranges[w].end
    ensures Covered(ranges, p)
    decreases w
  {
    if p < ranges[w].start {
      PartitionCovers(ranges, size, p, w - 1);
    }
  }

  /** Nodes per worker. */
  function ChunkSize(nodeCount: nat, workers: nat): (chunk: nat)
    requires workers > 0
    ensures chunk > 0
  {
    if nodeCount / workers == 0 then 1 else nodeCount / workers
  }

  lemma ChunkSizeIs(nodeCount: nat, workers: nat, chunk: nat)
    requires workers > 0 && chunk == if nodeCount / workers == 0 then 1 else nodeCount / workers
    ensures chunk == ChunkSize(nodeCount, workers)
  {
  }

  /** No chunk boundary of any worker reaches 2^64. */
  ghost predicate ChunksFit(nodeCount: nat, workers: nat)
    requires workers > 0
  {
    forall w {:trigger Times(w, ChunkSize(nodeCount, workers))} :: 0 <= w < workers ==>
      Times(w, ChunkSize(nodeCount, workers)) + ChunkSize(nodeCount, workers) < TWO_TO_THE_64
  }

  /**
   * The launch loop: the ranges cover the table and are pairwise disjoint, and they are the shares of exact
   * arithmetic, because no uint64 product or sum in the loop wraps.
   */
  method PartitionNodes(nodeCount: uint64, workers: uint64) returns (ranges: seq<Range>)
    requires workers > 0 && 64 * nodeCount < TWO_TO_THE_64
    ensures Partition(ranges, 64 * nodeCount)
    ensures forall v, w :: 0 <= v < w < |ranges| ==> ranges[v].end <= ranges[w].start
    ensures forall p :: 0 <= p < 64 * nodeCount ==> Covered(ranges, p)
    ensures forall w :: 0 <= w < |ranges| ==> ranges[w] == Share(w, ChunkSize(nodeCount, workers), workers, nodeCount)
    ensures ChunksFit(nodeCount, workers)
  {
    hide Times;
    hide Partition;
    hide Covered;
    hide ChunksFit;
    hide ChunkSize;
    hide Wrap64;
    QuotientFits(nodeCount, workers);
    var chunk: uint64 := nodeCount / workers;
    if chunk == 0 {
      chunk := 1;
    }
    assert chunk == ChunkSize(nodeCount, workers) by {
      ChunkSizeIs(nodeCount, workers, chunk);
    }
    ranges := [];
    var w: uint64 := 0;
    while w < workers
      invariant w <= workers && |ranges| == w
      invariant forall v {:trigger ranges[v]} :: 0 <= v < w ==> ranges[v] == Share(v, chunk, workers, nodeCount)
      invariant forall v {:trigger Times(v, chunk)} :: 0 <= v < w ==> Times(v, chunk) < nodeCount
    {
      RangeBounds(nodeCount, workers, w);
      var from := Wrap64(Times(w, chunk));
      var to := Wrap64(from + chunk);
      if w == workers - 1 || to > nodeCount {
        to := nodeCount;
      }
      if from >= nodeCount {
        break;
      }
      ranges := ranges + [Range(64 * from, 64 * from, 64 * to)];
      w := w + 1;
    }
    SharesPartition(ranges, chunk, workers, nodeCount);
    DisjointCover(ranges, 64 * nodeCount);
    NoChunkWraps(nodeCount, workers);
  }

  lemma DisjointCover(ranges: seq<Range>, size: nat)
    requires Partition(ranges, size)
    ensures forall v, w :: 0 <= v < w < |ranges| ==> ranges[v].end <= ranges[w].start
    ensures forall p :: 0 <= p < size ==> Covered(ranges, p)
  {
    forall v, w | 0 <= v < w < |ranges|
      ensures ranges[v].end <= ranges[w].start
    {
      PartitionIsOrdered(ranges, size, v, w);
    }
    forall p | 0 <= p < size
      ensures Covered(ranges, p)
    {
      PartitionCovers(ranges, size, p, |ranges| - 1);
    }
  }

  lemma NoChunkWraps(nodeCount: uint64, workers: uint64)
    requires workers > 0
    ensures ChunksFit(nodeCount, workers)
  {
    hide Times;
    hide ChunkSize;
    forall w | 0 <= w < workers
      ensures Times(w, ChunkSize(nodeCount, workers)) + ChunkSize(nodeCount, workers) < TWO_TO_THE_64
    {
      RangeBounds(nodeCount, workers, w);
    }
  }

  /** The shares handed out before the loop stops make up the whole table, without overlap. */
  lemma SharesPartition(ranges: seq<Range>, chunk: nat, workers: nat, nodeCount: nat)
    requires 0 < workers && |ranges| <= workers && chunk > 0
    requires forall v {:trigger ranges[v]} :: 0 <= v < |ranges| ==> ranges[v] == Share(v, chunk, workers, nodeCount)
    requires forall v {:trigger Times(v, chunk)} :: 0 <= v < |ranges| ==> Times(v, chunk) < nodeCount
    requires |ranges| < workers ==> Times(|ranges|, chunk) >= nodeCount
    ensures Partition(ranges, 64 * nodeCount)
  {
    assert Times(0, chunk) == 0;
    forall v | 0 <= v < |ranges|
      ensures ranges[v].start <= ranges[v].next <= ranges[v].end <= 64 * nodeCount
    {
      assert Times(v, chunk) < nodeCount;
    }
    forall v | 0 <= v < |ranges| - 1
      ensures ranges[v].end == ranges[v + 1].start
    {
      NextTimes(v, chunk);
      assert Times(v + 1, chunk) < nodeCount;
    }
    if ranges != [] {
      NextTimes(|ranges| - 1, chunk);
    }
  }

  lemma NextTimes(v: nat, chunk: nat)
    ensures Times(v, chunk) + chunk == Times(v + 1, chunk)
  {
  }

  function Times(a: nat, b: nat): nat { a * b }

  /** Worker v's share of the table, in exact arithmetic. */
  function Share(v: nat, chunk: nat, workers: nat, nodeCount: nat): Range {
    var from := Times(v, chunk);
    Range(64 * from, 64 * from, 64 * if v == workers - 1 || from + chunk > nodeCount then nodeCount else from + chunk)
  }

  /** No chunk product or sum reaches 2^64. */
  lemma RangeBounds(nodeCount: nat, workers: nat, w: nat)
    requires w < workers < TWO_TO_THE_64 && nodeCount < TWO_TO_THE_64
    ensures Times(w, ChunkSize(nodeCount, workers)) + ChunkSize(nodeCount, workers) < TWO_TO_THE_64
  {
    var q := nodeCount / workers;
    if q > 0 {
      assert nodeCount == workers * q + nodeCount % workers;
      ProductMonotone(w + 1, workers, q);
    }
  }

  function Remaining(ranges: seq<Range>): int {
    if ranges == [] then 0 else ranges[0].end - ranges[0].next + Remaining(ranges[1..])
  }

  lemma {:induction false} RemainingAfterWrite(ranges: seq<Range>, w: nat)
    requires w < |ranges|
    ensures Remaining(ranges[w := ranges[w].(next := ranges[w].next + 1)]) == Remaining(ranges) - 1
  {
    var after := ranges[w := ranges[w].(next := ranges[w].next + 1)];
    if w == 0 {
      assert after[1..] == ranges[1..];
    } else {
      assert after[1..] == ranges[1..][w - 1 := after[w]];
      RemainingAfterWrite(ranges[1..], w - 1);
    }
  }

  lemma {:induction false} RemainingNonNegative(ranges: seq<Range>)
    requires forall w :: 0 <= w < |ranges| ==> ranges[w].next <= ranges[w].end
    ensures Remaining(ranges) >= 0
  {
    if ranges != [] {
      RemainingNonNegative(ranges[1..]);
    }
  }

  /** Every written byte is right, everything past the table untouched. */
  ghost predicate Progress(c: Crypto, seed: seq<byte>, buf: seq<byte>, before: seq<byte>, ranges: seq<Range>, size: nat)
  {
    && |buf| == |before| && size <= |buf| && size / 64 < TWO_TO_THE_64
    && (forall p :: size <= p < |buf| ==> buf[p] == before[p])
    && (forall w, p :: 0 <= w < |ranges| && ranges[w].start <= p < ranges[w].next && p < size ==>
          buf[p] == TableByte(c, Research, seed, p))
  }

  /**
   * Runs all the goroutines: any of them that has bytes left may write its next one.  Whatever the schedule,
   * the table ends as the pure function of the index.
   */
  method FillConcurrently(c: Crypto, dag: array<byte>, seed: seq<byte>, nodeCount: uint64, start: seq<Range>)
    requires 64 * nodeCount <= dag.Length && 64 * nodeCount < TWO_TO_THE_64
    requires Partition(start, 64 * nodeCount) && forall w :: 0 <= w < |start| ==> start[w].next == start[w].start
    modifies dag
    ensures HoldsHashedNodes(c.keccak512, seed, dag[..], nodeCount)
    ensures NodesIn(dag[..], nodeCount) == TableOf(c, Research, seed, nodeCount)
    ensures forall p :: 64 * nodeCount <= p < dag.Length ==> dag[p] == old(dag[p])
  {
    hide Partition;
    hide Progress;
    hide HoldsHashedNodes;
    var ranges := start;
    ghost var before := dag[..];
    var size := 64 * nodeCount;
    NothingWritten(c, seed, before, ranges, size);
    while exists w :: 0 <= w < |ranges| && ranges[w].next < ranges[w].end
      invariant Partition(ranges, size)
      invariant Progress(c, seed, dag[..], before, ranges, size)
      decreases Remaining(ranges)
    {
      var w :| 0 <= w < |ranges| && ranges[w].next < ranges[w].end;
      var p := ranges[w].next;
      RangeInTable(ranges, size, w);
      var node := ResearchNode(c, seed, p / 64);
      ghost var was := dag[..];
      dag[p] := node[p % 64];
      WriteMakesProgress(c, seed, was, dag[..], before, ranges, size, w);
      RemainingAfterWrite(ranges, w);
      ranges := ranges[w := ranges[w].(next := p + 1)];
    }
    TableIsWritten(c, seed, dag[..], before, ranges, nodeCount);
    TableIsHashed(c, Research, seed, dag[..], nodeCount);
  }

  lemma RangeInTable(ranges: seq<Range>, size: nat, w: nat)
    requires Partition(ranges, size) && w < |ranges|
    ensures ranges[w].next <= ranges[w].end <= size && Remaining(ranges) >= 0
  {
    RemainingNonNegative(ranges);
  }

  lemma NothingWritten(c: Crypto, seed: seq<byte>, before: seq<byte>, ranges: seq<Range>, size: nat)
    requires size <= |before| && size / 64 < TWO_TO_THE_64
    requires forall w :: 0 <= w < |ranges| ==> ranges[w].next == ranges[w].start
    ensures Progress(c, seed, before, before, ranges, size)
  {
  }

  /** When every goroutine has finished, the buffer holds the table and is otherwise what it was. */
  lemma TableIsWritten(c: Crypto, seed: seq<byte>, buf: seq<byte>, before: seq<byte>, ranges: seq<Range>,
                       nodeCount: uint64)
    requires Partition(ranges, 64 * nodeCount) && Progress(c, seed, buf, before, ranges, 64 * nodeCount)
    requires forall w :: 0 <= w < |ranges| ==> ranges[w].next >= ranges[w].end
    ensures NodesIn(buf, nodeCount) == TableOf(c, Research, seed, nodeCount)
    ensures |buf| == |before| && forall p :: 64 * nodeCount <= p < |buf| ==> buf[p] == before[p]
  {
    forall p | 0 <= p < 64 * nodeCount
      ensures buf[p] == TableByte(c, Research, seed, p)
    {
      PartitionCovers(ranges, 64 * nodeCount, p, |ranges| - 1);
    }
    BytesMakeNodes(c, Research, seed, buf, nodeCount);
  }

  /** One write extends one range's progress and hits no other range. */
  lemma WriteMakesProgress(c: Crypto, seed: seq<byte>, was: seq<byte>, buf: seq<byte>, before: seq<byte>,
                           ranges: seq<Range>, size: nat, w: nat)
    requires Partition(ranges, size) && w < |ranges| && ranges[w].next < ranges[w].end && size / 64 < TWO_TO_THE_64
    requires size <= |buf| == |before|
    requires buf[ranges[w].next] == TableByte(c, Research, seed, ranges[w].next)
    requires Progress(c, seed, was, before, ranges, size) && buf == was[ranges[w].next := buf[ranges[w].next]]
    ensures var after := ranges[w := ranges[w].(next := ranges[w].next + 1)];
            Partition(after, size) && Progress(c, seed, buf, before, after, size)
  {
  }

  /**
   * GenerateDAG on the slice buf[..len] of capacity buf.Length.  `cpus` stands for runtime.NumCPU().  A spec that
   * states an initial size but no current size asks for more nodes than its length check covers.  The goroutines
   * slice up to the capacity, so they may write past the length, and a smaller capacity makes one of them panic,
   * which ends the process: OutOfRange.
   */
  method GenerateDAG(c: Crypto, spec: Spec, buf: array<byte>, len: nat, seed: seq<byte>, workers: int, cpus: nat)
    returns (r: Outcome)
    requires len <= buf.Length && 0 < cpus < TWO_TO_THE_64 && workers < TWO_TO_THE_64
    modifies buf
    ensures r == InvalidSpec <==> !spec.Valid()
    ensures r == EmptySeed <==> spec.Valid() && seed == []
    ensures r == TooSmall <==> spec.Valid() && seed != [] && len < spec.dagSizeBytes
    ensures r == OutOfRange <==>
      spec.Valid() && seed != [] && spec.dagSizeBytes == 0 && buf.Length < spec.InitialDagSize()
    ensures r != NotStrict && (r != Filled && r != OutOfRange ==> buf[..] == old(buf[..]))
    ensures r == Filled ==> 64 * spec.NodeCount() <= buf.Length
    ensures r == Filled ==> HoldsHashedNodes(c.keccak512, seed, buf[..], spec.NodeCount())
    ensures r == Filled ==> NodesIn(buf[..], spec.NodeCount()) == TableOf(c, Research, seed, spec.NodeCount())
    ensures r == Filled ==> forall p :: 64 * spec.NodeCount() <= p < buf.Length ==> buf[p] == old(buf[p])
  {
    if !spec.Valid() {
      return InvalidSpec;
    }
    if seed == [] {
      return EmptySeed;
    }
    if len < spec.dagSizeBytes {
      return TooSmall;
    }
    var nodeCount := spec.NodeCount();
    if buf.Length < 64 * nodeCount {
      return OutOfRange;
    }
    var ranges := PartitionNodes(nodeCount, if workers <= 0 then cpus else workers);
    FillConcurrently(c, buf, seed, nodeCount, ranges);
    return Filled;
  }

  /** Tiles GenerateTensorDAG writes: whole nodes that fit the slice and start before the DAG's end. */
  function TilesWritten(len: nat, size: nat): nat {
    if len / 64 < (size + 63) / 64 then len / 64 else (size + 63) / 64
  }

  /** GenerateTensorDAG on the slice buf[..len]: one loop over the tiles. */
  method GenerateTensorDAG(c: Crypto, spec: Spec, buf: array<byte>, len: nat, seed: seq<byte>) returns (r: Outcome)
    requires len <= buf.Length && len < TWO_TO_THE_64
    modifies buf
    ensures r == InvalidSpec <==> !spec.Valid()
    ensures r == NotStrict <==> spec.Valid() && spec.mode != Strict
    ensures r == Filled <==> spec.Valid() && spec.mode == Strict
    ensures r != Filled ==> buf[..] == old(buf[..])
    ensures r == Filled ==> var n := TilesWritten(len, spec.dagSizeBytes);
      && HoldsHashedNodes(c.blake3Xof64, seed, buf[..], n)
      && NodesIn(buf[..], n) == TableOf(c, Strict, seed, n)
      && forall p :: 64 * n <= p < buf.Length ==> buf[p] == old(buf[p])
  {
    if !spec.Valid() {
      return InvalidSpec;
    }
    if spec.mode != Strict {
      return NotStrict;
    }
    var off, tile := 0, 0;
    while off + 64 <= len && off < spec.dagSizeBytes
      invariant off == 64 * tile <= len && tile <= TilesWritten(len, spec.dagSizeBytes)
      invariant forall p :: 0 <= p < off ==> buf[p] == TableByte(c, Strict, seed, p)
      invariant forall p :: off <= p < buf.Length ==> buf[p] == old(buf[p])
      decreases len - off
    {
      var node := StrictNode(c, seed, tile);
      forall j | 0 <= j < 64 {
        buf[off + j] := node[j];
      }
      TileBytes(c, seed, tile);
      off, tile := off + 64, tile + 1;
    }
    BytesMakeNodes(c, Strict, seed, buf[..], tile);
    TableIsHashed(c, Strict, seed, buf[..], tile);
    return Filled;
  }

  lemma TileBytes(c: Crypto, seed: seq<byte>, tile: uint64)
    requires 64 * tile + 63 < TWO_TO_THE_64
    ensures forall p :: 64 * tile <= p < 64 * tile + 64 ==>
      TableByte(c, Strict, seed, p) == StrictNode(c, seed, tile)[p - 64 * tile]
  {
    forall p | 64 * tile <= p < 64 * tile + 64
      ensures TableByte(c, Strict, seed, p) == StrictNode(c, seed, tile)[p - 64 * tile]
    {
      assert p / 64 == tile && p % 64 == p - 64 * tile;
    }
  }
}

/** Allocations and the DAG objects that own them. */
module DagObjects {
  import opened Bytes
  import opened DagSpec
  import opened DagNodes
  import opened DagGeneration

  class Allocation {
    const buf: array<byte>
    var frees: nat

    constructor (n: nat)
      ensures buf.Length == n && frees == 0 && fresh(buf)
    {
      buf := new byte[n];
      frees := 0;
    }

    method Free()
      modifies this
      ensures frees == old(frees) + 1
    {
      frees := frees + 1;
    }
  }

  class Dag {
    const spec: Spec
    var alloc: Allocation?
    var ownership: bool

    /** Open, not yet freed, and large enough for its stated size. */
    ghost predicate Usable()
      reads this, alloc
    {
      && alloc != null && alloc.frees == 0
      && spec.Valid() && 0 < spec.dagSizeBytes <= alloc.buf.Length
    }

    ghost function Nodes(): (t: seq<Bytes64>)
      requires Usable()
      reads this, alloc, if alloc == null then null else alloc.buf
      ensures |t| == spec.NodeCount()
    {
      NodesIn(alloc.buf[..], spec.NodeCount())
    }

    /** How many bytes the DAG's slice can reach; none once it is closed. */
    function Capacity(): nat
      reads this
    {
      if alloc == null then 0 else alloc.buf.Length
    }

    constructor (spec: Spec, alloc: Allocation, ownership: bool)
      ensures this.spec == spec && this.alloc == alloc && this.ownership == ownership
    {
      this.spec, this.alloc, this.ownership := spec, alloc, ownership;
    }

    method ReadNode(i: uint64) returns (node: Bytes64)
      requires Usable() && i < spec.NodeCount()
      ensures node == Nodes()[i]
    {
      var off := i * spec.nodeSize;
      node := alloc.buf[off..off + 64];
      assert alloc.buf[..][64 * i..64 * i + 64] == node;
    }

    /** Frees an owned allocation once; closing again does nothing. */
    method Close()
      modifies this, alloc
      ensures old(alloc) != null && old(ownership) ==>
        alloc == null && !ownership && old(alloc).frees == old(alloc.frees) + 1
      ensures old(alloc) == null || !old(ownership) ==>
        alloc == old(alloc) && ownership == old(ownership) && (alloc != null ==> alloc.frees == old(alloc.frees))
    {
      if alloc == null || !ownership {
        return;
      }
      alloc.Free();
      alloc := null;
      ownership := false;
    }
  }

  /**
   * PopulateDAG on any DAG.  A closed DAG has no bytes, and no DAG shows more bytes than its spec states, though
   * the slice keeps the allocation's capacity.  On a usable DAG the nodes end as the table of its mode and seed.
   */
  method PopulateDAG(c: Crypto, dag: Dag, seed: seq<byte>, workers: int, cpus: nat) returns (r: Outcome)
    requires 0 < cpus < TWO_TO_THE_64 && workers < TWO_TO_THE_64
    modifies if dag.alloc == null then {} else {dag.alloc.buf}
    ensures r == InvalidSpec <==> !dag.spec.Valid()
    ensures dag.spec.Valid() && dag.spec.mode == Strict ==> r == Filled
    ensures dag.spec.Valid() && dag.spec.mode != Strict ==>
      r == if seed == [] then EmptySeed
           else if dag.Capacity() < dag.spec.dagSizeBytes then TooSmall
           else if dag.spec.dagSizeBytes == 0 && dag.Capacity() < dag.spec.InitialDagSize() then OutOfRange
           else Filled
    ensures old(dag.Usable()) ==> dag.Usable()
    ensures dag.Usable() && r == Filled ==> dag.Nodes() == TableOf(c, dag.spec.mode, seed, dag.spec.NodeCount())
    ensures dag.Usable() && r == Filled ==>
      HoldsHashedNodes(if dag.spec.mode == Strict then c.blake3Xof64 else c.keccak512, seed,
                       dag.alloc.buf[..], dag.spec.NodeCount())
    ensures dag.alloc != null && dag.spec.mode != Strict && r == Filled ==>
      && 64 * dag.spec.NodeCount() <= dag.alloc.buf.Length
      && NodesIn(dag.alloc.buf[..], dag.spec.NodeCount()) == TableOf(c, Research, seed, dag.spec.NodeCount())
    ensures dag.alloc != null && dag.spec.mode == Strict && dag.spec.dagSizeBytes == 0 ==>
      dag.alloc.buf[..] == old(dag.alloc.buf[..])
  {
    var buf := new byte[0];
    if dag.alloc != null {
      buf := dag.alloc.buf;
    }
    var len := if buf.Length < dag.spec.dagSizeBytes then buf.Length else dag.spec.dagSizeBytes;
    if dag.spec.mode == Strict {
      r := GenerateTensorDAG(c, dag.spec, buf, len, seed);
    } else {
      r := GenerateDAG(c, dag.spec, buf, len, seed, workers, cpus);
      if r == Filled {
        SameResearchTable(c, dag.spec.mode, seed, dag.spec.NodeCount());
      }
    }
  }

  lemma SameResearchTable(c: Crypto, mode: Mode, seed: seq<byte>, count: uint64)
    requires mode != Strict
    ensures TableOf(c, mode, seed, count) == TableOf(c, Research, seed, count)
  {
    forall i | 0 <= i < count
      ensures NodeAt(c, mode, seed, i) == NodeAt(c, Research, seed, i)
    {
    }
  }
}
