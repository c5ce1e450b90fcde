/** The host backends and the tableless verifier: different ways to one hash. */
module Backends {
  import opened Bytes
  import opened DagSpec
  import opened DagNodes
  import opened DagObjects
  import opened Accessors
  import opened StrictHash
  import opened LatticeHash
  import opened Work
  import opened Miner

  /** How many nonces of a batch exist before the 64-bit nonce space ends. */
  function BatchLength(start: uint64, count: uint64): nat {
    if start + count <= TWO_TO_THE_64 then count else TWO_TO_THE_64 - start
  }

  /** A batch is the pointwise hash of consecutive nonces. */
  ghost predicate IsBatch(c: Crypto, spec: Spec, header: seq<byte>, start: uint64, count: uint64, table: seq<Bytes64>,
                          results: seq<HashResult>)
  {
    && |results| == BatchLength(start, count)
    && forall i :: 0 <= i < |results| ==> results[i] == LatticeHashOf(c, spec, header, Some(start + i), table)
  }

  // ----- CPU backend: a private copy of the node table

  class CpuBackend {
    var spec: Spec
    var nodes: array<Bytes64>

    constructor (spec: Spec)
      ensures nodes.Length == 0 && fresh(nodes)
    {
      this.spec := spec;
      nodes := new Bytes64[0];
    }

    /** The table a hash on this DAG will use: the prepared copy if there is one, else the DAG's own nodes. */
    ghost function TableFor(dag: Dag): seq<Bytes64>
      requires dag.Usable()
      reads this, nodes, dag, dag.alloc, if dag.alloc == null then null else dag.alloc.buf
    {
      if nodes.Length > 0 then nodes[..] else dag.Nodes()
    }

    ghost function SpecFor(dag: Dag): Spec
      reads this, nodes
    {
      if nodes.Length > 0 then spec else dag.spec
    }

    method Prepare(dag: Dag)
      requires dag.Usable()
      modifies this
      ensures spec == dag.spec && nodes[..] == dag.Nodes() && fresh(nodes)
    {
      spec := dag.spec;
      var count := dag.spec.NodeCount();
      var copied := new Bytes64[count](i => Zeros(64));
      for i := 0 to count
        invariant spec == dag.spec && dag.Usable() && copied[..i] == dag.Nodes()[..i]
      {
        var node := dag.ReadNode(i);
        copied[i] := node;
      }
      assert copied[..] == copied[..count] == dag.Nodes()[..count] == dag.Nodes();
      nodes := copied;
    }

    method Hash(c: Crypto, header: seq<byte>, nonce: Option<uint64>, dag: Dag, scratch: HashScratch)
      returns (out: HashResult)
      requires dag.Usable() && scratch.Valid() && nodes.Length < TWO_TO_THE_64
      requires scratch.Repr() !! {this as object, nodes} + Footprint(FromDag(dag)) && this !in Footprint(FromDag(dag))
      modifies this, scratch.Repr()
      ensures scratch.Valid() && fresh(scratch.Repr() - old(scratch.Repr()))
      ensures out == LatticeHashOf(c, old(SpecFor(dag)), header, nonce, old(TableFor(dag)))
      ensures nodes[..] == old(TableFor(dag)) && spec == old(SpecFor(dag)) && (nodes == old(nodes) || fresh(nodes))
    {
      hide LatticeHashOf;
      if nodes.Length == 0 {
        Prepare(dag);
      }
      out := LatticeHash.LatticeHash(c, spec, header, nonce, FromTable(nodes), scratch);
    }

    method HashBatch(c: Crypto, header: seq<byte>, start: uint64, count: uint64, dag: Dag, scratch: HashScratch)
      returns (results: seq<HashResult>)
      requires dag.Usable() && scratch.Valid() && nodes.Length < TWO_TO_THE_64
      requires scratch.Repr() !! {this as object, nodes} + Footprint(FromDag(dag)) && this !in Footprint(FromDag(dag))
      modifies this, scratch.Repr()
      ensures IsBatch(c, old(SpecFor(dag)), header, start, count, old(TableFor(dag)), results)
    {
      hide LatticeHashOf;
      ghost var table, theSpec := TableFor(dag), SpecFor(dag);
      results := [];
      var i: uint64 := 0;
      label loop:
      while i < count
        invariant i <= count && start + i <= TWO_TO_THE_64 && |results| == i
        invariant dag.Usable() && scratch.Valid() && nodes.Length < TWO_TO_THE_64
        invariant scratch.Repr() !! {this as object, nodes} + Footprint(FromDag(dag))
        invariant fresh(scratch.Repr() - old(scratch.Repr())) && (nodes == old(nodes) || fresh(nodes))
        invariant TableFor(dag) == table && SpecFor(dag) == theSpec
        invariant forall k :: 0 <= k < i ==> results[k] == LatticeHashOf(c, theSpec, header, Some(start + k), table)
      {
        var nonce := AddUint64(start, i);
        if nonce.None? {
          return;
        }
        var r := Hash(c, header, nonce, dag, scratch);
        results := results + [r];
        i := i + 1;
      }
    }
  }

  // ----- Unified backend: a view of the DAG's own bytes

  class UnifiedBackend {
    var spec: Spec
    var buf: array<byte>
    var size: nat
    var nodeCount: uint64

    constructor (spec: Spec)
      ensures nodeCount == 0
    {
      this.spec := spec;
      buf := new byte[0];
      size, nodeCount := 0, 0;
    }

    /** A view that reads nodes has the bytes for them. */
    predicate Valid()
      reads this
    {
      nodeCount > 0 ==> 64 * nodeCount <= size <= buf.Length
    }

    /** The table a hash on this DAG will use: the view's, whatever DAG it was prepared for, else the DAG's own. */
    ghost function TableFor(dag: Dag): seq<Bytes64>
      requires Valid() && dag.Usable()
      reads this, buf, dag, dag.alloc, if dag.alloc == null then null else dag.alloc.buf
    {
      if nodeCount > 0 then NodesIn(buf[..size], nodeCount) else dag.Nodes()
    }

    ghost function SpecFor(dag: Dag): Spec
      reads this
    {
      if nodeCount > 0 then spec else dag.spec
    }

    /** Afterwards the view covers exactly the DAG's bytes, in place. */
    method Prepare(dag: Dag)
      requires dag.Usable()
      modifies this
      ensures Valid() && spec == dag.spec && buf == dag.alloc.buf && size == dag.spec.dagSizeBytes
      ensures nodeCount == |dag.Nodes()| && NodesIn(buf[..size], nodeCount) == dag.Nodes()
    {
      spec, buf, size, nodeCount := dag.spec, dag.alloc.buf, dag.spec.dagSizeBytes, dag.spec.NodeCount();
      forall i | 0 <= i < nodeCount
        ensures NodesIn(buf[..size], nodeCount)[i] == dag.Nodes()[i]
      {
        assert buf[..size][64 * i..64 * i + 64] == dag.alloc.buf[..][64 * i..64 * i + 64];
      }
    }

    method Hash(c: Crypto, header: seq<byte>, nonce: Option<uint64>, dag: Dag, scratch: HashScratch)
      returns (out: HashResult)
      requires Valid() && dag.Usable() && scratch.Valid()
      requires scratch.Repr() !! {this as object, buf} + Footprint(FromDag(dag)) && this !in Footprint(FromDag(dag))
      modifies this, scratch.Repr()
      ensures Valid() && scratch.Valid() && fresh(scratch.Repr() - old(scratch.Repr()))
      ensures out == LatticeHashOf(c, old(SpecFor(dag)), header, nonce, old(TableFor(dag)))
      ensures TableFor(dag) == old(TableFor(dag)) && SpecFor(dag) == old(SpecFor(dag))
      ensures buf == if old(nodeCount) == 0 then dag.alloc.buf else old(buf)
    {
      hide LatticeHashOf;
      hide NodesIn;
      if nodeCount == 0 {
        Prepare(dag);
      }
      out := LatticeHash.LatticeHash(c, spec, header, nonce, FromBuffer(buf, size, nodeCount), scratch);
    }

    method HashBatch(c: Crypto, header: seq<byte>, start: uint64, count: uint64, dag: Dag, scratch: HashScratch)
      returns (results: seq<HashResult>)
      requires Valid() && dag.Usable() && scratch.Valid()
      requires scratch.Repr() !! {this as object, buf} + Footprint(FromDag(dag)) && this !in Footprint(FromDag(dag))
      modifies this, scratch.Repr()
      ensures IsBatch(c, old(SpecFor(dag)), header, start, count, old(TableFor(dag)), results)
    {
      hide LatticeHashOf;
      hide NodesIn;
      ghost var table, theSpec := TableFor(dag), SpecFor(dag);
      if nodeCount == 0 {
        Prepare(dag);
      }
      results := [];
      var i: uint64 := 0;
      while i < count
        invariant i <= count && start + i <= TWO_TO_THE_64 && |results| == i
        invariant Valid() && dag.Usable() && scratch.Valid()
        invariant Footprint(FromDag(dag)) == old(Footprint(FromDag(dag)))
        invariant scratch.Repr() !! {this as object, buf} + Footprint(FromDag(dag))
        invariant fresh(scratch.Repr() - old(scratch.Repr()))
        invariant TableFor(dag) == table && SpecFor(dag) == theSpec
        invariant forall k :: 0 <= k < i ==> results[k] == LatticeHashOf(c, theSpec, header, Some(start + k), table)
      {
        var nonce := AddUint64(start, i);
        if nonce.None? {
          return;
        }
        var r := Hash(c, header, nonce, dag, scratch);
        results := results + [r];
        i := i + 1;
      }
    }
  }

  // ----- Raw contiguous buffer: no scratch, no accessor

  datatype RawBuffer = RawBuffer(bytes: array<byte>, byteLen: nat, nodeSize: uint64, nodeCount: uint64)

  function NewRawContiguousBuffer(dag: Dag): (raw: RawBuffer)
    requires dag.Usable()
    reads dag, dag.alloc
    ensures raw.nodeSize == 64 && 64 * raw.nodeCount <= raw.byteLen <= raw.bytes.Length
  {
    RawBuffer(dag.alloc.buf, dag.spec.dagSizeBytes, dag.spec.nodeSize, dag.spec.NodeCount())
  }

  method LatticeHashSharedBuffer(c: Crypto, spec: Spec, header: seq<byte>, nonce: Option<uint64>, raw: RawBuffer)
    returns (out: HashResult)
    requires raw.nodeSize == 64 && 64 * raw.nodeCount <= raw.byteLen <= raw.bytes.Length
    ensures out == LatticeHashOf(c, spec, header, nonce, NodesIn(raw.bytes[..], raw.nodeCount))
  {
    hide MixRound;
    hide LittleEndian;
    if raw.nodeCount == 0 || raw.nodeSize == 0 || raw.byteLen == 0 {
      return ZeroResult();
    }
    ghost var table := NodesIn(raw.bytes[..], raw.nodeCount);
    var seed512 := c.sha3_512(SeedInput(header, nonce));
    var mix := seed512[..32];
    for r := 0 to spec.readsPerHash
      invariant mix == MixAfter(c, table, seed512[..32], r)
    {
      mix := RawMixStep(c, raw, mix, r);
    }
    var final512 := c.sha3_512(seed512 + mix);
    out := HashResult(final512[..32], final512);
  }

  method RawMixStep(c: Crypto, raw: RawBuffer, mix: Bytes32, r: uint64) returns (next: Bytes32)
    requires raw.nodeSize == 64 && 0 < 64 * raw.nodeCount <= raw.byteLen <= raw.bytes.Length
    ensures next == MixRound(c, NodesIn(raw.bytes[..], raw.nodeCount), mix, r)
  {
    hide Fnv1a64;
    hide RoundInput;
    var fnvInput := new byte[40];
    var h := HashIndex(fnvInput, mix, r);
    var off := h % raw.nodeCount * raw.nodeSize;
    var node := raw.bytes[off..off + 64];
    assert node == NodesIn(raw.bytes[..], raw.nodeCount)[h % raw.nodeCount];
    var input := Blake3RoundInput(mix, node);
    next := c.blake3_256(input);
  }

  method HashBatchShared(c: Crypto, spec: Spec, header: seq<byte>, start: uint64, count: uint64, raw: RawBuffer)
    returns (results: seq<HashResult>)
    requires raw.nodeSize == 64 && 64 * raw.nodeCount <= raw.byteLen <= raw.bytes.Length
    ensures IsBatch(c, spec, header, start, count, NodesIn(raw.bytes[..], raw.nodeCount), results)
  {
    hide LatticeHashOf;
    results := [];
    var i: uint64 := 0;
    while i < count
      invariant i <= count && start + i <= TWO_TO_THE_64 && |results| == i
      invariant forall k :: 0 <= k < i ==>
        results[k] == LatticeHashOf(c, spec, header, Some(start + k), NodesIn(raw.bytes[..], raw.nodeCount))
    {
      var nonce := AddUint64(start, i);
      if nonce.None? {
        break;
      }
      var r := LatticeHashSharedBuffer(c, spec, header, nonce, raw);
      results := results + [r];
      i := i + 1;
    }
  }

  // ----- The consensus backend and the tableless verifier

  /** The hash a spec selects, as a function of the node table. */
  function HashOf(c: Crypto, spec: Spec, header: seq<byte>, nonce: Option<uint64>, table: seq<Bytes64>): HashResult {
    if spec.algorithmVersion >= 2 then StrictHashOf(c, spec, header, nonce, table)
    else LatticeHashOf(c, spec, header, nonce, table)
  }

  /** The consensus CPUBackend hashes on the DAG itself, with a scratch of its own. */
  method ConsensusHash(c: Crypto, header: seq<byte>, nonce: uint64, dag: Dag) returns (out: HashResult)
    requires dag.Usable()
    ensures out == HashOf(c, dag.spec, header, Some(nonce), dag.Nodes())
  {
    hide StrictHashOf;
    hide LatticeHashOf;
    if dag.spec.algorithmVersion >= 2 {
      out := StrictV2Hash(c, dag.spec, header, Some(nonce), FromDag(dag));
    } else {
      var scratch := new HashScratch(|header|);
      out := LatticeHash.LatticeHash(c, dag.spec, header, Some(nonce), FromDag(dag), scratch);
    }
  }

  datatype StatelessError = InvalidSpec | EmptySeed

  method HashHeaderStateless(c: Crypto, spec: Spec, header: seq<byte>, nonce: uint64, seed: seq<byte>)
    returns (r: Result<HashResult, StatelessError>)
    ensures !spec.Valid() ==> r == Err(InvalidSpec)
    ensures spec.Valid() && seed == [] ==> r == Err(EmptySeed)
    ensures spec.Valid() && seed != [] ==>
      r == Ok(HashOf(c, spec, header, Some(nonce), TableOf(c, spec.mode, seed, spec.NodeCount())))
  {
    hide StrictHashOf;
    hide LatticeHashOf;
    if !spec.Valid() {
      return Err(InvalidSpec);
    }
    if seed == [] {
      return Err(EmptySeed);
    }
    var accessor := Stateless(spec.mode, seed, spec.NodeCount());
    var out;
    if spec.algorithmVersion >= 2 {
      out := StrictV2Hash(c, spec, header, Some(nonce), accessor);
    } else {
      var scratch := new HashScratch(|header|);
      out := LatticeHash.LatticeHash(c, spec, header, Some(nonce), accessor, scratch);
    }
    return Ok(out);
  }

  /** The tableless verdict on a header. */
  function StatelessAccepts(c: Crypto, spec: Spec, header: seq<byte>, nonce: uint64, seed: seq<byte>, target: Target):
      bool
  {
    Meets(HashOf(c, spec, header, Some(nonce), TableOf(c, spec.mode, seed, spec.NodeCount())).pow256, target)
  }

  method VerifyHeaderStateless(c: Crypto, spec: Spec, header: seq<byte>, nonce: uint64, seed: seq<byte>, target: Target)
    returns (r: Result<(HashResult, bool), StatelessError>)
    ensures r.Ok? <==> spec.Valid() && seed != []
    ensures r.Ok? ==> (r.value.1 <==> StatelessAccepts(c, spec, header, nonce, seed, target))
    ensures r.Ok? ==> r.value.0 == HashOf(c, spec, header, Some(nonce), TableOf(c, spec.mode, seed, spec.NodeCount()))
  {
    var h := HashHeaderStateless(c, spec, header, nonce, seed);
    if h.Err? {
      return Err(h.error);
    }
    var ok := LessOrEqualBE(h.value.pow256, target);
    return Ok((h.value, ok));
  }

  /**
   * One DAG, one nonce, every host path: the CPU table copy, the unified view, the raw buffer and the DAG itself
   * agree for version-1 specs, with one scratch reused dirty from call to call.  Each backend is fresh or was
   * prepared, at any time before, for a DAG with the same spec and nodes.
   */
  method HashEveryWay(c: Crypto, header: seq<byte>, nonce: Option<uint64>, dag: Dag,
                      cpu: CpuBackend, unified: UnifiedBackend, scratch: HashScratch)
    returns (viaTable: HashResult, viaView: HashResult, viaBuffer: HashResult, direct: HashResult)
    requires dag.Usable() && dag.spec.algorithmVersion < 2 && scratch.Valid()
    requires cpu.nodes.Length < TWO_TO_THE_64 && cpu.TableFor(dag) == dag.Nodes() && cpu.SpecFor(dag) == dag.spec
    requires unified.Valid() && unified.TableFor(dag) == dag.Nodes() && unified.SpecFor(dag) == dag.spec
    requires scratch.Repr() !! {cpu as object, cpu.nodes, unified, unified.buf} + Footprint(FromDag(dag))
    requires cpu as object !in Footprint(FromDag(dag)) && unified as object !in Footprint(FromDag(dag))
    modifies cpu, unified, scratch.Repr()
    ensures viaTable == viaView == viaBuffer == direct
    ensures direct == LatticeHashOf(c, dag.spec, header, nonce, old(dag.Nodes()))
  {
    hide LatticeHashOf;
    hide NodesIn;
    viaTable := cpu.Hash(c, header, nonce, dag, scratch);
    viaView := unified.Hash(c, header, nonce, dag, scratch);
    var raw := NewRawContiguousBuffer(dag);
    viaBuffer := LatticeHashSharedBuffer(c, dag.spec, header, nonce, raw);
    direct := LatticeHash.LatticeHash(c, dag.spec, header, nonce, FromDag(dag), scratch);
  }
}
