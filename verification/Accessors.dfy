/** The ways a hash reads DAG nodes: one case for each implementer of the source's accessor interfaces. */
module Accessors {
  import opened Bytes
  import opened DagSpec
  import opened DagNodes
  import opened DagObjects

  datatype Accessor =
    | FromDag(dag: Dag)                                         // the DAG itself, or a view that forwards to it
    | FromTable(nodes: array<Bytes64>)                          // the CPU backend's copied node table
    | FromBuffer(buf: array<byte>, size: nat, nodeCount: uint64) // the unified backend's shared view
    | Stateless(mode: Mode, seed: seq<byte>, nodeCount: uint64)  // nodes recomputed on demand

  ghost predicate Readable(a: Accessor)
    reads Footprint(a)
  {
    match a
    case FromDag(dag) => dag.Usable()
    case FromTable(nodes) => nodes.Length < TWO_TO_THE_64
    case FromBuffer(buf, size, n) => 64 * n <= size <= buf.Length
    case Stateless(_, _, _) => true
  }

  ghost function Footprint(a: Accessor): set<object>
    reads if a.FromDag? then a.dag else null
  {
    match a
    case FromDag(dag) => {dag} + (if dag.alloc == null then {} else {dag.alloc, dag.alloc.buf})
    case FromTable(nodes) => {nodes}
    case FromBuffer(buf, _, _) => {buf}
    case Stateless(_, _, _) => {}
  }

  /** The node table an accessor stands for. */
  ghost function Table(c: Crypto, a: Accessor): seq<Bytes64>
    requires Readable(a)
    reads Footprint(a)
  {
    match a
    case FromDag(dag) => dag.Nodes()
    case FromTable(nodes) => nodes[..]
    case FromBuffer(buf, size, n) => NodesIn(buf[..size], n)
    case Stateless(mode, seed, n) => TableOf(c, mode, seed, n)
  }

  method NodeCount(c: Crypto, a: Accessor) returns (n: uint64)
    requires Readable(a)
    ensures n == |Table(c, a)|
  {
    match a
    case FromDag(dag) => n := dag.spec.NodeCount();
    case FromTable(nodes) => n := nodes.Length;
    case FromBuffer(_, _, count) => n := count;
    case Stateless(_, _, count) => n := count;
  }

  method ReadNode(c: Crypto, a: Accessor, i: uint64) returns (node: Bytes64)
    requires Readable(a) && i < |Table(c, a)|
    ensures node == Table(c, a)[i]
    ensures a.Stateless? ==> IsHashedNode(if a.mode == Strict then c.blake3Xof64 else c.keccak512, a.seed, i, node)
  {
    match a
    case FromDag(dag) => node := dag.ReadNode(i);
    case FromTable(nodes) => node := nodes[i];
    case FromBuffer(buf, size, _) =>
      var off := i * 64;
      node := buf[off..off + 64];
      assert buf[..size][64 * i..64 * i + 64] == node;
    case Stateless(mode, seed, _) =>
      node := if mode == Strict then StrictNode(c, seed, i) else ResearchNode(c, seed, i);
      NodesAreHashed(c, mode, seed, i);
  }
}
