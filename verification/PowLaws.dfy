/** The proof-of-work rule in full: what is hashed, on which nodes, and what the result is compared with. */
module PowLaws {
  import opened Bytes
  import opened DagSpec
  import opened Types
  import opened DagNodes
  import opened StrictHash
  import opened LatticeHash
  import opened Backends
  import opened HashLaws
  import opened DagCache

  /** The hash of the spec's version. */
  ghost predicate IsHash(c: Crypto, spec: Spec, header: seq<byte>, nonce: Option<uint64>, table: seq<Bytes64>,
                         out: HashResult)
  {
    if spec.algorithmVersion < 2 then IsLatticeHash(c, spec, header, nonce, table, out)
    else IsStrictHash(c, spec, header, nonce, table, out)
  }

  lemma HashMeans(c: Crypto, spec: Spec, header: seq<byte>, nonce: Option<uint64>, table: seq<Bytes64>, out: HashResult)
    ensures IsHash(c, spec, header, nonce, table, out) <==> out == HashOf(c, spec, header, nonce, table)
  {
    hide *;
    StrictHashMeans(c, spec, header, nonce, table, out);
    LatticeHashMeans(c, spec, header, nonce, table, out);
    HashIs(c, spec, header, nonce, table, out);
  }

  lemma HashIs(c: Crypto, spec: Spec, header: seq<byte>, nonce: Option<uint64>, table: seq<Bytes64>, out: HashResult)
    ensures IsHash(c, spec, header, nonce, table, out) <==>
      if spec.algorithmVersion < 2 then IsLatticeHash(c, spec, header, nonce, table, out)
      else IsStrictHash(c, spec, header, nonce, table, out)
    ensures HashOf(c, spec, header, nonce, table) ==
      if spec.algorithmVersion < 2 then LatticeHashOf(c, spec, header, nonce, table)
      else StrictHashOf(c, spec, header, nonce, table)
  {
    hide IsLatticeHash;
    hide IsStrictHash;
    hide LatticeHashOf;
    hide StrictHashOf;
  }

  /** The table a header's hash reads: as many nodes as the spec's size for its height holds, hashed from its seed. */
  ghost predicate IsEpochTable(c: Crypto, spec: Spec, h: Header, table: seq<Bytes64>)
    requires spec.Valid()
  {
    && 64 * |table| == spec.DagSizeForHeight(h.height)
    && forall i :: 0 <= i < |table| ==>
         IsHashedNode(if spec.mode == Strict then c.blake3Xof64 else c.keccak512, h.epochSeed.bytes, i, table[i])
  }

  lemma EpochTableMeans(c: Crypto, spec: Spec, h: Header, table: seq<Bytes64>)
    requires spec.Valid()
    ensures IsEpochTable(c, spec, h, table) <==>
      table == TableOf(c, spec.mode, h.epochSeed.bytes, spec.ResolvedForHeight(h.height).NodeCount())
  {
    hide NodeAt;
    hide IsHashedNode;
    hide Spec.DagSizeForHeight;
    NodesMakeTheSize(spec, h.height);
    var (seed, count) := (h.epochSeed.bytes, spec.ResolvedForHeight(h.height).NodeCount());
    forall i: uint64
      ensures IsHashedNode(if spec.mode == Strict then c.blake3Xof64 else c.keccak512, seed, i,
                           NodeAt(c, spec.mode, seed, i))
    {
      NodesAreHashed(c, spec.mode, seed, i);
    }
    if IsEpochTable(c, spec, h, table) {
      forall i | 0 <= i < count
        ensures table[i] == NodeAt(c, spec.mode, seed, i)
      {
        OneHashedNode(if spec.mode == Strict then c.blake3Xof64 else c.keccak512, seed, i,
                      table[i], NodeAt(c, spec.mode, seed, i));
      }
    }
  }

  lemma OneHashedNode(hash: seq<byte> -> Bytes64, seed: seq<byte>, i: uint64, x: seq<byte>, y: seq<byte>)
    requires IsHashedNode(hash, seed, i, x) && IsHashedNode(hash, seed, i, y)
    ensures x == y
  {
    hide LittleEndian;
    hide LittleEndianValue;
    var m :| IsNodeInput(m, seed, i) && x == hash(m);
    var n :| IsNodeInput(n, seed, i) && y == hash(n);
    LittleEndianInjective(m[|seed|..], n[|seed|..]);
    assert m == m[..|seed|] + m[|seed|..] && n == n[..|seed|] + n[|seed|..];
  }

  lemma SameWithAnotherSize(c: Crypto, spec: Spec, size: uint64, header: seq<byte>, nonce: Option<uint64>,
                            table: seq<Bytes64>)
    ensures HashOf(c, spec.(dagSizeBytes := size), header, nonce, table) == HashOf(c, spec, header, nonce, table)
  {
    hide SeedInput;
    hide StrictRound;
    hide MixAfter;
    SameStates(c, spec, size, table, c.sha256(SeedInput(header, nonce)), spec.computeRounds);
  }

  lemma {:induction false} SameStates(c: Crypto, spec: Spec, size: uint64, table: seq<Bytes64>, seed: Bytes32,
                                      r: uint32)
    requires r <= spec.computeRounds
    ensures table != [] ==>
      StrictState(c, spec.(dagSizeBytes := size), table, seed, r) == StrictState(c, spec, table, seed, r)
  {
    hide LanesBytes;
    hide TileIndex;
    if r > 0 {
      SameStates(c, spec, size, table, seed, r - 1);
    }
  }

  /**
   * The proof-of-work rule: a header is accepted exactly when the hash of its 192 mining bytes and its nonce, on the
   * table of its seed and its height's size, is at most its target, both read as big-endian numbers.
   */
  lemma PowOkMeans(c: Crypto, spec: Spec, h: Header)
    requires spec.Valid()
    ensures PowOk(c, spec, h) <==>
      exists table, out ::
        && IsEpochTable(c, spec, h, table) && IsHash(c, spec, Encode(h)[..192], Some(h.nonce), table, out)
        && BigEndianValue(out.pow256) <= BigEndianValue(h.target.bytes)
  {
    hide IsHash;
    hide IsEpochTable;
    hide HashOf;
    hide TableOf;
    hide EncodeForMining;
    hide Spec.ResolvedForHeight;
    var resolved := spec.ResolvedForHeight(h.height);
    var theTable := TableOf(c, spec.mode, h.epochSeed.bytes, resolved.NodeCount());
    var theHash := HashOf(c, spec, EncodeForMining(h), Some(h.nonce), theTable);
    PowOkIs(c, spec, h);
    EncodingLayout(h);
    EpochTableMeans(c, spec, h, theTable);
    HashMeans(c, spec, EncodeForMining(h), Some(h.nonce), theTable, theHash);
    forall table, out
      | IsEpochTable(c, spec, h, table) && IsHash(c, spec, EncodeForMining(h), Some(h.nonce), table, out)
      ensures out == theHash
    {
      EpochTableMeans(c, spec, h, table);
      HashMeans(c, spec, EncodeForMining(h), Some(h.nonce), table, out);
    }
  }

  lemma PowOkIs(c: Crypto, spec: Spec, h: Header)
    requires spec.Valid()
    ensures var table := TableOf(c, spec.mode, h.epochSeed.bytes, spec.ResolvedForHeight(h.height).NodeCount());
      var out := HashOf(c, spec, EncodeForMining(h), Some(h.nonce), table);
      PowOk(c, spec, h) <==> BigEndianValue(out.pow256) <= BigEndianValue(h.target.bytes)
  {
    hide HashOf;
    hide TableOf;
    hide EncodeForMining;
    hide Spec.DagSizeForHeight;
    var resolved := spec.ResolvedForHeight(h.height);
    var table := TableOf(c, spec.mode, h.epochSeed.bytes, resolved.NodeCount());
    SameWithAnotherSize(c, spec, spec.DagSizeForHeight(h.height), EncodeForMining(h), Some(h.nonce), table);
    assert resolved == spec.(dagSizeBytes := spec.DagSizeForHeight(h.height));
  }
}
