/** The version-1 hash and every host path that computes it (hash.go, shared_dag_hash.go, backend_*.go). */
module LatticeHash {
  import opened Bytes
  import opened DagSpec
  import opened Accessors
  import opened StrictHash

  const FNV_OFFSET: uint64 := 14695981039346656037
  const FNV_PRIME: uint64 := 1099511628211

  function Xor8(a: byte, b: byte): byte { ((a as bv8) ^ (b as bv8)) as byte }

  /** One FNV-1a step: the byte only meets the low eight bits of h, then a wrapping product. */
  function FnvStep(h: uint64, b: byte): uint64 {
    (h - h % 256 + Xor8(h % 256, b)) * FNV_PRIME % TWO_TO_THE_64
  }

  function Fnv1a64(data: seq<byte>): uint64 {
    if data == [] then FNV_OFFSET else FnvStep(Fnv1a64(data[..|data| - 1]), data[|data| - 1])
  }

  /** The mix XORed against both halves of the node. */
  function RoundInput(mix: Bytes32, node: Bytes64): Bytes64 {
    seq(64, i requires 0 <= i < 64 => Xor8(mix[i % 32], node[i]))
  }

  function NodeIndex(mix: Bytes32, r: uint64, count: nat): nat
    requires count > 0
  {
    Fnv1a64(mix + LittleEndian(r, 8)) % count
  }

  function MixRound(c: Crypto, table: seq<Bytes64>, mix: Bytes32, r: uint64): Bytes32
    requires |table| > 0
  {
    c.blake3_256(RoundInput(mix, table[NodeIndex(mix, r, |table|)]))
  }

  function MixAfter(c: Crypto, table: seq<Bytes64>, mix: Bytes32, r: uint64): Bytes32
    requires |table| > 0
  {
    if r == 0 then mix else MixRound(c, table, MixAfter(c, table, mix, r - 1), r - 1)
  }

  /** The lattice hash as a function of the node table. */
  function LatticeHashOf(c: Crypto, spec: Spec, header: seq<byte>, nonce: Option<uint64>, table: seq<Bytes64>):
      HashResult
  {
    if table == [] then ZeroResult()
    else
      var seed512 := c.sha3_512(SeedInput(header, nonce));
      var mix := MixAfter(c, table, seed512[..32], spec.readsPerHash);
      var final512 := c.sha3_512(seed512 + mix);
      HashResult(final512[..32], final512)
  }

  method ComputeFnv1a64(data: seq<byte>) returns (h: uint64)
    ensures h == Fnv1a64(data)
  {
    hide FnvStep;
    h := FNV_OFFSET;
    for i := 0 to |data|
      invariant h == Fnv1a64(data[..i])
    {
      assert data[..i + 1][..i] == data[..i];
      h := FnvStep(h, data[i]);
    }
    assert data[..|data|] == data;
  }

  method Blake3RoundInput(mix: Bytes32, node: Bytes64) returns (input: Bytes64)
    ensures input == RoundInput(mix, node)
  {
    hide Xor8;
    ghost var want := RoundInput(mix, node);
    var buf := new byte[64];
    for i := 0 to 32
      invariant forall k :: 0 <= k < i ==> buf[k] == want[k]
      invariant forall k :: 32 <= k < 32 + i ==> buf[k] == want[k]
    {
      buf[i] := Xor8(mix[i], node[i]);
      buf[32 + i] := Xor8(mix[i], node[32 + i]);
    }
    input := buf[..];
  }

  // ----- Reusable scratch

  /** Buffers that outlive a hash; their contents between hashes are arbitrary. */
  class HashScratch {
    var seedInput: array<byte>
    var seedLen: nat
    const fnvInput: array<byte>
    const blakeInput: array<byte>
    const finalInput: array<byte>

    ghost predicate Valid()
      reads this
    {
      && fnvInput.Length == 40 && blakeInput.Length == 64 && finalInput.Length == 96
      && seedLen <= seedInput.Length
      && seedInput != fnvInput && seedInput != blakeInput && seedInput != finalInput
      && fnvInput != blakeInput && fnvInput != finalInput && blakeInput != finalInput
    }

    ghost function Repr(): set<object>
      reads this
    {
      {this, seedInput, fnvInput, blakeInput, finalInput}
    }

    constructor (headerLen: nat)
      ensures Valid() && fresh(Repr()) && seedLen == 0 && seedInput.Length == headerLen + 8
    {
      seedInput := new byte[headerLen + 8];
      seedLen := 0;
      fnvInput := new byte[40];
      blakeInput := new byte[64];
      finalInput := new byte[96];
    }

    /** EnsureSeedInput: an empty seed buffer with room for the header and the nonce. */
    method EnsureSeedInput(headerLen: nat)
      requires Valid()
      modifies this
      ensures Valid() && seedLen == 0 && seedInput.Length >= headerLen + 8
      ensures fresh(Repr() - old(Repr()))
    {
      if seedInput.Length < headerLen + 8 {
        seedInput := new byte[headerLen + 8];
      }
      seedLen := 0;
    }

    /** append within capacity: no reallocation happens after EnsureSeedInput. */
    method AppendSeed(data: seq<byte>)
      requires Valid() && seedLen + |data| <= seedInput.Length
      modifies this`seedLen, seedInput
      ensures Valid() && seedInput[..seedLen] == old(seedInput[..seedLen]) + data
      ensures seedLen == old(seedLen) + |data|
    {
      CopyAt(seedInput, seedLen, data);
      assert seedInput[..seedLen + |data|] == seedInput[..][..seedLen + |data|];
      seedLen := seedLen + |data|;
    }
  }

  /** copy(dst[at:], data) */
  method CopyAt(dst: array<byte>, at: nat, data: seq<byte>)
    requires at + |data| <= dst.Length
    modifies dst
    ensures dst[..] == old(dst[..at]) + data + old(dst[at + |data|..])
  {
    forall i | 0 <= i < |data| {
      dst[at + i] := data[i];
    }
  }

  /** The FNV hash of the mix and the round number, assembled in the given buffer. */
  method HashIndex(fnvInput: array<byte>, mix: Bytes32, r: uint64) returns (h: uint64)
    requires fnvInput.Length == 40
    modifies fnvInput
    ensures h == Fnv1a64(mix + LittleEndian(r, 8))
  {
    hide LittleEndian;
    hide Fnv1a64;
    CopyAt(fnvInput, 0, mix);
    CopyAt(fnvInput, 32, LittleEndian(r, 8));
    assert fnvInput[..] == mix + LittleEndian(r, 8);
    h := ComputeFnv1a64(fnvInput[..]);
  }

  /** The next mix, its input assembled in the given buffer. */
  method HashNode(c: Crypto, blakeInput: array<byte>, mix: Bytes32, node: Bytes64) returns (next: Bytes32)
    requires blakeInput.Length == 64
    modifies blakeInput
    ensures next == c.blake3_256(RoundInput(mix, node))
  {
    hide RoundInput;
    var input := Blake3RoundInput(mix, node);
    CopyAt(blakeInput, 0, input);
    assert blakeInput[..] == input;
    next := c.blake3_256(blakeInput[..]);
  }

  // ----- LatticeHash through any accessor and any scratch

  /** One round of the mix loop in the scratch buffers. */
  method MixStep(c: Crypto, a: Accessor, count: uint64, scratch: HashScratch, mix: Bytes32, r: uint64)
    returns (next: Bytes32)
    requires Readable(a) && count == |Table(c, a)| > 0
    requires scratch.Valid() && scratch.Repr() !! Footprint(a)
    modifies scratch.fnvInput, scratch.blakeInput
    ensures next == MixRound(c, Table(c, a), mix, r)
  {
    hide LittleEndian;
    hide Fnv1a64;
    hide RoundInput;
    hide Table;
    var h := HashIndex(scratch.fnvInput, mix, r);
    var node := ReadNode(c, a, h % count);
    next := HashNode(c, scratch.blakeInput, mix, node);
  }

  /** The seed digest, assembled in the scratch's seed buffer. */
  method SeedDigest(c: Crypto, header: seq<byte>, nonce: Option<uint64>, scratch: HashScratch)
    returns (seed512: Bytes64)
    requires scratch.Valid()
    modifies scratch, scratch.seedInput
    ensures scratch.Valid() && fresh(scratch.Repr() - old(scratch.Repr()))
    ensures seed512 == c.sha3_512(SeedInput(header, nonce))
  {
    hide LittleEndian;
    scratch.EnsureSeedInput(|header|);
    scratch.AppendSeed(header);
    assert scratch.seedInput[..scratch.seedLen] == header;
    if nonce.Some? {
      scratch.AppendSeed(LittleEndian(nonce.value, 8));
    }
    assert scratch.seedInput[..scratch.seedLen] == SeedInput(header, nonce);
    seed512 := c.sha3_512(scratch.seedInput[..scratch.seedLen]);
  }

  /** The whole mix loop. */
  method MixLoop(c: Crypto, a: Accessor, count: uint64, rounds: uint64, scratch: HashScratch, start: Bytes32)
    returns (mix: Bytes32)
    requires Readable(a) && count == |Table(c, a)| > 0
    requires scratch.Valid() && scratch.Repr() !! Footprint(a)
    modifies scratch.fnvInput, scratch.blakeInput
    ensures mix == MixAfter(c, old(Table(c, a)), start, rounds)
  {
    hide MixRound;
    ghost var table := Table(c, a);
    mix := start;
    for r := 0 to rounds
      invariant Readable(a) && Table(c, a) == table
      invariant mix == MixAfter(c, table, start, r)
    {
      mix := MixStep(c, a, count, scratch, mix, r);
    }
  }

  /** The final digest, assembled in the scratch's final buffer. */
  method FinalDigest(c: Crypto, seed512: Bytes64, mix: Bytes32, scratch: HashScratch) returns (out: HashResult)
    requires scratch.Valid()
    modifies scratch.finalInput
    ensures out == HashResult(c.sha3_512(seed512 + mix)[..32], c.sha3_512(seed512 + mix))
  {
    CopyAt(scratch.finalInput, 0, seed512);
    CopyAt(scratch.finalInput, 64, mix);
    assert scratch.finalInput[..] == seed512 + mix;
    var final512 := c.sha3_512(scratch.finalInput[..]);
    out := HashResult(final512[..32], final512);
  }

  /**
   * Whatever the scratch buffers held before, the result is the pure function of the accessor's table.  A
   * version-2 spec over the DAG itself is routed to the strict hash.
   */
  method LatticeHash(c: Crypto, spec: Spec, header: seq<byte>, nonce: Option<uint64>, a: Accessor, scratch: HashScratch)
    returns (out: HashResult)
    requires Readable(a) && scratch.Valid() && scratch.Repr() !! Footprint(a)
    modifies scratch.Repr()
    ensures scratch.Valid() && fresh(scratch.Repr() - old(scratch.Repr()))
    ensures out ==
      if spec.algorithmVersion >= 2 && a.FromDag? then StrictHashOf(c, spec, header, nonce, old(Table(c, a)))
                   else LatticeHashOf(c, spec, header, nonce, old(Table(c, a)))
  {
    hide StrictHashOf;
    hide MixAfter;
    if spec.algorithmVersion >= 2 && a.FromDag? {
      out := StrictV2Hash(c, spec, header, nonce, a);
      return;
    }
    var count := NodeCount(c, a);
    if count == 0 {
      return ZeroResult();
    }
    var seed512 := SeedDigest(c, header, nonce, scratch);
    var mix := MixLoop(c, a, count, spec.readsPerHash, scratch, seed512[..32]);
    out := FinalDigest(c, seed512, mix, scratch);
  }
}
