/** Headers, blocks, their encodings and hashes (pkg/types/types.go). */
module Types {
  import opened Bytes
  import opened DagSpec

  datatype Header = Header(
    version: uint32,
    algorithmVersion: uint32,
    height: uint64,
    parentHash: Hash,
    timestamp: int64,
    target: Target,
    nonce: uint64,
    epochSeed: Hash,
    dagSizeBytes: uint64,
    txRoot: Hash,
    stateRoot: Hash)

  datatype Block = Block(header: Header, transactions: seq<string>)

  datatype GenesisConfig =
    GenesisConfig(message: seq<byte>, timestamp: int64, bits: Target, spec: Spec, extraData: seq<byte>)

  /** Everything the miner searches under: the header without its nonce. */
  function EncodeForMining(h: Header): (s: seq<byte>)
    ensures |s| == 192
  {
    BigEndian(h.version, 4) + BigEndian(h.algorithmVersion, 4) + BigEndian(h.height, 8) + h.parentHash.bytes
    + BigEndian(ToUnsigned64(h.timestamp), 8) + h.target.bytes + h.epochSeed.bytes + BigEndian(h.dagSizeBytes, 8)
    + h.txRoot.bytes + h.stateRoot.bytes
  }

  function Encode(h: Header): (s: seq<byte>)
    ensures |s| == 200
  {
    EncodeForMining(h) + BigEndian(h.nonce, 8)
  }

  function HeaderHash(c: Crypto, h: Header): Hash {
    Hash(c.sha256(Encode(h)))
  }

  /** Equal strings with last fields of equal length have equal last fields, and are equal before them. */
  lemma PeelLast(x: seq<byte>, a: seq<byte>, y: seq<byte>, b: seq<byte>)
    requires |a| == |b| && x + a == y + b
    ensures x == y && a == b
  {
    assert (x + a)[..|x|] == x && (x + a)[|x|..] == a;
    assert (y + b)[..|y|] == y && (y + b)[|y|..] == b;
  }

  /** Fixed-width fields make the encoding lossless: two headers that encode alike are equal. */
  lemma EncodeIsInjective(a: Header, b: Header)
    requires Encode(a) == Encode(b)
    ensures a == b
  {
    hide BigEndian;
    var (a1, b1) := (BigEndian(a.version, 4), BigEndian(b.version, 4));
    var (a2, b2) := (a1 + BigEndian(a.algorithmVersion, 4), b1 + BigEndian(b.algorithmVersion, 4));
    var (a3, b3) := (a2 + BigEndian(a.height, 8), b2 + BigEndian(b.height, 8));
    var (a4, b4) := (a3 + a.parentHash.bytes, b3 + b.parentHash.bytes);
    var (a5, b5) := (a4 + BigEndian(ToUnsigned64(a.timestamp), 8), b4 + BigEndian(ToUnsigned64(b.timestamp), 8));
    var (a6, b6) := (a5 + a.target.bytes, b5 + b.target.bytes);
    var (a7, b7) := (a6 + a.epochSeed.bytes, b6 + b.epochSeed.bytes);
    var (a8, b8) := (a7 + BigEndian(a.dagSizeBytes, 8), b7 + BigEndian(b.dagSizeBytes, 8));
    var (a9, b9) := (a8 + a.txRoot.bytes, b8 + b.txRoot.bytes);
    var (a10, b10) := (a9 + a.stateRoot.bytes, b9 + b.stateRoot.bytes);
    PeelLast(a10, BigEndian(a.nonce, 8), b10, BigEndian(b.nonce, 8));
    PeelLast(a9, a.stateRoot.bytes, b9, b.stateRoot.bytes);
    PeelLast(a8, a.txRoot.bytes, b8, b.txRoot.bytes);
    PeelLast(a7, BigEndian(a.dagSizeBytes, 8), b7, BigEndian(b.dagSizeBytes, 8));
    PeelLast(a6, a.epochSeed.bytes, b6, b.epochSeed.bytes);
    PeelLast(a5, a.target.bytes, b5, b.target.bytes);
    PeelLast(a4, BigEndian(ToUnsigned64(a.timestamp), 8), b4, BigEndian(ToUnsigned64(b.timestamp), 8));
    PeelLast(a3, a.parentHash.bytes, b3, b.parentHash.bytes);
    PeelLast(a2, BigEndian(a.height, 8), b2, BigEndian(b.height, 8));
    PeelLast(a1, BigEndian(a.algorithmVersion, 4), b1, BigEndian(b.algorithmVersion, 4));
    NumberField(a.version, b.version, 4);
    NumberField(a.algorithmVersion, b.algorithmVersion, 4);
    NumberField(a.height, b.height, 8);
    NumberField(ToUnsigned64(a.timestamp), ToUnsigned64(b.timestamp), 8);
    NumberField(a.dagSizeBytes, b.dagSizeBytes, 8);
    NumberField(a.nonce, b.nonce, 8);
  }

  /** What follows a known prefix of an encoding is its last field. */
  lemma TailField(full: seq<byte>, before: seq<byte>, field: seq<byte>)
    requires before + field <= full
    ensures before <= full && full[|before|..|before| + |field|] == field
  {
    assert full[..|before| + |field|] == before + field;
    assert (before + field)[|before|..] == field;
  }

  /** The layout of an encoded header: 200 bytes, every number most significant byte first, negative times wrapped. */
  lemma EncodingLayout(h: Header)
    ensures var s := Encode(h);
      && |s| == 200 && EncodeForMining(h) == s[..192]
      && BigEndianValue(s[..4]) == h.version && BigEndianValue(s[4..8]) == h.algorithmVersion
      && BigEndianValue(s[8..16]) == h.height && s[16..48] == h.parentHash.bytes
      && BigEndianValue(s[48..56]) == (if h.timestamp < 0 then h.timestamp + TWO_TO_THE_64 else h.timestamp)
      && s[56..88] == h.target.bytes && s[88..120] == h.epochSeed.bytes
      && BigEndianValue(s[120..128]) == h.dagSizeBytes
      && s[128..160] == h.txRoot.bytes && s[160..192] == h.stateRoot.bytes
      && BigEndianValue(s[192..]) == h.nonce
  {
    hide BigEndian;
    hide BigEndianValue;
    hide LittleEndian;
    hide LittleEndianValue;
    var p1 := BigEndian(h.version, 4);
    var p2 := p1 + BigEndian(h.algorithmVersion, 4);
    var p3 := p2 + BigEndian(h.height, 8);
    var p4 := p3 + h.parentHash.bytes;
    var p5 := p4 + BigEndian(ToUnsigned64(h.timestamp), 8);
    var p6 := p5 + h.target.bytes;
    var p7 := p6 + h.epochSeed.bytes;
    var p8 := p7 + BigEndian(h.dagSizeBytes, 8);
    var p9 := p8 + h.txRoot.bytes;
    var p10 := p9 + h.stateRoot.bytes;
    var s := Encode(h);
    TailField(s, p10, BigEndian(h.nonce, 8));
    TailField(s, p9, h.stateRoot.bytes);
    TailField(s, p8, h.txRoot.bytes);
    TailField(s, p7, BigEndian(h.dagSizeBytes, 8));
    TailField(s, p6, h.epochSeed.bytes);
    TailField(s, p5, h.target.bytes);
    TailField(s, p4, BigEndian(ToUnsigned64(h.timestamp), 8));
    TailField(s, p3, h.parentHash.bytes);
    TailField(s, p2, BigEndian(h.height, 8));
    TailField(s, p1, BigEndian(h.algorithmVersion, 4));
    assert s[..4] == p1;
    WordBytes(h.version, 4);
    WordBytes(h.algorithmVersion, 4);
    WordBytes(h.height, 8);
    WordBytes(ToUnsigned64(h.timestamp), 8);
    WordBytes(h.dagSizeBytes, 8);
    WordBytes(h.nonce, 8);
  }

  lemma NumberField(m: nat, n: nat, k: nat)
    requires (k == 4 && m < 0x1_0000_0000 && n < 0x1_0000_0000) || (k == 8 && m < TWO_TO_THE_64 && n < TWO_TO_THE_64)
    requires BigEndian(m, k) == BigEndian(n, k)
    ensures m == n
  {
    Pow256Values();
    BigEndianRoundTrip(m, k);
    BigEndianRoundTrip(n, k);
  }

  /** SHA-256 has no collision among the encodings of these headers. */
  ghost predicate CollisionFree(c: Crypto, headers: set<Header>) {
    forall a, b :: a in headers && b in headers && c.sha256(Encode(a)) == c.sha256(Encode(b)) ==> Encode(a) == Encode(b)
  }

  /** Without SHA-256 collisions among them, headers are identified by their hashes. */
  lemma HashIdentifiesHeader(c: Crypto, headers: set<Header>, a: Header, b: Header)
    requires CollisionFree(c, headers) && a in headers && b in headers
    requires HeaderHash(c, a) == HeaderHash(c, b)
    ensures a == b
  {
    EncodeIsInjective(a, b);
  }

  /** Depends on the height only through its epoch; `spec.epochBlocks` is the divisor. */
  function EpochSeedForHeight(c: Crypto, spec: Spec, height: uint64): Hash
    requires spec.nodeSize != 0 && spec.epochBlocks != 0
  {
    Hash(c.sha256(BigEndian(height / spec.epochBlocks, 8) + BigEndian(spec.DagSizeForHeight(height), 8)))
  }

  /** The epoch seed hashes sixteen bytes: the epoch's number and the DAG size, most significant byte first. */
  lemma SeedMaterial(c: Crypto, spec: Spec, height: uint64) returns (m: seq<byte>)
    requires spec.nodeSize != 0 && spec.epochBlocks != 0
    ensures |m| == 16 && BigEndianValue(m[..8]) == height / spec.epochBlocks
    ensures BigEndianValue(m[8..]) == spec.DagSizeForHeight(height)
    ensures EpochSeedForHeight(c, spec, height).bytes == c.sha256(m)
  {
    hide BigEndian;
    hide BigEndianValue;
    hide LittleEndian;
    hide LittleEndianValue;
    hide Spec.DagSizeForHeight;
    QuotientFits(height, spec.epochBlocks);
    var (epoch, size) := (height / spec.epochBlocks, spec.DagSizeForHeight(height));
    WordBytes(epoch, 8);
    WordBytes(size, 8);
    m := BigEndian(epoch, 8) + BigEndian(size, 8);
    assert m[..8] == BigEndian(epoch, 8) && m[8..] == BigEndian(size, 8);
  }

  function NewGenesisBlock(c: Crypto, cfg: GenesisConfig): (b: Block)
    requires cfg.spec.nodeSize != 0 && cfg.spec.epochBlocks != 0
    ensures b.header.height == 0 && b.header.parentHash == ZERO_HASH
  {
    var resolved := cfg.spec.ResolvedForHeight(0);
    Block(Header(1, resolved.algorithmVersion, 0, ZERO_HASH, cfg.timestamp, cfg.bits, 0,
                 EpochSeedForHeight(c, resolved, 0), resolved.dagSizeBytes, Hash(c.sha256(cfg.message)),
                 Hash(c.sha256(cfg.extraData))), [])
  }

  /** Where the size resolves once, as it always does with a separate initial size, so does the epoch seed. */
  lemma ResolvedSeedAgrees(c: Crypto, spec: Spec, height: uint64)
    requires spec.Valid()
    requires ResolvesOnce(spec, height)
    ensures EpochSeedForHeight(c, spec.ResolvedForHeight(height), height) == EpochSeedForHeight(c, spec, height)
  {
    ResolvingTwice(spec, height);
  }

  /** What EpochSeedForHeight hashes. */
  function SeedInputAt(spec: Spec, height: uint64): seq<byte>
    requires spec.nodeSize != 0 && spec.epochBlocks != 0
  {
    BigEndian(height / spec.epochBlocks, 8) + BigEndian(spec.DagSizeForHeight(height), 8)
  }

  /**
   * Two heights have the same seed exactly when they are in the same epoch, unless SHA-256 collides on their seed
   * inputs: an epoch's blocks share one DAG, and no other epoch's blocks do, even where the size has saturated.
   */
  lemma SeedsIdentifyEpochs(c: Crypto, spec: Spec, h1: uint64, h2: uint64)
    requires spec.Valid()
    requires c.sha256(SeedInputAt(spec, h1)) == c.sha256(SeedInputAt(spec, h2)) ==>
      SeedInputAt(spec, h1) == SeedInputAt(spec, h2)
    ensures EpochSeedForHeight(c, spec, h1) == EpochSeedForHeight(c, spec, h2)
      <==> h1 / spec.epochBlocks == h2 / spec.epochBlocks
    ensures h1 / spec.epochBlocks == h2 / spec.epochBlocks ==> spec.DagSizeForHeight(h1) == spec.DagSizeForHeight(h2)
  {
    hide BigEndian;
    hide Spec.DagSizeForEpoch;
    EpochFits(h1, spec.epochBlocks);
    EpochFits(h2, spec.epochBlocks);
    if SeedInputAt(spec, h1) == SeedInputAt(spec, h2) {
      LeadingNumber(h1 / spec.epochBlocks, BigEndian(spec.DagSizeForHeight(h1), 8),
                    h2 / spec.epochBlocks, BigEndian(spec.DagSizeForHeight(h2), 8));
    }
  }

  lemma LeadingNumber(m: uint64, x: seq<byte>, n: uint64, y: seq<byte>)
    requires BigEndian(m, 8) + x == BigEndian(n, 8) + y
    ensures m == n
  {
    hide BigEndian;
    assert (BigEndian(m, 8) + x)[..8] == BigEndian(m, 8) && (BigEndian(n, 8) + y)[..8] == BigEndian(n, 8);
    NumberField(m, n, 8);
  }

  lemma EpochFits(height: uint64, epochBlocks: uint64)
    requires epochBlocks != 0
    ensures 0 <= height / epochBlocks < TWO_TO_THE_64
  {
  }
}
