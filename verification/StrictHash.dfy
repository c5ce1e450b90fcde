/** The version-2 hash: tensor tiles, 16 int32 lanes per round, SHA-256 chaining (colossusx/hash_strict_v2.go). */
module StrictHash {
  import opened Bytes
  import opened DagSpec
  import opened Accessors

  newtype int8 = x: int | -128 <= x < 128
  newtype int32 = x: int | -0x8000_0000 <= x < 0x8000_0000

  datatype HashResult = HashResult(pow256: Bytes32, full512: Bytes64)

  function ZeroResult(): HashResult { HashResult(Zeros(32), Zeros(64)) }

  /** Largest magnitude any partial sum of a lane can reach: 128 + 255 + 16 * 128 * 128. */
  const LANE_BOUND: int := 262527

  function SignedByte(b: byte): int { if b < 128 then b else b - 256 }

  // ----- A tile, decoded from a 64-byte node

  function A(raw: Bytes64, row: nat, col: nat): int
    requires row < 16 && col < 16
  {
    SignedByte(raw[(row * 16 + col) % 64])
  }

  function B(raw: Bytes64, row: nat, col: nat): int
    requires row < 16 && col < 16
  {
    SignedByte(raw[(row * 16 + col + 17) % 64])
  }

  /** The first n terms of row i of A times column k of B. */
  function Dot(raw: Bytes64, i: nat, k: nat, n: nat): int
    requires i < 16 && k < 16 && n <= 16
  {
    if n == 0 then 0 else Dot(raw, i, k, n - 1) + A(raw, i, n - 1) * B(raw, n - 1, k)
  }

  /** The exact value of lane i in round r. */
  function Lane(raw: Bytes64, state: Bytes32, r: uint32, i: nat): int
    requires i < 16
  {
    SignedByte(raw[i]) + state[i] - state[31 - i] + Dot(raw, i, (i + r) % 16, 16)
  }

  class TensorTile {
    var matrixA: seq<int8>
    var matrixB: seq<int8>
    var bias: seq<int32>
    var permute: seq<byte>
    var meta: seq<byte>

    ghost predicate Shaped()
      reads this
    {
      |matrixA| == 256 && |matrixB| == 256 && |bias| == 16 && |permute| == 32 && |meta| == 32
    }

    /** The tile is the decoding of this node. */
    ghost predicate Decodes(raw: Bytes64)
      reads this
    {
      && Shaped()
      && (forall j :: 0 <= j < 256 ==> matrixA[j] as int == SignedByte(raw[j % 64]))
      && (forall j :: 0 <= j < 256 ==> matrixB[j] as int == SignedByte(raw[(j + 17) % 64]))
      && (forall j :: 0 <= j < 16 ==> bias[j] as int == SignedByte(raw[j]))
      && permute == raw[..32] && meta == raw[32..]
    }

    constructor ()
      ensures Shaped()
    {
      matrixA, matrixB := seq(256, _ => 0), seq(256, _ => 0);
      bias := seq(16, _ => 0);
      permute, meta := Zeros(32), Zeros(32);
    }

    /** ReadTensorTile: overwrites every field, whatever the tile held before. */
    method Read(raw: Bytes64)
      requires Shaped()
      modifies this
      ensures Decodes(raw)
    {
      for j := 0 to 256
        invariant Shaped()
        invariant forall k :: 0 <= k < j ==> matrixA[k] as int == SignedByte(raw[k % 64])
        invariant forall k :: 0 <= k < j ==> matrixB[k] as int == SignedByte(raw[(k + 17) % 64])
      {
        matrixA := matrixA[j := SignedByte(raw[j % 64]) as int8];
        matrixB := matrixB[j := SignedByte(raw[(j + 17) % 64]) as int8];
      }
      label matrices:
      for j := 0 to 16
        invariant Shaped() && matrixA == old@matrices(matrixA) && matrixB == old@matrices(matrixB)
        invariant forall k :: 0 <= k < j ==> bias[k] as int == SignedByte(raw[k])
      {
        bias := bias[j := SignedByte(raw[j]) as int32];
      }
      permute, meta := raw[..32], raw[32..];
    }
  }

  lemma ProductBound(x: int, y: int)
    requires -128 <= x < 128 && -128 <= y < 128
    ensures -16384 <= x * y <= 16384
  {
    var (u, v) := (if x < 0 then -x else x, if y < 0 then -y else y);
    ProductNonNegative(u, v);
    ProductMonotone(u, 128, v);
    assert x * y == u * v || x * y == -(u * v);
  }

  /**
   * One lane in int32 arithmetic: no operation overflows (every partial sum stays within LANE_BOUND) and the
   * result is the exact integer.
   */
  method ComputeLane(tile: TensorTile, raw: Bytes64, state: Bytes32, r: uint32, i: nat) returns (acc: int32)
    requires tile.Decodes(raw) && i < 16
    ensures acc as int == Lane(raw, state, r, i)
    ensures -LANE_BOUND <= acc as int <= LANE_BOUND
  {
    acc := tile.bias[i] + state[i] as int32 - state[31 - i] as int32;
    var k := (i + r) % 16;
    for j := 0 to 16
      invariant acc as int == SignedByte(raw[i]) + state[i] - state[31 - i] + Dot(raw, i, k, j)
      invariant -383 - 16384 * j <= acc as int <= 383 + 16384 * j
    {
      ProductBound(A(raw, i, j), B(raw, j, k));
      acc := acc + tile.matrixA[i * 16 + j] as int32 * tile.matrixB[j * 16 + k] as int32;
    }
  }

  // ----- Rounds

  function Xor32(x: uint32, y: uint32): uint32 { ((x as bv32) ^ (y as bv32)) as uint32 }

  /** uint32(lane): two's complement. */
  function LaneWord(lane: int): uint32
    requires -LANE_BOUND <= lane <= LANE_BOUND
  {
    if lane < 0 then lane + 0x1_0000_0000 else lane
  }

  lemma {:induction false} DotBound(raw: Bytes64, i: nat, k: nat, n: nat)
    requires i < 16 && k < 16 && n <= 16
    ensures -16384 * n <= Dot(raw, i, k, n) <= 16384 * n
  {
    if n > 0 {
      DotBound(raw, i, k, n - 1);
      ProductBound(A(raw, i, n - 1), B(raw, n - 1, k));
    }
  }

  /** For every tile, state and round, each lane lies within ±262527. */
  lemma LaneBounded(raw: Bytes64, state: Bytes32, r: uint32, i: nat)
    requires i < 16
    ensures -LANE_BOUND <= Lane(raw, state, r, i) <= LANE_BOUND
  {
    DotBound(raw, i, (i + r) % 16, 16);
  }

  /** The four bytes lane i contributes to a round's SHA-256 input. */
  function LaneBytes(raw: Bytes64, state: Bytes32, r: uint32, i: nat): (s: seq<byte>)
    requires i < 16
    ensures |s| == 4
  {
    LaneBounded(raw, state, r, i);
    LittleEndian(Xor32(Xor32(Xor32(LaneWord(Lane(raw, state, r, i)), raw[32 + i]), raw[i]), r), 4)
  }

  function LanesBytes(raw: Bytes64, state: Bytes32, r: uint32, n: nat): (s: seq<byte>)
    requires n <= 16
    ensures |s| == 4 * n
  {
    if n == 0 then [] else LanesBytes(raw, state, r, n - 1) + LaneBytes(raw, state, r, n - 1)
  }

  function RoundCommit(c: Crypto, round: uint32, state: Bytes32): Bytes32 {
    c.sha256(state + LittleEndian(round, 4))
  }

  function TileIndex(state: Bytes32, count: nat): nat
    requires count > 0
  {
    LittleEndianValue(state[..8]) % count
  }

  function StrictRound(c: Crypto, spec: Spec, table: seq<Bytes64>, state: Bytes32, r: uint32): Bytes32
    requires |table| > 0 && r < spec.computeRounds
  {
    var next := c.sha256(state + LanesBytes(table[TileIndex(state, |table|)], state, r, 16));
    if spec.roundCommitInterval > 0 && (r + 1) % spec.roundCommitInterval == 0 then RoundCommit(c, r + 1, next)
    else next
  }

  function StrictState(c: Crypto, spec: Spec, table: seq<Bytes64>, seed: Bytes32, r: uint32): Bytes32
    requires |table| > 0 && r <= spec.computeRounds
  {
    if r == 0 then seed else StrictRound(c, spec, table, StrictState(c, spec, table, seed, r - 1), r - 1)
  }

  function SeedInput(header: seq<byte>, nonce: Option<uint64>): seq<byte> {
    header + if nonce.Some? then LittleEndian(nonce.value, 8) else []
  }

  /** The version-2 hash as a function of the node table. */
  function StrictHashOf(c: Crypto, spec: Spec, header: seq<byte>, nonce: Option<uint64>, table: seq<Bytes64>):
      HashResult
  {
    if table == [] then ZeroResult()
    else
      var seed := c.sha256(SeedInput(header, nonce));
      var last := c.sha256(StrictState(c, spec, table, seed, spec.computeRounds));
      HashResult(last, last + c.sha256(seed + last))
  }

  /** One round's 64-byte block, lane by lane. */
  method RoundBlock(tile: TensorTile, raw: Bytes64, state: Bytes32, r: uint32) returns (buf: seq<byte>)
    requires tile.Decodes(raw)
    ensures buf == LanesBytes(raw, state, r, 16)
  {
    hide Lane;
    hide LittleEndian;
    hide Xor32;
    var lane := new int32[16];
    for i := 0 to 16
      invariant forall k :: 0 <= k < i ==> lane[k] as int == Lane(raw, state, r, k)
    {
      lane[i] := ComputeLane(tile, raw, state, r, i);
    }
    buf := [];
    for i := 0 to 16
      invariant forall k :: 0 <= k < 16 ==> lane[k] as int == Lane(raw, state, r, k)
      invariant tile.Decodes(raw)
      invariant buf == LanesBytes(raw, state, r, i)
    {
      LaneBounded(raw, state, r, i);
      var v := Xor32(Xor32(Xor32(LaneWord(lane[i] as int), tile.meta[i]), tile.permute[i]), r);
      buf := buf + LittleEndian(v, 4);
    }
  }

  /** One round on the accessor's tile. */
  method NextState(c: Crypto, spec: Spec, a: Accessor, count: uint64, state: Bytes32, r: uint32) returns (next: Bytes32)
    requires Readable(a) && count == |Table(c, a)| > 0 && r < spec.computeRounds
    ensures next == StrictRound(c, spec, Table(c, a), state, r)
  {
    hide LanesBytes;
    hide LittleEndianValue;
    hide RoundCommit;
    var idx := LittleEndianValue(state[..8]) % count;
    var raw := ReadNode(c, a, idx);
    var tile := new TensorTile();
    tile.Read(raw);
    var buf := RoundBlock(tile, raw, state, r);
    next := c.sha256(state + buf);
    if spec.roundCommitInterval > 0 && (r + 1) % spec.roundCommitInterval == 0 {
      next := RoundCommit(c, r + 1, next);
    }
  }

  method StrictV2Hash(c: Crypto, spec: Spec, header: seq<byte>, nonce: Option<uint64>, a: Accessor)
    returns (out: HashResult)
    requires Readable(a)
    ensures out == StrictHashOf(c, spec, header, nonce, Table(c, a))
  {
    hide StrictRound;
    hide SeedInput;
    ghost var table := Table(c, a);
    var count := NodeCount(c, a);
    if count == 0 {
      return ZeroResult();
    }
    var seed := c.sha256(SeedInput(header, nonce));
    var state := seed;
    for r := 0 to spec.computeRounds
      invariant state == StrictState(c, spec, table, seed, r)
    {
      state := NextState(c, spec, a, count, state, r);
    }
    var last := c.sha256(state);
    var doubled: seq<byte> := seed[..] + last;
    out := HashResult(last, last + c.sha256(doubled));
  }
}
