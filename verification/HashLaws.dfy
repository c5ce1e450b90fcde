/**
 * What the two hashes are, as runs of states: which node each round reads, what it hashes, what the result is made of.
 * The relations here do not mention the functions the code is proved against; the lemmas say the two agree.
 */
module HashLaws {
  import opened Bytes
  import opened DagSpec
  import opened StrictHash
  import opened LatticeHash

  // ----- The seed input

  /** The header, followed by the nonce, if there is one, in eight bytes, lowest first. */
  ghost predicate IsSeedInput(m: seq<byte>, header: seq<byte>, nonce: Option<uint64>) {
    match nonce
    case None => m == header
    case Some(n) => |m| == |header| + 8 && m[..|header|] == header && LittleEndianValue(m[|header|..]) == n
  }

  lemma SeedInputMeans(m: seq<byte>, header: seq<byte>, nonce: Option<uint64>)
    ensures IsSeedInput(m, header, nonce) <==> m == SeedInput(header, nonce)
  {
    hide LittleEndian;
    hide LittleEndianValue;
    if nonce.Some? {
      WordBytes(nonce.value, 8);
      var made := SeedInput(header, nonce);
      assert made[..|header|] == header && made[|header|..] == LittleEndian(nonce.value, 8);
      if IsSeedInput(m, header, nonce) {
        assert m == m[..|header|] + m[|header|..];
      }
    }
  }

  // ----- Which node a round reads

  function Multiple(q: nat, count: nat): nat { q * count }

  /** A number selects node i of a table: it is i plus a multiple of the table's size. */
  ghost predicate Selects(value: nat, count: nat, i: nat) {
    i < count && exists q: nat :: value == i + Multiple(q, count)
  }

  lemma SelectsMeans(value: nat, count: nat, i: nat)
    requires count > 0
    ensures Selects(value, count, i) <==> i == value % count
  {
    var q := value / count;
    assert value == count * q + value % count && 0 <= value % count < count;
    assert q >= 0 by {
      QuotientFits(value, count);
    }
    assert value == value % count + Multiple(q, count);
    if Selects(value, count, i) {
      var p: nat :| value == i + Multiple(p, count);
      DivisionIsUnique(value, count, p, i);
    }
  }

  // ----- The version-2 hash

  /** The 32-bit two's complement of a lane. */
  predicate IsTwosComplement(w: uint32, lane: int) { w == lane || w == lane + 0x1_0000_0000 }

  /** An int8 conversion: the signed number with this byte. */
  predicate IsSigned(x: int, b: byte) { -128 <= x < 128 && (x == b || x == b - 256) }

  /** A product of two matrix elements, both of them bytes of the node. */
  ghost predicate IsProduct(p: int, raw: Bytes64, i: nat, j: nat, k: nat) {
    exists x: int, y: int ::
      IsSigned(x, raw[(16 * i + j) % 64]) && IsSigned(y, raw[(16 * j + k + 17) % 64]) && p == x * y
  }

  /** Row i times column k of the two matrices, added to a start value term by term. */
  ghost predicate IsAccumulated(sums: seq<int>, raw: Bytes64, i: nat, k: nat) {
    |sums| == 17 && forall j :: 0 <= j < 16 ==> IsProduct(sums[j + 1] - sums[j], raw, i, j, k)
  }

  /** Lane i of round r: bias and two state bytes, plus row i times column i + r, modulo 16. */
  ghost predicate IsLane(lane: int, raw: Bytes64, state: Bytes32, r: uint32, i: nat)
    requires i < 16
  {
    exists bias: int, k: nat, sums: seq<int> ::
      && IsSigned(bias, raw[i]) && Selects(i + r, 16, k) && IsAccumulated(sums, raw, i, k)
      && sums[0] == bias + state[i] - state[31 - i] && lane == sums[16]
  }

  /** Four bytes of a round's block: lane i, masked with two bytes of the node and the round number. */
  ghost predicate IsLaneWord(word: seq<byte>, raw: Bytes64, state: Bytes32, r: uint32, i: nat)
    requires i < 16
  {
    |word| == 4 && exists lane: int, w: uint32 ::
      && IsLane(lane, raw, state, r, i) && IsTwosComplement(w, lane)
      && LittleEndianValue(word) == Xor32(Xor32(Xor32(w, raw[32 + i]), raw[i]), r)
  }

  ghost predicate IsLaneBlock(block: seq<byte>, raw: Bytes64, state: Bytes32, r: uint32) {
    |block| == 64 && forall i :: 0 <= i < 16 ==> IsLaneWord(block[4 * i..4 * i + 4], raw, state, r, i)
  }

  /** Every interval-th round hashes the state once more, with the number of rounds done. */
  ghost predicate IsCommitted(c: Crypto, spec: Spec, r: uint32, mid: Bytes32, after: Bytes32) {
    if spec.roundCommitInterval > 0 && (r + 1) % spec.roundCommitInterval == 0
    then exists round: seq<byte> :: |round| == 4 && LittleEndianValue(round) == r + 1 && after == c.sha256(mid + round)
    else after == mid
  }

  /** One round: the state's first eight bytes select the node, whose lanes are hashed with the state. */
  ghost predicate IsStrictStep(c: Crypto, spec: Spec, table: seq<Bytes64>, r: uint32, before: Bytes32, after: Bytes32) {
    exists i: nat, block: seq<byte> ::
      && Selects(LittleEndianValue(before[..8]), |table|, i) && IsLaneBlock(block, table[i], before, r)
      && IsCommitted(c, spec, r, c.sha256(before + block), after)
  }

  ghost predicate IsStrictRun(c: Crypto, spec: Spec, table: seq<Bytes64>, states: seq<Bytes32>) {
    && |states| == spec.computeRounds + 1
    && forall r :: 0 <= r < spec.computeRounds ==> IsStrictStep(c, spec, table, r, states[r], states[r + 1])
  }

  ghost predicate IsStrictHash(c: Crypto, spec: Spec, header: seq<byte>, nonce: Option<uint64>, table: seq<Bytes64>,
                               out: HashResult)
  {
    if table == [] then out == HashResult(Zeros(32), Zeros(64))
    else exists m, states ::
      && IsSeedInput(m, header, nonce) && IsStrictRun(c, spec, table, states) && states[0] == c.sha256(m)
      && out.pow256 == c.sha256(states[spec.computeRounds])
      && out.full512 == out.pow256 + c.sha256(states[0] + out.pow256)
  }

  lemma ProductMeans(p: int, raw: Bytes64, i: nat, j: nat, k: nat)
    requires i < 16 && j < 16 && k < 16
    ensures IsProduct(p, raw, i, j, k) <==> p == A(raw, i, j) * B(raw, j, k)
  {
    if p == A(raw, i, j) * B(raw, j, k) {
      assert IsSigned(A(raw, i, j), raw[(16 * i + j) % 64]) && IsSigned(B(raw, j, k), raw[(16 * j + k + 17) % 64]);
    }
  }

  lemma {:induction false} AccumulatedMeans(sums: seq<int>, raw: Bytes64, i: nat, k: nat, n: nat)
    requires i < 16 && k < 16 && n <= 16 && IsAccumulated(sums, raw, i, k)
    ensures sums[n] == sums[0] + Dot(raw, i, k, n)
  {
    hide IsProduct;
    hide A;
    hide B;
    if n > 0 {
      AccumulatedMeans(sums, raw, i, k, n - 1);
      assert IsProduct(sums[n - 1 + 1] - sums[n - 1], raw, i, n - 1, k);
      ProductMeans(sums[n] - sums[n - 1], raw, i, n - 1, k);
    }
  }

  lemma AccumulatedExists(start: int, raw: Bytes64, i: nat, k: nat) returns (sums: seq<int>)
    requires i < 16 && k < 16
    ensures IsAccumulated(sums, raw, i, k) && sums[0] == start && sums[16] == start + Dot(raw, i, k, 16)
  {
    hide IsProduct;
    hide A;
    hide B;
    sums := seq(17, n requires 0 <= n < 17 => start + Dot(raw, i, k, n));
    forall j | 0 <= j < 16
      ensures IsProduct(sums[j + 1] - sums[j], raw, i, j, k)
    {
      assert sums[j + 1] - sums[j] == A(raw, i, j) * B(raw, j, k);
      ProductMeans(sums[j + 1] - sums[j], raw, i, j, k);
    }
  }

  lemma LaneMeans(lane: int, raw: Bytes64, state: Bytes32, r: uint32, i: nat)
    requires i < 16
    ensures IsLane(lane, raw, state, r, i) <==> lane == Lane(raw, state, r, i)
  {
    hide IsAccumulated;
    hide Selects;
    hide Dot;
    var column := (i + r) % 16;
    SelectsMeans(i + r, 16, column);
    var bias := SignedByte(raw[i]);
    var sums := AccumulatedExists(bias + state[i] - state[31 - i], raw, i, column);
    assert IsSigned(bias, raw[i]) && Selects(i + r, 16, column);
    if IsLane(lane, raw, state, r, i) {
      LaneResult(lane, raw, state, r, i);
    }
  }

  lemma LaneResult(lane: int, raw: Bytes64, state: Bytes32, r: uint32, i: nat)
    requires i < 16 && IsLane(lane, raw, state, r, i)
    ensures lane == Lane(raw, state, r, i)
  {
    hide IsProduct;
    hide Selects;
    hide Dot;
    var bias: int, k: nat, sums: seq<int> :|
      && IsSigned(bias, raw[i]) && Selects(i + r, 16, k) && IsAccumulated(sums, raw, i, k)
      && sums[0] == bias + state[i] - state[31 - i] && lane == sums[16];
    SelectsMeans(i + r, 16, k);
    AccumulatedMeans(sums, raw, i, k, 16);
  }

  lemma LaneWordMeans(word: seq<byte>, raw: Bytes64, state: Bytes32, r: uint32, i: nat)
    requires i < 16
    ensures IsLaneWord(word, raw, state, r, i) <==> word == LaneBytes(raw, state, r, i)
  {
    hide IsLane;
    hide Lane;
    hide Xor32;
    hide LittleEndian;
    hide LittleEndianValue;
    LaneBounded(raw, state, r, i);
    var lane := Lane(raw, state, r, i);
    var w := LaneWord(lane);
    var masked := Xor32(Xor32(Xor32(w, raw[32 + i]), raw[i]), r);
    forall v: int
      ensures IsLane(v, raw, state, r, i) <==> v == lane
    {
      LaneMeans(v, raw, state, r, i);
    }
    assert forall v: uint32 :: IsTwosComplement(v, lane) <==> v == w;
    WordBytes(masked, 4);
    assert LaneBytes(raw, state, r, i) == LittleEndian(masked, 4);
    if word == LittleEndian(masked, 4) {
      assert IsLane(lane, raw, state, r, i) && IsTwosComplement(w, lane) && LittleEndianValue(word) == masked;
    }
  }

  lemma {:induction false} LaneOfBlock(raw: Bytes64, state: Bytes32, r: uint32, n: nat, i: nat)
    requires i < n <= 16
    ensures LanesBytes(raw, state, r, n)[4 * i..4 * i + 4] == LaneBytes(raw, state, r, i)
  {
    hide LaneBytes;
    var (first, last) := (LanesBytes(raw, state, r, n - 1), LaneBytes(raw, state, r, n - 1));
    assert LanesBytes(raw, state, r, n) == first + last;
    if i == n - 1 {
      assert (first + last)[4 * i..4 * i + 4] == last;
    } else {
      LaneOfBlock(raw, state, r, n - 1, i);
      assert (first + last)[4 * i..4 * i + 4] == first[4 * i..4 * i + 4];
    }
  }

  lemma LaneBlockMeans(block: seq<byte>, raw: Bytes64, state: Bytes32, r: uint32)
    ensures IsLaneBlock(block, raw, state, r) <==> block == LanesBytes(raw, state, r, 16)
  {
    hide IsLaneWord;
    hide LaneBytes;
    var made := LanesBytes(raw, state, r, 16);
    forall i | 0 <= i < 16
      ensures made[4 * i..4 * i + 4] == LaneBytes(raw, state, r, i)
      ensures IsLaneWord(made[4 * i..4 * i + 4], raw, state, r, i)
    {
      LaneOfBlock(raw, state, r, 16, i);
      LaneWordMeans(made[4 * i..4 * i + 4], raw, state, r, i);
    }
    if IsLaneBlock(block, raw, state, r) {
      forall k | 0 <= k < 64
        ensures block[k] == made[k]
      {
        var i := k / 4;
        assert IsLaneWord(block[4 * i..4 * i + 4], raw, state, r, i);
        LaneWordMeans(block[4 * i..4 * i + 4], raw, state, r, i);
        assert block[4 * i..4 * i + 4][k - 4 * i] == block[k] && made[4 * i..4 * i + 4][k - 4 * i] == made[k];
      }
    }
  }

  lemma CommittedMeans(c: Crypto, spec: Spec, r: uint32, mid: Bytes32, after: Bytes32)
    requires r < spec.computeRounds
    ensures IsCommitted(c, spec, r, mid, after) <==>
      after ==
        if spec.roundCommitInterval > 0 && (r + 1) % spec.roundCommitInterval == 0 then RoundCommit(c, r + 1, mid)
        else mid
  {
    hide LittleEndian;
    hide LittleEndianValue;
    WordBytes(r + 1, 4);
  }

  lemma StrictStepMeans(c: Crypto, spec: Spec, table: seq<Bytes64>, r: uint32, before: Bytes32, after: Bytes32)
    requires table != [] && r < spec.computeRounds
    ensures IsStrictStep(c, spec, table, r, before, after) <==> after == StrictRound(c, spec, table, before, r)
  {
    hide LanesBytes;
    hide IsLaneBlock;
    hide IsCommitted;
    hide LittleEndianValue;
    hide Selects;
    hide RoundCommit;
    var (value, count) := (LittleEndianValue(before[..8]), |table|);
    var i := value % count;
    assert i == TileIndex(before, count);
    var block := LanesBytes(table[i], before, r, 16);
    forall j: nat
      ensures Selects(value, count, j) <==> j == i
    {
      SelectsMeans(value, count, j);
    }
    forall b: seq<byte>
      ensures IsLaneBlock(b, table[i], before, r) <==> b == block
    {
      LaneBlockMeans(b, table[i], before, r);
    }
    CommittedMeans(c, spec, r, c.sha256(before + block), after);
  }

  lemma {:induction false} StrictRunMeans(c: Crypto, spec: Spec, table: seq<Bytes64>, states: seq<Bytes32>, r: uint32)
    requires table != [] && IsStrictRun(c, spec, table, states) && r <= spec.computeRounds
    ensures states[r] == StrictState(c, spec, table, states[0], r)
  {
    hide IsStrictStep;
    hide StrictRound;
    if r > 0 {
      StrictRunMeans(c, spec, table, states, r - 1);
      assert IsStrictStep(c, spec, table, r - 1, states[r - 1], states[r - 1 + 1]);
      StrictStepMeans(c, spec, table, r - 1, states[r - 1], states[r]);
    }
  }

  lemma StrictRunExists(c: Crypto, spec: Spec, table: seq<Bytes64>, seed: Bytes32) returns (states: seq<Bytes32>)
    requires table != []
    ensures IsStrictRun(c, spec, table, states) && states[0] == seed
    ensures states[spec.computeRounds] == StrictState(c, spec, table, seed, spec.computeRounds)
  {
    hide IsStrictStep;
    hide StrictRound;
    states := seq(spec.computeRounds + 1,
                  r requires 0 <= r <= spec.computeRounds => StrictState(c, spec, table, seed, r));
    forall r | 0 <= r < spec.computeRounds
      ensures IsStrictStep(c, spec, table, r, states[r], states[r + 1])
    {
      StrictStepMeans(c, spec, table, r, states[r], states[r + 1]);
    }
  }

  /** The version-2 hash is the result of such a run, and of no other. */
  lemma StrictHashMeans(c: Crypto, spec: Spec, header: seq<byte>, nonce: Option<uint64>, table: seq<Bytes64>,
                        out: HashResult)
    ensures IsStrictHash(c, spec, header, nonce, table, out) <==> out == StrictHashOf(c, spec, header, nonce, table)
  {
    hide IsSeedInput;
    hide SeedInput;
    hide IsStrictRun;
    hide StrictState;
    if table != [] {
      var made := SeedInput(header, nonce);
      SeedInputMeans(made, header, nonce);
      var run := StrictRunExists(c, spec, table, c.sha256(made));
      if IsStrictHash(c, spec, header, nonce, table, out) {
        StrictRunResult(c, spec, header, nonce, table, out);
      }
      RunLength(c, spec, table, run);
    }
  }

  lemma RunLength(c: Crypto, spec: Spec, table: seq<Bytes64>, states: seq<Bytes32>)
    requires IsStrictRun(c, spec, table, states)
    ensures |states| == spec.computeRounds + 1
  {
  }

  lemma StrictRunResult(c: Crypto, spec: Spec, header: seq<byte>, nonce: Option<uint64>, table: seq<Bytes64>,
                        out: HashResult)
    requires table != [] && IsStrictHash(c, spec, header, nonce, table, out)
    ensures out == StrictHashOf(c, spec, header, nonce, table)
  {
    hide IsSeedInput;
    hide SeedInput;
    hide IsStrictStep;
    hide StrictState;
    var m, states :|
      && IsSeedInput(m, header, nonce) && IsStrictRun(c, spec, table, states) && states[0] == c.sha256(m)
      && out.pow256 == c.sha256(states[spec.computeRounds])
      && out.full512 == out.pow256 + c.sha256(states[0] + out.pow256);
    SeedInputMeans(m, header, nonce);
    StrictRunMeans(c, spec, table, states, spec.computeRounds);
  }

  // ----- The version-1 hash

  /** The mix XORed against each half of the node. */
  ghost predicate IsRoundInput(input: seq<byte>, mix: Bytes32, node: Bytes64) {
    |input| == 64 && forall j :: 0 <= j < 32 ==>
      input[j] == Xor8(mix[j], node[j]) && input[32 + j] == Xor8(mix[j], node[32 + j])
  }

  /** The FNV-1a hash of the mix and the round number selects node i. */
  ghost predicate LatticeReads(mix: Bytes32, r: uint64, count: nat, i: nat) {
    exists round: seq<byte> ::
      |round| == 8 && LittleEndianValue(round) == r && Selects(Fnv1a64(mix + round), count, i)
  }

  ghost predicate IsLatticeStep(c: Crypto, table: seq<Bytes64>, r: uint64, before: Bytes32, after: Bytes32) {
    exists i: nat, input: seq<byte> ::
      LatticeReads(before, r, |table|, i) && i < |table| && IsRoundInput(input, before, table[i])
      && after == c.blake3_256(input)
  }

  ghost predicate IsLatticeRun(c: Crypto, spec: Spec, table: seq<Bytes64>, mixes: seq<Bytes32>) {
    && |mixes| == spec.readsPerHash + 1
    && forall r :: 0 <= r < spec.readsPerHash ==> IsLatticeStep(c, table, r, mixes[r], mixes[r + 1])
  }

  ghost predicate IsLatticeHash(c: Crypto, spec: Spec, header: seq<byte>, nonce: Option<uint64>, table: seq<Bytes64>,
                                out: HashResult)
  {
    if table == [] then out == HashResult(Zeros(32), Zeros(64))
    else exists m, mixes ::
      && IsSeedInput(m, header, nonce) && IsLatticeRun(c, spec, table, mixes)
      && mixes[0] == c.sha3_512(m)[..32]
      && out.full512 == c.sha3_512(c.sha3_512(m) + mixes[spec.readsPerHash])
      && out.pow256 == out.full512[..32]
  }

  lemma RoundInputMeans(input: seq<byte>, mix: Bytes32, node: Bytes64)
    ensures IsRoundInput(input, mix, node) <==> input == RoundInput(mix, node)
  {
    hide Xor8;
    var made := RoundInput(mix, node);
    forall j | 0 <= j < 32
      ensures made[j] == Xor8(mix[j], node[j]) && made[32 + j] == Xor8(mix[j], node[32 + j])
    {
      assert j % 32 == j && (32 + j) % 32 == j;
    }
    if IsRoundInput(input, mix, node) {
      forall k | 0 <= k < 64
        ensures input[k] == made[k]
      {
        var j := if k < 32 then k else k - 32;
        assert input[j] == made[j] && input[32 + j] == made[32 + j];
      }
    }
  }

  lemma LatticeReadsMeans(mix: Bytes32, r: uint64, count: nat, i: nat)
    requires count > 0
    ensures LatticeReads(mix, r, count, i) <==> i == NodeIndex(mix, r, count)
  {
    hide Fnv1a64;
    hide Selects;
    hide LittleEndian;
    hide LittleEndianValue;
    WordBytes(r, 8);
    SelectsMeans(Fnv1a64(mix + LittleEndian(r, 8)), count, i);
  }

  lemma LatticeStepMeans(c: Crypto, table: seq<Bytes64>, r: uint64, before: Bytes32, after: Bytes32)
    requires table != []
    ensures IsLatticeStep(c, table, r, before, after) <==> after == MixRound(c, table, before, r)
  {
    hide LatticeReads;
    hide NodeIndex;
    hide IsRoundInput;
    hide RoundInput;
    var i := NodeIndex(before, r, |table|);
    NodeIndexFits(before, r, |table|);
    forall j: nat
      ensures LatticeReads(before, r, |table|, j) <==> j == i
    {
      LatticeReadsMeans(before, r, |table|, j);
    }
    forall input: seq<byte>
      ensures IsRoundInput(input, before, table[i]) <==> input == RoundInput(before, table[i])
    {
      RoundInputMeans(input, before, table[i]);
    }
  }

  lemma NodeIndexFits(mix: Bytes32, r: uint64, count: nat)
    requires count > 0
    ensures NodeIndex(mix, r, count) < count
  {
  }

  lemma {:induction false} LatticeRunMeans(c: Crypto, spec: Spec, table: seq<Bytes64>, mixes: seq<Bytes32>, r: uint64)
    requires table != [] && IsLatticeRun(c, spec, table, mixes) && r <= spec.readsPerHash
    ensures mixes[r] == MixAfter(c, table, mixes[0], r)
    decreases r
  {
    hide IsLatticeStep;
    hide MixRound;
    if r > 0 {
      LatticeRunMeans(c, spec, table, mixes, r - 1);
      assert IsLatticeStep(c, table, r - 1, mixes[r - 1], mixes[r - 1 + 1]);
      LatticeStepMeans(c, table, r - 1, mixes[r - 1], mixes[r]);
    }
  }

  lemma LatticeRunExists(c: Crypto, spec: Spec, table: seq<Bytes64>, start: Bytes32) returns (mixes: seq<Bytes32>)
    requires table != []
    ensures IsLatticeRun(c, spec, table, mixes) && mixes[0] == start
    ensures mixes[spec.readsPerHash] == MixAfter(c, table, start, spec.readsPerHash)
  {
    hide IsLatticeStep;
    hide MixRound;
    mixes := seq(spec.readsPerHash + 1, r requires 0 <= r <= spec.readsPerHash => MixAfter(c, table, start, r));
    forall r | 0 <= r < spec.readsPerHash
      ensures IsLatticeStep(c, table, r, mixes[r], mixes[r + 1])
    {
      LatticeStepMeans(c, table, r, mixes[r], mixes[r + 1]);
    }
  }

  /** The version-1 hash is the result of such a run, and of no other. */
  lemma LatticeHashMeans(c: Crypto, spec: Spec, header: seq<byte>, nonce: Option<uint64>, table: seq<Bytes64>,
                         out: HashResult)
    ensures IsLatticeHash(c, spec, header, nonce, table, out) <==> out == LatticeHashOf(c, spec, header, nonce, table)
  {
    hide IsSeedInput;
    hide SeedInput;
    hide IsLatticeStep;
    hide MixAfter;
    if table != [] {
      var made := SeedInput(header, nonce);
      SeedInputMeans(made, header, nonce);
      var run := LatticeRunExists(c, spec, table, c.sha3_512(made)[..32]);
      if IsLatticeHash(c, spec, header, nonce, table, out) {
        var m, mixes :|
          && IsSeedInput(m, header, nonce) && IsLatticeRun(c, spec, table, mixes)
          && mixes[0] == c.sha3_512(m)[..32]
          && out.full512 == c.sha3_512(c.sha3_512(m) + mixes[spec.readsPerHash])
          && out.pow256 == out.full512[..32];
        SeedInputMeans(m, header, nonce);
        LatticeRunMeans(c, spec, table, mixes, spec.readsPerHash);
      }
    }
  }

  /** FNV-1a's published values: the offset basis, and the hashes of "a" and "foobar". */
  lemma FnvVectors()
    ensures Fnv1a64([]) == 0xcbf29ce484222325
    ensures Fnv1a64([97]) == 0xaf63dc4c8601ec8c
    ensures Fnv1a64([102, 111, 111, 98, 97, 114]) == 0x85944171f73967e8
  {
    hide Fnv1a64;
    FnvOfNothing();
    FnvOfA();
    FnvOfFoobar();
  }

  lemma FnvOfA()
    ensures Fnv1a64([97]) == 0xaf63dc4c8601ec8c
  {
    hide Fnv1a64;
    FnvOfNothing();
    FnvFrom([], 0xcbf29ce484222325, 97, 68, 875948729822, 0xaf63dc4c8601ec8c);
    assert [] + [97] == [97];
  }

  lemma FnvOfFoo()
    ensures Fnv1a64([102, 111, 111]) == 0xdcb27518fed9d577
  {
    hide Fnv1a64;
    FnvOfNothing();
    FnvFrom([], 0xcbf29ce484222325, 102, 67, 875948729822, 0xaf63db4c8601ead9);
    assert [] + [102] == [102];
    FnvFrom([102], 0xaf63db4c8601ead9, 111, 182, 753294593456, 0x08985907b541d342);
    assert [102] + [111] == [102, 111];
    FnvFrom([102, 111], 0x08985907b541d342, 111, 45, 36915709891, 0xdcb27518fed9d577);
    assert [102, 111] + [111] == [102, 111, 111];
  }

  lemma FnvOfFoobar()
    ensures Fnv1a64([102, 111, 111, 98, 97, 114]) == 0x85944171f73967e8
  {
    hide Fnv1a64;
    FnvOfFoo();
    FnvFrom([102, 111, 111], 0xdcb27518fed9d577, 98, 21, 947886824053, 0xdd120e790c2512af);
    assert [102, 111, 111] + [98] == [102, 111, 111, 98];
    FnvFrom([102, 111, 111, 98], 0xdd120e790c2512af, 97, 206, 949490711171, 0xcac165afa2fef40a);
    assert [102, 111, 111, 98] + [97] == [102, 111, 111, 98, 97];
    FnvFrom([102, 111, 111, 98, 97], 0xcac165afa2fef40a, 114, 120, 870828060923, 0x85944171f73967e8);
    assert [102, 111, 111, 98, 97] + [114] == [102, 111, 111, 98, 97, 114];
  }

  lemma FnvOfNothing()
    ensures Fnv1a64([]) == 0xcbf29ce484222325
  {
  }

  /** One step of the FNV-1a loop with its product written out. */
  lemma FnvFrom(data: seq<byte>, h: uint64, b: byte, x: byte, q: nat, next: uint64)
    requires Fnv1a64(data) == h && Xor8(h % 256, b) == x
    requires (h - h % 256 + x) * 0x100000001b3 == q * TWO_TO_THE_64 + next
    ensures Fnv1a64(data + [b]) == next
  {
    hide Fnv1a64;
    hide Xor8;
    FnvAppend(data, b);
  }

  lemma FnvAppend(data: seq<byte>, b: byte)
    ensures Fnv1a64(data + [b]) == FnvStep(Fnv1a64(data), b)
  {
    assert (data + [b])[..|data|] == data;
  }
}
