/** What the hashes depend on: the nonce, and which nodes of the table. */
module HashReach {
  import opened Bytes
  import opened DagSpec
  import opened StrictHash
  import opened LatticeHash
  import opened Backends
  import opened HashLaws
  import opened FnvDigits

  function Fill(b: byte, k: nat): (s: seq<byte>)
    ensures |s| == k && forall i :: 0 <= i < k ==> s[i] == b
  {
    seq(k, i => b)
  }

  /** The hash sends everything that starts with this colour to the colour itself. */
  ghost predicate Keeps32(hash: seq<byte> -> Bytes32, colour: Bytes32) {
    forall x: seq<byte> :: |x| >= 32 && x[..32] == colour ==> hash(x) == colour
  }

  lemma ColourIsKept(hash: seq<byte> -> Bytes32, colour: Bytes32, rest: seq<byte>)
    requires Keeps32(hash, colour)
    ensures hash(colour + rest) == colour && hash(colour) == colour
  {
    assert (colour + rest)[..32] == colour && colour[..32] == colour;
  }

  lemma RoundKeeps(c: Crypto, spec: Spec, table: seq<Bytes64>, colour: Bytes32, r: uint32)
    requires table != [] && r < spec.computeRounds && Keeps32(c.sha256, colour)
    ensures StrictRound(c, spec, table, colour, r) == colour
  {
    hide Keeps32;
    hide LanesBytes;
    hide LittleEndian;
    ColourIsKept(c.sha256, colour, LanesBytes(table[TileIndex(colour, |table|)], colour, r, 16));
    ColourIsKept(c.sha256, colour, LittleEndian(r + 1, 4));
  }

  /** Once a state has a colour that is kept, all later ones have it. */
  lemma {:induction false} StateKeeps(c: Crypto, spec: Spec, table: seq<Bytes64>, seed: Bytes32, colour: Bytes32,
                                      from: uint32, r: uint32)
    requires table != [] && from <= r <= spec.computeRounds && Keeps32(c.sha256, colour)
    requires StrictState(c, spec, table, seed, from) == colour
    ensures StrictState(c, spec, table, seed, r) == colour
    decreases r
  {
    hide StrictRound;
    hide Keeps32;
    if from < r {
      StateKeeps(c, spec, table, seed, colour, from, r - 1);
      RoundKeeps(c, spec, table, colour, r - 1);
    }
  }

  // ----- The nonce

  /** A hash that paints the input m, and whatever starts with red, red, and everything else blue. */
  function Painter32(m: seq<byte>, red: Bytes32, blue: Bytes32): seq<byte> -> Bytes32 {
    (x: seq<byte>) => if x == m || (|x| >= 32 && x[..32] == red) then red else blue
  }

  function Painter64(m: seq<byte>, red: Bytes64, blue: Bytes64): seq<byte> -> Bytes64 {
    (x: seq<byte>) => if x == m || (|x| >= 64 && x[..64] == red) then red else blue
  }

  lemma PainterKeeps(m: seq<byte>, r: byte, b: byte)
    requires m != [] && r != b && m[0] != b
    ensures Keeps32(Painter32(m, Fill(r, 32), Fill(b, 32)), Fill(r, 32))
    ensures Keeps32(Painter32(m, Fill(r, 32), Fill(b, 32)), Fill(b, 32))
  {
    forall x: seq<byte> | |x| >= 32 && x[..32] == Fill(b, 32)
      ensures Painter32(m, Fill(r, 32), Fill(b, 32))(x) == Fill(b, 32)
    {
      assert x[0] == x[..32][0] == b && Fill(r, 32)[0] == r;
    }
  }

  lemma PainterTells(m1: seq<byte>, m2: seq<byte>, r: byte, b: byte)
    requires m1 != m2 && m2 != [] && m2[0] != r
    ensures Painter32(m1, Fill(r, 32), Fill(b, 32))(m1) == Fill(r, 32)
    ensures Painter32(m1, Fill(r, 32), Fill(b, 32))(m2) == Fill(b, 32)
  {
    if |m2| >= 32 {
      assert m2[..32][0] == m2[0] && Fill(r, 32)[0] == r;
    }
  }

  /** Two inputs of the first digest that a painter tells apart lead to different version-2 hashes. */
  lemma StrictTellsApart(c: Crypto, spec: Spec, header: seq<byte>, n1: uint64, n2: uint64, table: seq<Bytes64>,
                         red: Bytes32, blue: Bytes32)
    requires table != [] && Keeps32(c.sha256, red) && Keeps32(c.sha256, blue)
    requires c.sha256(SeedInput(header, Some(n1))) == red && c.sha256(SeedInput(header, Some(n2))) == blue
    ensures StrictHashOf(c, spec, header, Some(n1), table).pow256 == red
    ensures StrictHashOf(c, spec, header, Some(n2), table).pow256 == blue
  {
    hide SeedInput;
    hide StrictRound;
    hide Keeps32;
    StateKeeps(c, spec, table, red, red, 0, spec.computeRounds);
    StateKeeps(c, spec, table, blue, blue, 0, spec.computeRounds);
    ColourIsKept(c.sha256, red, []);
    ColourIsKept(c.sha256, blue, []);
  }

  lemma LatticeTellsApart(c: Crypto, spec: Spec, header: seq<byte>, n1: uint64, n2: uint64, table: seq<Bytes64>,
                          r: byte, b: byte)
    requires table != [] && r != b && SeedInput(header, Some(n1)) != SeedInput(header, Some(n2))
    requires SeedInput(header, Some(n1)) != [] && SeedInput(header, Some(n2)) != []
    requires SeedInput(header, Some(n1))[0] != b && SeedInput(header, Some(n2))[0] != r
    requires c.sha3_512 == Painter64(SeedInput(header, Some(n1)), Fill(r, 64), Fill(b, 64))
    ensures LatticeHashOf(c, spec, header, Some(n1), table).pow256 == Fill(r, 32)
    ensures LatticeHashOf(c, spec, header, Some(n2), table).pow256 == Fill(b, 32)
  {
    hide SeedInput;
    hide MixAfter;
    var (m1, m2) := (SeedInput(header, Some(n1)), SeedInput(header, Some(n2)));
    var (red, blue) := (Fill(r, 64), Fill(b, 64));
    assert c.sha3_512(m1) == red;
    assert c.sha3_512(m2) == blue by {
      if |m2| >= 64 {
        assert m2[..64][0] == m2[0] && red[0] == r;
      }
    }
    var mix1 := MixAfter(c, table, red[..32], spec.readsPerHash);
    var mix2 := MixAfter(c, table, blue[..32], spec.readsPerHash);
    assert c.sha3_512(red + mix1) == red by {
      assert (red + mix1)[..64] == red;
    }
    assert c.sha3_512(blue + mix2) == blue by {
      assert (blue + mix2)[..64] == blue && (blue + mix2)[0] == b && blue[0] == b && red[0] == r;
    }
    assert red[..32] == Fill(r, 32) && blue[..32] == Fill(b, 32);
  }

  lemma SeedInputsDiffer(header: seq<byte>, n1: uint64, n2: uint64)
    requires n1 != n2
    ensures SeedInput(header, Some(n1)) != SeedInput(header, Some(n2))
    ensures SeedInput(header, Some(n1)) != [] && SeedInput(header, Some(n2)) != []
  {
    hide SeedInput;
    hide LittleEndianValue;
    SeedInputMeans(SeedInput(header, Some(n1)), header, Some(n1));
    SeedInputMeans(SeedInput(header, Some(n2)), header, Some(n2));
  }

  /** The nonce matters: for any spec, header, table and two nonces, some hash functions give different results. */
  lemma NonceMatters(spec: Spec, header: seq<byte>, n1: uint64, n2: uint64, table: seq<Bytes64>) returns (c: Crypto)
    requires n1 != n2 && table != []
    ensures HashOf(c, spec, header, Some(n1), table).pow256 != HashOf(c, spec, header, Some(n2), table).pow256
  {
    hide SeedInput;
    hide StrictHashOf;
    hide LatticeHashOf;
    hide Keeps32;
    SeedInputsDiffer(header, n1, n2);
    var (m1, m2) := (SeedInput(header, Some(n1)), SeedInput(header, Some(n2)));
    var r: byte := if m2[0] != 0 then 0 else 1;
    var b: byte := if m1[0] != 2 then 2 else 3;
    c := Crypto(Painter32(m1, Fill(r, 32), Fill(b, 32)), Painter64(m1, Fill(r, 64), Fill(b, 64)),
                (x: seq<byte>) => Zeros(64), (x: seq<byte>) => Zeros(32), (x: seq<byte>) => Zeros(64));
    PainterKeeps(m1, r, b);
    PainterTells(m1, m2, r, b);
    StrictTellsApart(c, spec, header, n1, n2, table, Fill(r, 32), Fill(b, 32));
    LatticeTellsApart(c, spec, header, n1, n2, table, r, b);
    assert Fill(r, 32)[0] != Fill(b, 32)[0];
  }

  // ----- Every node of a version-2 table

  lemma XorAsBits(x: uint32, y: uint32)
    ensures Xor32(x, y) as bv32 == (x as bv32) ^ (y as bv32)
  {
    WordOfBits((x as bv32) ^ (y as bv32));
  }

  lemma WordOfBits(v: bv32)
    ensures (v as uint32) as bv32 == v
  {
  }

  lemma BitFlips(v: bv32, zero: bv32, one: bv32)
    requires zero == 0 && one == 1
    ensures ((v ^ zero) ^ zero) ^ zero != ((v ^ one) ^ zero) ^ zero
  {
  }

  lemma SmallBits()
    ensures 0 as uint32 as bv32 == 0 && 1 as uint32 as bv32 == 1
  {
  }

  /** A mask of one shows in the masked word. */
  lemma MaskShows(w: uint32)
    ensures Xor32(Xor32(Xor32(w, 0), 0), 0) != Xor32(Xor32(Xor32(w, 1), 0), 0)
  {
    hide Xor32;
    SmallBits();
    XorAsBits(w, 0);
    XorAsBits(Xor32(w, 0), 0);
    XorAsBits(Xor32(Xor32(w, 0), 0), 0);
    XorAsBits(w, 1);
    XorAsBits(Xor32(w, 1), 0);
    XorAsBits(Xor32(Xor32(w, 1), 0), 0);
    BitFlips(w as bv32, 0 as uint32 as bv32, 1 as uint32 as bv32);
  }

  /** The zero node, and one that differs from it in the byte that masks the first lane. */
  function ZeroNode(): Bytes64 { Zeros(64) }

  function MaskedNode(): Bytes64 { Zeros(64)[32 := 1] }

  lemma {:induction false} ZeroRow(raw: Bytes64, k: nat, n: nat)
    requires k < 16 && n <= 16 && forall j :: 0 <= j < 16 ==> raw[j] == 0
    ensures Dot(raw, 0, k, n) == 0
  {
    hide A;
    hide B;
    if n > 0 {
      ZeroRow(raw, k, n - 1);
      ZeroElement(raw, n - 1);
      ZeroTerm(A(raw, 0, n - 1), B(raw, n - 1, k));
    }
  }

  lemma ZeroElement(raw: Bytes64, j: nat)
    requires j < 16 && raw[j] == 0
    ensures A(raw, 0, j) == 0
  {
  }

  lemma ZeroTerm(x: int, y: int)
    requires x == 0
    ensures x * y == 0
  {
  }

  /** In round 0 those two nodes give different blocks, whatever the state. */
  lemma BlocksDiffer(state: Bytes32)
    ensures LanesBytes(ZeroNode(), state, 0, 16) != LanesBytes(MaskedNode(), state, 0, 16)
  {
    hide LanesBytes;
    hide LaneBytes;
    LaneOfBlock(ZeroNode(), state, 0, 16, 0);
    LaneOfBlock(MaskedNode(), state, 0, 16, 0);
    FirstLanesDiffer(state);
  }

  lemma FirstLanesDiffer(state: Bytes32)
    ensures LaneBytes(ZeroNode(), state, 0, 0) != LaneBytes(MaskedNode(), state, 0, 0)
  {
    hide LittleEndian;
    hide LittleEndianValue;
    hide Xor32;
    hide LaneBytes;
    FirstLane(ZeroNode(), state);
    FirstLane(MaskedNode(), state);
    var w := LaneWord(state[0] as int - state[31] as int);
    MaskShows(w);
    WordBytes(Xor32(Xor32(Xor32(w, 0), 0), 0), 4);
    WordBytes(Xor32(Xor32(Xor32(w, 1), 0), 0), 4);
  }

  /** Where the node starts with sixteen zeros, its first lane in round 0 is two state bytes and one mask byte. */
  lemma FirstLane(raw: Bytes64, state: Bytes32)
    requires forall j :: 0 <= j < 16 ==> raw[j] == 0
    ensures LaneBytes(raw, state, 0, 0)
         == LittleEndian(Xor32(Xor32(Xor32(LaneWord(state[0] as int - state[31] as int), raw[32]), 0), 0), 4)
  {
    hide LittleEndian;
    hide Xor32;
    hide Dot;
    ZeroRow(raw, 0, 16);
    assert Lane(raw, state, 0, 0) == state[0] as int - state[31] as int;
  }

  /** A state whose first eight bytes are the number k. */
  function StateFor(k: uint64, fill: byte): Bytes32 { LittleEndian(k, 8) + Fill(fill, 24) }

  lemma StateSelects(k: uint64, fill: byte, count: nat)
    requires k < count
    ensures TileIndex(StateFor(k, fill), count) == k && StateFor(k, fill)[8] == fill
  {
    hide LittleEndian;
    hide LittleEndianValue;
    WordBytes(k, 8);
    assert StateFor(k, fill)[..8] == LittleEndian(k, 8);
    SmallRemainder(k, count);
  }

  lemma SmallRemainder(k: nat, count: nat)
    requires k < count
    ensures k % count == k
  {
    DivisionIsUnique(k, count, 0, k);
  }

  /** A hash that gives `state` for input m, paints one block after it red, and otherwise keeps red and blue apart. */
  function Detector(m: seq<byte>, state: Bytes32, block: seq<byte>, red: Bytes32, blue: Bytes32): seq<byte> -> Bytes32 {
    (x: seq<byte>) =>
      if x == m then state
      else if x == state + block || (|x| >= 32 && x[..32] == red) then red
      else blue
  }

  lemma DetectorKeeps(m: seq<byte>, state: Bytes32, block: seq<byte>, r: byte, b: byte)
    requires r != b && state[8] != b && (|m| > 8 ==> m[8] != r && m[8] != b)
    ensures Keeps32(Detector(m, state, block, Fill(r, 32), Fill(b, 32)), Fill(r, 32))
    ensures Keeps32(Detector(m, state, block, Fill(r, 32), Fill(b, 32)), Fill(b, 32))
  {
    var (red, blue) := (Fill(r, 32), Fill(b, 32));
    forall x: seq<byte> | |x| >= 32 && x[..32] == red
      ensures Detector(m, state, block, red, blue)(x) == red
    {
      assert x[8] == x[..32][8] == r;
    }
    forall x: seq<byte> | |x| >= 32 && x[..32] == blue
      ensures Detector(m, state, block, red, blue)(x) == blue
    {
      assert x[8] == x[..32][8] == b && red[8] == r && (state + block)[8] == state[8];
    }
  }

  /** Round 0 from a state that selects node k, under a hash that paints the outcome. */
  lemma RoundPaints(c: Crypto, spec: Spec, table: seq<Bytes64>, state: Bytes32, k: nat, colour: Bytes32)
    requires k < |table| && spec.computeRounds > 0 && Keeps32(c.sha256, colour)
    requires TileIndex(state, |table|) == k && c.sha256(state + LanesBytes(table[k], state, 0, 16)) == colour
    ensures StrictRound(c, spec, table, state, 0) == colour
  {
    hide Keeps32;
    hide LanesBytes;
    hide LittleEndian;
    hide TileIndex;
    ColourIsKept(c.sha256, colour, LittleEndian(1, 4));
  }

  /** From there the result has that colour. */
  lemma StrictResult(c: Crypto, spec: Spec, header: seq<byte>, nonce: Option<uint64>, table: seq<Bytes64>,
                     colour: Bytes32)
    requires table != [] && spec.computeRounds > 0 && Keeps32(c.sha256, colour)
    requires StrictRound(c, spec, table, c.sha256(SeedInput(header, nonce)), 0) == colour
    ensures StrictHashOf(c, spec, header, nonce, table).pow256 == colour
  {
    hide SeedInput;
    hide StrictRound;
    hide Keeps32;
    var seed := c.sha256(SeedInput(header, nonce));
    assert StrictState(c, spec, table, seed, 0) == seed;
    assert StrictState(c, spec, table, seed, 1) == StrictRound(c, spec, table, seed, 0);
    StateKeeps(c, spec, table, seed, colour, 1, spec.computeRounds);
    ColourIsKept(c.sha256, colour, []);
  }

  /**
   * Every node of a version-2 table matters: for any spec with rounds, header, nonce, table and node k, some hash
   * functions and some new contents of node k alone change the result.
   */
  lemma StrictReadsEveryNode(spec: Spec, header: seq<byte>, nonce: Option<uint64>, table: seq<Bytes64>, k: uint64)
    returns (c: Crypto, node: Bytes64)
    requires k < |table| && spec.computeRounds > 0
    ensures StrictHashOf(c, spec, header, nonce, table).pow256
         != StrictHashOf(c, spec, header, nonce, table[k := node]).pow256
  {
    hide SeedInput;
    hide LanesBytes;
    hide Keeps32;
    hide StrictRound;
    hide StrictHashOf;
    hide TileIndex;
    hide StateFor;
    var m := SeedInput(header, nonce);
    var taken: byte := if |m| > 8 then m[8] else 0;
    var f: byte := if taken != 1 then 1 else 2;
    var r: byte := if taken != 3 then 3 else 4;
    var b: byte := if taken != 5 then 5 else 6;
    var state := StateFor(k, f);
    StateSelects(k, f, |table|);
    BlocksDiffer(state);
    var block := LanesBytes(table[k], state, 0, 16);
    node := if LanesBytes(ZeroNode(), state, 0, 16) != block then ZeroNode() else MaskedNode();
    var other := LanesBytes(node, state, 0, 16);
    assert other != block;
    var (red, blue) := (Fill(r, 32), Fill(b, 32));
    c := Crypto(Detector(m, state, block, red, blue), (x: seq<byte>) => Zeros(64), (x: seq<byte>) => Zeros(64),
                (x: seq<byte>) => Zeros(32), (x: seq<byte>) => Zeros(64));
    DetectorKeeps(m, state, block, r, b);
    DetectorTells(m, state, block, other, red, blue);
    RoundPaints(c, spec, table, state, k, red);
    RoundPaints(c, spec, table[k := node], state, k, blue);
    StrictResult(c, spec, header, nonce, table, red);
    StrictResult(c, spec, header, nonce, table[k := node], blue);
    assert red[0] == r && blue[0] == b;
  }

  lemma DetectorTells(m: seq<byte>, state: Bytes32, block: seq<byte>, other: seq<byte>, red: Bytes32, blue: Bytes32)
    requires other != block && state[8] != red[8] && (|m| > 8 ==> m[8] != state[8])
    ensures Detector(m, state, block, red, blue)(m) == state
    ensures Detector(m, state, block, red, blue)(state + block) == red
    ensures Detector(m, state, block, red, blue)(state + other) == blue
  {
    var (x, y) := (state + block, state + other);
    assert x[8] == state[8] && y[8] == state[8] && y[..32][8] == y[8];
    assert x[32..] == block && y[32..] == other;
  }

  // ----- The nodes of a version-1 table

  predicate DifferOnlyAt(t: seq<Bytes64>, u: seq<Bytes64>, k: nat) {
    |t| == |u| && forall j :: 0 <= j < |t| && j != k ==> t[j] == u[j]
  }

  /** For some hash functions and some tables of this size, a change of node k alone changes the result. */
  ghost predicate NodeMatters(spec: Spec, header: seq<byte>, nonce: Option<uint64>, count: nat, k: nat) {
    exists c: Crypto, t, u :: Reveals(c, spec, header, nonce, count, t, u, k)
  }

  ghost predicate Reveals(c: Crypto, spec: Spec, header: seq<byte>, nonce: Option<uint64>, count: nat,
                          t: seq<Bytes64>, u: seq<Bytes64>, k: nat)
  {
    && |t| == count && DifferOnlyAt(t, u, k)
    && LatticeHashOf(c, spec, header, nonce, t).pow256 != LatticeHashOf(c, spec, header, nonce, u).pow256
  }

  lemma BitsOfByte(v: bv8)
    ensures (v as byte) as bv8 == v
  {
  }

  lemma NextBits(v: bv8)
    requires v != 255
    ensures (v + 1) as byte == v as byte + 1
  {
  }

  lemma LastBits(v: bv8)
    requires v == 255
    ensures v as byte == 255
  {
  }

  /** Every byte is the value of some bits. */
  lemma {:induction false} SomeBits(a: byte) returns (v: bv8)
    ensures v as byte == a
  {
    if a == 0 {
      v := 0;
    } else {
      var u := SomeBits(a - 1);
      if u == 255 {
        LastBits(u);
      }
      NextBits(u);
      v := u + 1;
    }
  }

  lemma XorAsBits8(x: byte, y: byte)
    ensures Xor8(x, y) == ((x as bv8) ^ (y as bv8)) as byte
  {
  }

  lemma SameXor(u: bv8, v: bv8, p: bv8, q: bv8)
    requires u == p && v == q
    ensures (u ^ v) as byte == (p ^ q) as byte
  {
  }

  lemma XorOfBits(u: bv8, v: bv8)
    ensures Xor8(u as byte, v as byte) == (u ^ v) as byte
  {
    hide Xor8;
    BitsOfByte(u);
    BitsOfByte(v);
    XorAsBits8(u as byte, v as byte);
    SameXor((u as byte) as bv8, (v as byte) as bv8, u, v);
  }

  lemma BitFacts(u: bv8, zero: bv8, one: bv8)
    requires zero == 0 && one == 1
    ensures u ^ zero == u && u ^ one != u
    ensures zero as byte == 0 && one as byte == 1
  {
  }

  lemma XorFacts(a: byte)
    ensures Xor8(a, 0) == a && Xor8(a, 1) != a
  {
    hide Xor8;
    var u := SomeBits(a);
    var (zero: bv8, one: bv8) := (0, 1);
    BitFacts(u, zero, one);
    XorOfBits(u, zero);
    XorOfBits(u, one);
    BitsOfByte(u);
    BitsOfByte(u ^ one);
  }

  lemma BitsTwice(u: bv8, v: bv8, w: bv8)
    requires w == u ^ v
    ensures u ^ w == v && w ^ u == v
  {
  }

  /** The byte whose XOR with x, either way round, is t. */
  lemma XorSolve(x: byte, t: byte) returns (b: byte)
    ensures Xor8(x, b) == t && Xor8(b, x) == t
  {
    hide Xor8;
    var u := SomeBits(x);
    var v := SomeBits(t);
    var w := u ^ v;
    b := w as byte;
    BitsTwice(u, v, w);
    XorOfBits(u, w);
    XorOfBits(w, u);
  }

  /** Nodes whose halves are the zero half, or the zero half and one with a bit set. */
  function LopsidedNode(): Bytes64 { Zeros(64)[0 := 1] }

  function Flipped(mix: Bytes32): Bytes32 { mix[0 := Xor8(mix[0], 1)] }

  /** Whether an input shows the marked node, or the other mix. */
  predicate Shows(x: seq<byte>, mix: Bytes32) {
    x == RoundInput(mix, LopsidedNode()) || x == RoundInput(Flipped(mix), ZeroNode())
    || x == RoundInput(Flipped(mix), LopsidedNode())
  }

  /** A hash that leaves the mix as it is until the marked node shows, and then never goes back. */
  function MixDetector(mix: Bytes32): seq<byte> -> Bytes32 {
    (x: seq<byte>) => if Shows(x, mix) then Flipped(mix) else mix
  }

  lemma ZeroNodeDoesNotShow(mix: Bytes32)
    ensures !Shows(RoundInput(mix, ZeroNode()), mix) && Flipped(mix) != mix
  {
    hide Xor8;
    var (plain, marked) := (RoundInput(mix, ZeroNode()), RoundInput(mix, LopsidedNode()));
    var (back, other) := (RoundInput(Flipped(mix), ZeroNode()), RoundInput(Flipped(mix), LopsidedNode()));
    XorFacts(mix[0]);
    XorFacts(Flipped(mix)[0]);
    assert plain[0] == mix[0] && marked[0] == Xor8(mix[0], 1) && back[0] == Flipped(mix)[0];
    assert plain[32] == mix[0] && other[32] == Flipped(mix)[0];
  }

  /** All nodes zero, and the same table with node k marked. */
  function PlainTable(count: nat): (t: seq<Bytes64>)
    ensures |t| == count && forall j :: 0 <= j < count ==> t[j] == ZeroNode()
  {
    seq(count, j => ZeroNode())
  }

  lemma DetectorStep(mix: Bytes32, now: Bytes32, node: Bytes64)
    requires (now == mix || now == Flipped(mix)) && (node == ZeroNode() || node == LopsidedNode())
    ensures MixDetector(mix)(RoundInput(now, node)) == if now == mix && node == ZeroNode() then mix else Flipped(mix)
    ensures Flipped(mix) != mix && LopsidedNode() != ZeroNode()
  {
    hide RoundInput;
    hide Flipped;
    ZeroNodeDoesNotShow(mix);
    assert LopsidedNode()[0] == 1 && ZeroNode()[0] == 0;
  }

  lemma {:induction false} PlainStays(c: Crypto, mix: Bytes32, count: nat, r: uint64)
    requires count > 0 && c.blake3_256 == MixDetector(mix)
    ensures MixAfter(c, PlainTable(count), mix, r) == mix
    decreases r
  {
    hide RoundInput;
    hide NodeIndex;
    hide MixDetector;
    if r > 0 {
      PlainStays(c, mix, count, r - 1);
      DetectorStep(mix, mix, ZeroNode());
      NodeIndexFits(mix, r - 1, count);
    }
  }

  /** On the marked table the mix is as it was or flipped; it is flipped for good once node k has been read. */
  lemma {:induction false} MarkedFlips(c: Crypto, mix: Bytes32, count: nat, k: nat, at: uint64, r: uint64)
    requires k < count && c.blake3_256 == MixDetector(mix) && NodeIndex(mix, at, count) == k
    ensures var now := MixAfter(c, PlainTable(count)[k := LopsidedNode()], mix, r);
      (now == mix || now == Flipped(mix)) && (r > at ==> now == Flipped(mix))
    decreases r
  {
    hide RoundInput;
    hide NodeIndex;
    hide MixDetector;
    hide Flipped;
    hide LopsidedNode;
    hide ZeroNode;
    if r > 0 {
      MarkedFlips(c, mix, count, k, at, r - 1);
      var table := PlainTable(count)[k := LopsidedNode()];
      var now := MixAfter(c, table, mix, r - 1);
      NodeIndexFits(now, r - 1, count);
      var node := table[NodeIndex(now, r - 1, count)];
      DetectorStep(mix, now, node);
      assert MixAfter(c, table, mix, r) == c.blake3_256(RoundInput(now, node));
    }
  }

  /** The digests around the mix loop: the one of m starts with the mix, the last tells whether it was flipped. */
  function EndDetector(m: seq<byte>, mix: Bytes32, v: byte): seq<byte> -> Bytes64 {
    (x: seq<byte>) =>
      if x == m then mix + Fill(v, 32) else if |x| == 96 && x[64..] == Flipped(mix) then Fill(1, 64) else Fill(2, 64)
  }

  lemma EndShows(c: Crypto, spec: Spec, header: seq<byte>, nonce: Option<uint64>, mix: Bytes32, v: byte,
                 table: seq<Bytes64>, last: Bytes32)
    requires c.sha3_512 == EndDetector(SeedInput(header, nonce), mix, v)
    requires |SeedInput(header, nonce)| > 32 ==> SeedInput(header, nonce)[32] != v
    requires table != [] && last == MixAfter(c, table, mix, spec.readsPerHash)
    ensures LatticeHashOf(c, spec, header, nonce, table).pow256
         == Fill(if last == Flipped(mix) then 1 else 2, 64)[..32]
  {
    hide MixAfter;
    hide Flipped;
    hide SeedInput;
    var first := c.sha3_512(SeedInput(header, nonce));
    assert first[..32] == mix && first[32] == v;
    assert (first + last)[64..] == last && (first + last)[32] == v;
  }

  lemma ReadNodesCount(spec: Spec, header: seq<byte>, nonce: Option<uint64>, count: nat, k: nat, mix: Bytes32,
                       at: uint64)
    requires k < count && at < spec.readsPerHash && NodeIndex(mix, at, count) == k
    ensures NodeMatters(spec, header, nonce, count, k)
  {
    hide NodeIndex;
    hide MixAfter;
    hide Flipped;
    hide LatticeHashOf;
    hide SeedInput;
    var m := SeedInput(header, nonce);
    var v: byte := if |m| > 32 && m[32] == 0 then 1 else 0;
    var c := Crypto((x: seq<byte>) => Zeros(32), EndDetector(m, mix, v), (x: seq<byte>) => Zeros(64), MixDetector(mix),
                    (x: seq<byte>) => Zeros(64));
    var (t, u) := (PlainTable(count), PlainTable(count)[k := LopsidedNode()]);
    PlainStays(c, mix, count, spec.readsPerHash);
    MarkedFlips(c, mix, count, k, at, spec.readsPerHash);
    ZeroNodeDoesNotShow(mix);
    EndShows(c, spec, header, nonce, mix, v, t, mix);
    EndShows(c, spec, header, nonce, mix, v, u, Flipped(mix));
    assert Fill(1, 64)[..32][0] != Fill(2, 64)[..32][0];
    assert Reveals(c, spec, header, nonce, count, t, u, k);
  }

  // ----- FNV-1a reaches every value

  /** The bits above the low byte: a step multiplies them by the prime and adds what the XORed low byte brings in. */
  lemma UpperStep(h: uint64, b: byte)
    ensures FnvStep(h, b) / 256 == (h / 256 * FNV_PRIME + Gain(Xor8(h % 256, b))) % M
  {
    hide Xor8;
    var (u, c) := (h / 256, Xor8(h % 256, b));
    assert h - h % 256 + c == 256 * u + c;
    ProductSplits(u, c);
  }

  lemma ProductSplits(u: nat, c: byte)
    ensures (256 * u + c) * FNV_PRIME % TWO_TO_THE_64 / 256 == (u * FNV_PRIME + Gain(c)) % M
  {
    var (n, v, r) := ((256 * u + c) * FNV_PRIME, u * FNV_PRIME + Gain(c), 435 * c % 256);
    assert n == 256 * v + r;
    var (w, x) := (v / M, v % M);
    assert n == TWO_TO_THE_64 * w + (256 * x + r);
    DivisionIsUnique(n, TWO_TO_THE_64, w, 256 * x + r);
  }

  /** One more byte: a product is distributed and multiples of 2^56 are collected. */
  lemma OneMore(power: int, next: int, v: int, upper: int, gain: int, w: int)
    requires FNV_PRIME * power == next + M * v
    ensures power * gain + next * upper == power * (upper * FNV_PRIME + gain - M * w) + M * (power * w - v * upper)
  {
    assert next * upper == FNV_PRIME * power * upper - M * v * upper;
    assert power * (upper * FNV_PRIME) == FNV_PRIME * power * upper;
    assert power * (M * w) == M * (power * w);
  }

  lemma Quotient(x: int) returns (q: int)
    ensures x % M == x - M * q
  {
    q := x / M;
  }

  /** The step of Steered: if byte b is put after data with c as the low byte, the total is kept modulo 2^56. */
  lemma OneMoreByte(total: int, sum: int, power: int, next: int, data: seq<byte>, b: byte, z: int) returns (z': int)
    requires next == FNV_PRIME * power % M
    requires total == sum + power * Gain(Xor8(Fnv1a64(data) % 256, b)) + next * (Fnv1a64(data) / 256) + M * z
    ensures total == sum + power * (Fnv1a64(data + [b]) / 256) + M * z'
  {
    hide *;
    var h := Fnv1a64(data);
    FnvAppend(data, b);
    UpperStep(h, b);
    var (upper, gain) := (h / 256, Gain(Xor8(h % 256, b)));
    var w := Quotient(upper * FNV_PRIME + gain);
    var v := Quotient(FNV_PRIME * power);
    OneMore(power, next, v, upper, gain, w);
    z' := z + (power * w - v * upper);
    Collect(z, power * w - v * upper);
  }

  lemma Collect(a: int, b: int)
    ensures M * (a + b) == M * a + M * b
  {
  }

  /** Bytes that bring 1 + 10 * y in, down to place n. */
  lemma {:induction false} Steered(y: Vec, n: nat) returns (data: seq<byte>, z: int)
    requires n <= 31 && Small(y)
    ensures |data| == 31 - n
    ensures Sum(y, 31) + Power(31) * (FNV_OFFSET / 256) == Sum(y, n) + Power(n) * (Fnv1a64(data) / 256) + M * z
    decreases 31 - n
  {
    hide *;
    if n == 31 {
      data, z := [], 0;
      FnvOfNothing();
      NothingMore();
    } else {
      var rest, z1 := Steered(y, n + 1);
      var c := LowByteFor(y, n);
      var b := XorSolve(Fnv1a64(rest) % 256, c);
      NextPlace(y, n);
      data := rest + [b];
      z := OneMoreByte(Sum(y, 31) + Power(31) * (FNV_OFFSET / 256), Sum(y, n), Power(n), Power(n + 1), rest, b, z1);
    }
  }

  lemma NothingMore()
    ensures FNV_OFFSET / 256 == 0xcbf29ce484222325 / 256 && M * 0 == 0
  {
  }

  lemma LowByteFor(y: Vec, n: nat) returns (c: byte)
    requires n < 31 && Small(y)
    ensures c == 1 + 10 * At(y, n)
  {
    hide At;
    SmallAt(y, n);
    c := 1 + 10 * At(y, n);
  }

  lemma NextPlace(y: Vec, n: nat)
    ensures Sum(y, n + 1) == Sum(y, n) + Power(n) * Gain(1 + 10 * At(y, n))
    ensures Power(n + 1) == FNV_PRIME * Power(n) % M
  {
    hide At;
    hide Gain;
  }

  /** Thirty-one bytes steer the upper bits anywhere. */
  lemma UpperBitsReached(u: nat) returns (data: seq<byte>)
    requires u < M
    ensures |data| == 31 && Fnv1a64(data) / 256 == u
  {
    hide Sum;
    hide Power;
    hide Value;
    hide Small;
    hide Fnv1a64;
    var fixed := Power(31) * (FNV_OFFSET / 256);
    var goal := u - 0x124f378034fd1ec522ade745 - fixed;
    var y, z := AllValues(0x815426f0f0f0f1 * goal - 0xd1821be2389b780f);
    SumIs(y);
    var z1: int;
    data, z1 := Steered(y, 0);
    StartingValues(y);
    var upper := Fnv1a64(data) / 256;
    assert upper == u + M * (0x50d498572 * goal + 0xa00000011 * z - z1);
    SameResidue(upper, u, 0x50d498572 * goal + 0xa00000011 * z - z1);
  }

  lemma SameResidue(a: nat, b: nat, k: int)
    requires a < M && b < M && a == b + M * k
    ensures a == b
  {
  }

  /** The state before a step that ends in h: its upper bits, and the low byte the step has to multiply. */
  lemma StepBack(h: uint64) returns (before: uint64)
    ensures before * FNV_PRIME % TWO_TO_THE_64 == h
  {
    var x := h * 0xce965057aff6957b;
    before := x % TWO_TO_THE_64;
    var w := x / TWO_TO_THE_64;
    DivisionIsUnique(before * FNV_PRIME, TWO_TO_THE_64, h * 0xce9650590f - w * FNV_PRIME, h);
  }

  lemma StepTo(g: uint64, b: byte, before: uint64)
    requires g / 256 == before / 256 && Xor8(g % 256, b) == before % 256
    ensures FnvStep(g, b) == before * FNV_PRIME % TWO_TO_THE_64
  {
    hide Xor8;
  }

  lemma UpperAndLower(h: uint64)
    ensures h / 256 < M
  {
  }

  lemma WithLowByte(h: uint64, low: byte) returns (state: uint64)
    ensures state / 256 == h / 256 && state % 256 == low
  {
    state := h - h % 256 + low;
  }

  /** For every value and every tail, some 32 bytes before the tail give the value. */
  lemma {:induction false} FnvReachesAll(tail: seq<byte>, h: uint64) returns (mix: Bytes32)
    ensures Fnv1a64(mix + tail) == h
    decreases |tail|
  {
    hide *;
    var before := StepBack(h);
    UpperAndLower(before);
    if tail == [] {
      var data := UpperBitsReached(before / 256);
      var g := Fnv1a64(data);
      var b := XorSolve(g % 256, before % 256);
      mix := data + [b];
      FnvAppend(data, b);
      StepTo(g, b, before);
      assert mix + tail == data + [b];
    } else {
      var (front, last) := (tail[..|tail| - 1], tail[|tail| - 1]);
      var low := XorSolve(last, before % 256);
      var state := WithLowByte(before, low);
      mix := FnvReachesAll(front, state);
      FnvAppend(mix + front, last);
      StepTo(state, last, before);
      assert mix + tail == mix + front + [last];
    }
  }

  /** Every node of a version-1 table matters, whatever header and nonce, exactly if the hash reads nodes at all. */
  lemma LatticeReadsEveryNode(spec: Spec, header: seq<byte>, nonce: Option<uint64>, count: nat, k: nat)
    requires k < count <= TWO_TO_THE_64
    ensures NodeMatters(spec, header, nonce, count, k) <==> spec.readsPerHash > 0
  {
    hide Fnv1a64;
    hide LittleEndian;
    hide SeedInput;
    if spec.readsPerHash > 0 {
      hide NodeMatters;
      var mix := FnvReachesAll(LittleEndian(0, 8), k);
      DivisionIsUnique(k, count, 0, k);
      ReadNodesCount(spec, header, nonce, count, k, mix, 0);
    }
  }
}
