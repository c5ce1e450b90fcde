/** The kernel's in-place Keccak permutation and SHA3-512 (opencl_kernel.cl), against FIPS 202. */
module Keccak {
  import opened Words
  import opened KeccakTables
  import Fips202

  type Lanes = a: seq<Word> | |a| == 25 witness ZeroLanes(25)

  function ZeroLanes(k: nat): (a: seq<Word>)
    ensures |a| == k && forall i :: 0 <= i < k ==> a[i] == Falses(64)
  {
    seq(k, i => Falses(64))
  }

  /** The state string of 25 lanes: lane i is bits 64i to 64i + 63. */
  function StateOf(a: Lanes): Fips202.StateBits {
    seq(1600, i requires 0 <= i < 1600 => a[i / 64][i % 64])
  }

  lemma LaneBit(a: Lanes, x: nat, y: nat, z: nat)
    requires x < 5 && y < 5 && z < 64
    ensures Fips202.At(StateOf(a), x, y, z) == a[5 * y + x][z]
  {
    assert (64 * (5 * y + x) + z) / 64 == 5 * y + x;
  }

  // ----- Theta

  function Column(a: Lanes, x: nat): Word
    requires x < 5
  {
    Xor(Xor(Xor(Xor(a[x], a[x + 5]), a[x + 10]), a[x + 15]), a[x + 20])
  }

  function ThetaMask(a: Lanes, x: nat): Word
    requires x < 5
  {
    Xor(Column(a, (x + 4) % 5), Rotl(Column(a, (x + 1) % 5), 1))
  }

  method ThetaStep(st: array<Word>, bc: array<Word>)
    requires st.Length == 25 && bc.Length == 5 && st != bc
    modifies st, bc
    ensures forall i :: 0 <= i < 25 ==> st[i] == Xor(old(st[i]), ThetaMask(old(st[..]), i % 5))
  {
    hide Column;
    hide Xor;
    hide Rotl;
    ghost var a: Lanes := st[..];
    ColumnParities(st, bc);
    for i := 0 to 5
      invariant forall k :: 0 <= k < 5 ==> bc[k] == Column(a, k)
      invariant forall k :: 0 <= k < 25 ==> st[k] == if k % 5 < i then Xor(a[k], ThetaMask(a, k % 5)) else a[k]
    {
      var t := Xor(bc[(i + 4) % 5], Rotl(bc[(i + 1) % 5], 1));
      assert t == ThetaMask(a, i);
      MixColumn(st, i, t);
    }
  }

  method ColumnParities(st: array<Word>, bc: array<Word>)
    requires st.Length == 25 && bc.Length == 5 && st != bc
    modifies bc
    ensures forall k :: 0 <= k < 5 ==> bc[k] == Column(st[..], k)
  {
    hide Xor;
    for i := 0 to 5
      invariant forall k :: 0 <= k < i ==> bc[k] == Column(st[..], k)
    {
      bc[i] := Xor(Xor(Xor(Xor(st[i], st[i + 5]), st[i + 10]), st[i + 15]), st[i + 20]);
    }
  }

  method MixColumn(st: array<Word>, i: nat, t: Word)
    requires st.Length == 25 && i < 5
    modifies st
    ensures forall k :: 0 <= k < 25 ==> st[k] == if k % 5 == i then Xor(old(st[k]), t) else old(st[k])
  {
    hide Xor;
    var j := 0;
    while j < 25
      invariant j <= 25 && j % 5 == 0
      invariant forall k :: 0 <= k < 25 ==> st[k] == if k < j && k % 5 == i then Xor(old(st[k]), t) else old(st[k])
    {
      st[j + i] := Xor(st[j + i], t);
      j := j + 5;
    }
  }

  lemma ColumnBit(a: Lanes, x: nat, z: nat)
    requires x < 5 && z < 64
    ensures Column(a, x)[z] == Fips202.Parity(StateOf(a), x, z)
  {
    hide StateOf;
    hide Fips202.At;
    LaneBit(a, x, 0, z);
    LaneBit(a, x, 1, z);
    LaneBit(a, x, 2, z);
    LaneBit(a, x, 3, z);
    LaneBit(a, x, 4, z);
  }

  lemma ThetaIsTheta(a: Lanes, b: Lanes)
    requires forall i :: 0 <= i < 25 ==> b[i] == Xor(a[i], ThetaMask(a, i % 5))
    ensures StateOf(b) == Fips202.Theta(StateOf(a))
  {
    forall i | 0 <= i < 1600
      ensures StateOf(b)[i] == Fips202.Theta(StateOf(a))[i]
    {
      var x, y, z := Fips202.X(i), Fips202.Y(i), Fips202.Z(i);
      assert i / 64 == 5 * y + x;
      ThetaBit(a, x, y, z);
    }
  }

  lemma ThetaBit(a: Lanes, x: nat, y: nat, z: nat)
    requires x < 5 && y < 5 && z < 64
    ensures Xor(a[5 * y + x], ThetaMask(a, x))[z] == Fips202.ThetaBit(StateOf(a), x, y, z)
  {
    hide StateOf;
    hide Column;
    hide Rotl;
    hide Fips202.Parity;
    hide Fips202.At;
    LaneBit(a, x, y, z);
    ColumnBit(a, (x + 4) % 5, z);
    ColumnBit(a, (x + 1) % 5, (z + 63) % 64);
    RotlMovesBits(Column(a, (x + 1) % 5), 1, z);
  }

  // ----- Rho and pi in one walk

  /** Every lane but lane 0 goes, rotated, to the next lane of the walk. */
  ghost predicate Walked(a: Lanes, b: Lanes) {
    && b[0] == a[0]
    && forall k :: 0 <= k < 24 ==> b[Piln(k)] == Rotl(a[Source(k)], Rotc(k))
  }

  method RhoPiStep(st: array<Word>, bc: array<Word>)
    requires st.Length == 25 && bc.Length == 5 && st != bc
    modifies st, bc
    ensures Walked(old(st[..]), st[..])
  {
    hide Rotl;
    hide Piln;
    hide Rotc;
    ghost var a: Lanes := st[..];
    var t := st[1];
    for i := 0 to 24
      invariant t == a[Source(i)]
      invariant st[0] == a[0]
      invariant forall k :: 0 <= k < i ==> st[Piln(k)] == Rotl(a[Source(k)], Rotc(k))
      invariant forall k :: i <= k < 24 ==> st[Piln(k)] == a[Piln(k)]
    {
      LanesAreDistinct(i);
      var j := Piln(i);
      bc[0] := st[j];
      st[j] := Rotl(t, Rotc(i));
      t := bc[0];
    }
  }

  /** Where step k of the walk takes its bits from. */
  lemma WalkedStep(a: Lanes, b: Lanes, k: nat, z: nat)
    requires Walked(a, b) && k < 24 && z < 64
    ensures Piln(k) == 5 * Stop(k + 1).1 + Stop(k + 1).0
    ensures var (x, y) := Stop(k);
      b[Piln(k)][z] == a[5 * y + x][Fips202.Behind(z, Fips202.Offset(x, y, 0))]
  {
    hide Piln;
    hide Rotc;
    hide Rotl;
    hide Stop;
    hide Fips202.Offset;
    StopIsSource(k);
    StopIsSource(k + 1);
    OffsetOnTheWalk(k, 0);
    OffsetsModulo64(k);
    RotlMovesBits(a[Source(k)], Rotc(k), z);
    SameRemainder(z, (k + 1) * (k + 2) / 2);
  }

  /** Lane (x, y) after the walk is the lane section 3.2.3 moves there, rotated as section 3.2.2 rotates it. */
  lemma WalkedLane(a: Lanes, b: Lanes, x: nat, y: nat, from: nat, z: nat)
    requires Walked(a, b) && x < 5 && y < 5 && z < 64 && from == (x + 3 * y) % 5
    ensures b[5 * y + x][z] == a[5 * x + from][Fips202.Behind(z, Fips202.Offset(from, x, 0))]
  {
    hide Piln;
    hide Stop;
    hide Fips202.Offset;
    if (x, y) == (0, 0) {
      OffsetOfOrigin(0);
    } else {
      hide Walked;
      hide Fips202.Behind;
      var k := StepInto(x, y);
      WalkedStep(a, b, k, z);
    }
  }

  lemma WalkedIsRhoPi(a: Lanes, b: Lanes)
    requires Walked(a, b)
    ensures StateOf(b) == Fips202.Pi(Fips202.Rho(StateOf(a)))
  {
    hide Fips202.Rho;
    hide Walked;
    forall i | 0 <= i < 1600
      ensures StateOf(b)[i] == Fips202.Pi(Fips202.Rho(StateOf(a)))[i]
    {
      var x, y, z := Fips202.X(i), Fips202.Y(i), Fips202.Z(i);
      assert i / 64 == 5 * y + x;
      RhoPiBit(a, b, x, y, z);
    }
  }

  lemma RhoPiBit(a: Lanes, b: Lanes, x: nat, y: nat, z: nat)
    requires Walked(a, b) && x < 5 && y < 5 && z < 64
    ensures b[5 * y + x][z] == Fips202.At(Fips202.Rho(StateOf(a)), (x + 3 * y) % 5, x, z)
  {
    hide Fips202.Offset;
    hide StateOf;
    hide Walked;
    var from := (x + 3 * y) % 5;
    WalkedLane(a, b, x, y, from, z);
    Fips202.Coordinates(from, x, z);
    LaneBit(a, from, x, Fips202.Behind(z, Fips202.Offset(from, x, 0)));
  }

  // ----- Chi

  /** Row y: lanes 5y to 5y + 4. */
  function Row(a: Lanes, y: nat): (row: seq<Word>)
    requires y < 5
    ensures |row| == 5
  {
    a[5 * y..5 * y + 5]
  }

  function ChiWord(row: seq<Word>, x: nat): Word
    requires |row| == 5 && x < 5
  {
    Xor(row[x], And(Not(row[(x + 1) % 5]), row[(x + 2) % 5]))
  }

  function ChiRow(row: seq<Word>): (after: seq<Word>)
    requires |row| == 5
    ensures |after| == 5
  {
    seq(5, x requires 0 <= x < 5 => ChiWord(row, x))
  }

  method ChiStep(st: array<Word>, bc: array<Word>)
    requires st.Length == 25 && bc.Length == 5 && st != bc
    modifies st, bc
    ensures forall y :: 0 <= y < 5 ==> Row(st[..], y) == ChiRow(Row(old(st[..]), y))
  {
    hide ChiRow;
    ghost var a: Lanes := st[..];
    var j := 0;
    while j < 25
      invariant j <= 25 && j % 5 == 0
      invariant forall y :: 0 <= y < 5 ==> Row(st[..], y) == if 5 * y < j then ChiRow(Row(a, y)) else Row(a, y)
    {
      MixRow(st, bc, j);
      j := j + 5;
    }
  }

  /** Chi on the row that starts at lane j. */
  method MixRow(st: array<Word>, bc: array<Word>, j: nat)
    requires st.Length == 25 && bc.Length == 5 && st != bc && j < 25 && j % 5 == 0
    modifies st, bc
    ensures forall y :: 0 <= y < 5 ==>
      Row(st[..], y) == if 5 * y == j then ChiRow(Row(old(st[..]), y)) else Row(old(st[..]), y)
  {
    hide Xor;
    hide And;
    hide Not;
    hide ChiRow;
    hide ChiWord;
    hide Row;
    ghost var a: Lanes := st[..];
    ghost var row := a[j..j + 5];
    LoadRow(st, bc, j);
    for i := 0 to 5
      invariant forall x :: 0 <= x < 5 ==> bc[x] == row[x]
      invariant forall k :: 0 <= k < 25 ==> st[k] == if j <= k < j + i then ChiWord(row, k - j) else a[k]
    {
      st[j + i] := Xor(bc[i], And(Not(bc[(i + 1) % 5]), bc[(i + 2) % 5]));
      ChiWordOf(row, bc[..], i);
    }
    MixedRows(a, st[..], j);
  }

  method LoadRow(st: array<Word>, bc: array<Word>, j: nat)
    requires st.Length == 25 && bc.Length == 5 && st != bc && j + 5 <= 25
    modifies bc
    ensures forall x :: 0 <= x < 5 ==> bc[x] == st[j..j + 5][x]
  {
    for i := 0 to 5
      invariant forall x :: 0 <= x < i ==> bc[x] == st[j + x]
    {
      bc[i] := st[j + i];
    }
  }

  lemma ChiWordOf(row: seq<Word>, bc: seq<Word>, x: nat)
    requires |row| == 5 && |bc| == 5 && x < 5 && forall k :: 0 <= k < 5 ==> bc[k] == row[k]
    ensures Xor(bc[x], And(Not(bc[(x + 1) % 5]), bc[(x + 2) % 5])) == ChiWord(row, x)
  {
  }

  lemma MixedRows(a: Lanes, b: Lanes, j: nat)
    requires j < 25 && j % 5 == 0
    requires forall k :: 0 <= k < 25 ==> b[k] == if j <= k < j + 5 then ChiWord(a[j..j + 5], k - j) else a[k]
    ensures forall y :: 0 <= y < 5 ==> Row(b, y) == if 5 * y == j then ChiRow(Row(a, y)) else Row(a, y)
  {
    hide ChiWord;
    forall y | 0 <= y < 5
      ensures Row(b, y) == if 5 * y == j then ChiRow(Row(a, y)) else Row(a, y)
    {
      assert 5 * y != j ==> 5 * y + 5 <= j || j + 5 <= 5 * y;
    }
  }

  lemma ChiIsChi(a: Lanes, b: Lanes)
    requires forall y :: 0 <= y < 5 ==> Row(b, y) == ChiRow(Row(a, y))
    ensures StateOf(b) == Fips202.Chi(StateOf(a))
  {
    hide ChiWord;
    forall i | 0 <= i < 1600
      ensures StateOf(b)[i] == Fips202.Chi(StateOf(a))[i]
    {
      var x, y, z := Fips202.X(i), Fips202.Y(i), Fips202.Z(i);
      assert i / 64 == 5 * y + x;
      ChiBit(a, x, y, z);
      assert b[5 * y + x] == Row(b, y)[x] == ChiWord(Row(a, y), x);
    }
  }

  lemma ChiBit(a: Lanes, x: nat, y: nat, z: nat)
    requires x < 5 && y < 5 && z < 64
    ensures ChiWord(Row(a, y), x)[z] == Fips202.ChiBit(StateOf(a), x, y, z)
  {
    hide StateOf;
    hide Fips202.At;
    LaneBit(a, x, y, z);
    LaneBit(a, (x + 1) % 5, y, z);
    LaneBit(a, (x + 2) % 5, y, z);
  }

  // ----- Iota and the permutation

  lemma IotaIsIota(a: Lanes, b: Lanes, r: nat)
    requires r < 24 && b == a[0 := Xor(a[0], BitsOf(Rndc(r), 64))]
    ensures StateOf(b) == Fips202.Iota(StateOf(a), r)
  {
    hide Rndc;
    hide Fips202.RoundConstant;
    RndcIsRoundConstant(r);
    forall i | 0 <= i < 1600
      ensures StateOf(b)[i] == Fips202.Iota(StateOf(a), r)[i]
    {
      assert Fips202.X(i) == 0 && Fips202.Y(i) == 0 <==> i / 64 == 0;
    }
  }

  /** keccakf: 24 rounds in place are Keccak-f[1600] of section 3.4. */
  method KeccakF(st: array<Word>)
    requires st.Length == 25
    modifies st
    ensures StateOf(st[..]) == Fips202.KeccakF(StateOf(old(st[..])))
  {
    hide StateOf;
    hide Fips202.Round;
    var bc := new Word[5](i => Falses(64));
    ghost var s := StateOf(st[..]);
    for round := 0 to 24
      invariant StateOf(st[..]) == Fips202.Rounds(s, round)
    {
      KeccakRound(st, bc, round);
    }
  }

  /** One round: theta, rho and pi, chi, iota. */
  method KeccakRound(st: array<Word>, bc: array<Word>, round: nat)
    requires st.Length == 25 && bc.Length == 5 && st != bc && round < 24
    modifies st, bc
    ensures StateOf(st[..]) == Fips202.Round(StateOf(old(st[..])), round)
  {
    hide StateOf;
    hide Row;
    hide ChiRow;
    hide Xor;
    hide ThetaMask;
    hide Walked;
    hide Rndc;
    hide BitsOf;
    hide Fips202.Theta;
    hide Fips202.Rho;
    hide Fips202.Pi;
    hide Fips202.Chi;
    hide Fips202.Iota;
    ghost var a: Lanes := st[..];
    ThetaStep(st, bc);
    ghost var b: Lanes := st[..];
    ThetaIsTheta(a, b);
    RhoPiStep(st, bc);
    ghost var c: Lanes := st[..];
    WalkedIsRhoPi(b, c);
    ChiStep(st, bc);
    ghost var d: Lanes := st[..];
    ChiIsChi(c, d);
    st[0] := Xor(st[0], BitsOf(Rndc(round), 64));
    assert st[..] == d[0 := Xor(d[0], BitsOf(Rndc(round), 64))];
    IotaIsIota(d, st[..], round);
  }
}
