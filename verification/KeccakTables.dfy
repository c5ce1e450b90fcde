/** The constants of the kernel's Keccak, against the rules FIPS 202 derives them from. */
module KeccakTables {
  import opened Words
  import Fips202

  // ----- The walk of rho and pi

  /** KECCAKF_ROTC */
  function Rotc(k: nat): (n: nat)
    requires k < 24
    ensures 0 < n < 64
  {
    [1, 3, 6, 10, 15, 21, 28, 36, 45, 55, 2, 14, 27, 41, 56, 8, 25, 43, 62, 18, 39, 61, 20, 44][k]
  }

  /** KECCAKF_PILN */
  function Piln(k: nat): (i: nat)
    requires k < 24
    ensures 0 < i < 25
  {
    [10, 7, 11, 17, 18, 3, 5, 16, 8, 21, 24, 4, 15, 23, 19, 13, 12, 2, 20, 14, 22, 9, 6, 1][k]
  }

  /** The lane the walk is at before its step k. */
  function Source(k: nat): (i: nat)
    requires k <= 24
    ensures 0 < i < 25
  {
    if k == 0 then 1 else Piln(k - 1)
  }

  /** The step of the walk that reaches lane i. */
  function StepTo(i: nat): (k: nat)
    requires 0 < i < 25
    ensures k < 24
  {
    [23, 17, 5, 11, 6, 22, 1, 8, 21, 0, 2, 16, 15, 19, 12, 7, 3, 4, 14, 18, 9, 20, 13, 10][i - 1]
  }

  lemma StepOfLane(k: nat)
    requires k < 24
    ensures StepTo(Piln(k)) == k
  {
  }

  lemma LaneOfStep(i: nat)
    requires 0 < i < 25
    ensures Piln(StepTo(i)) == i
  {
  }

  lemma LanesAreDistinct(i: nat)
    requires i < 24
    ensures forall k :: 0 <= k < 24 && k != i ==> Piln(k) != Piln(i)
  {
    hide Piln;
    hide StepTo;
    StepOfLane(i);
    forall k | 0 <= k < 24 && k != i
      ensures Piln(k) != Piln(i)
    {
      StepOfLane(k);
    }
  }

  /** The coordinates (x, y) the walk is at before its step k; after 24 steps it is back at the start. */
  function Stop(k: nat): (p: (nat, nat))
    requires k <= 24
    ensures p.0 < 5 && p.1 < 5
  {
    match k
    case 0 => (1, 0)
    case 1 => (0, 2)
    case 2 => (2, 1)
    case 3 => (1, 2)
    case 4 => (2, 3)
    case 5 => (3, 3)
    case 6 => (3, 0)
    case 7 => (0, 1)
    case 8 => (1, 3)
    case 9 => (3, 1)
    case 10 => (1, 4)
    case 11 => (4, 4)
    case 12 => (4, 0)
    case 13 => (0, 3)
    case 14 => (3, 4)
    case 15 => (4, 3)
    case 16 => (3, 2)
    case 17 => (2, 2)
    case 18 => (2, 0)
    case 19 => (0, 4)
    case 20 => (4, 2)
    case 21 => (2, 4)
    case 22 => (4, 1)
    case 23 => (1, 1)
    case _ => (1, 0)
  }

  lemma StopIsSource(k: nat)
    requires k <= 24
    ensures Source(k) == 5 * Stop(k).1 + Stop(k).0
  {
  }

  lemma NextStop(k: nat)
    requires k < 24
    ensures Stop(k + 1) == (Stop(k).1, (2 * Stop(k).0 + 3 * Stop(k).1) % 5)
  {
    RemainderOf5(2 * Stop(k).0 + 3 * Stop(k).1);
  }

  lemma RemainderOf5(n: nat)
    requires n < 25
    ensures n % 5 ==
      if n < 5 then n else if n < 10 then n - 5 else if n < 15 then n - 10 else if n < 20 then n - 15 else n - 20
  {
  }

  lemma FirstStop()
    ensures Stop(0) == (1, 0)
  {
  }

  lemma {:induction false} StopsAreTheWalk(k: nat)
    requires k <= 24
    ensures Fips202.Walk(k) == Stop(k)
  {
    hide Stop;
    if k > 0 {
      StopsAreTheWalk(k - 1);
      NextStop(k - 1);
    } else {
      FirstStop();
    }
  }

  lemma OffsetsModulo64(k: nat)
    requires k < 24
    ensures Rotc(k) == (k + 1) * (k + 2) / 2 % 64
  {
  }

  lemma LastLane()
    ensures Piln(23) == 1
  {
  }

  lemma StopsDiffer(j: nat, k: nat)
    requires j < k < 24
    ensures Stop(j) != Stop(k)
  {
    hide Stop;
    hide Piln;
    StopIsSource(j);
    StopIsSource(k);
    LanesAreDistinct(k - 1);
    if j == 0 {
      LanesAreDistinct(23);
      LastLane();
    }
  }

  /** The walk meets every lane but (0, 0) once in its 24 steps, and rotates it by its step's offset. */
  lemma {:induction false} OffsetOnTheWalk(k: nat, t: nat)
    requires t <= k < 24
    ensures Fips202.Offset(Stop(k).0, Stop(k).1, t) == (k + 1) * (k + 2) / 2
    decreases k - t
  {
    hide Stop;
    hide Fips202.Walk;
    StopsAreTheWalk(t);
    if t < k {
      StopsDiffer(t, k);
      OffsetOnTheWalk(k, t + 1);
    }
  }

  lemma {:induction false} OffsetOfOrigin(t: nat)
    requires t <= 24
    ensures Fips202.Offset(0, 0, t) == 0
    decreases 24 - t
  {
    hide Stop;
    hide Fips202.Walk;
    if t < 24 {
      StopsAreTheWalk(t);
      StopIsSource(t);
      OffsetOfOrigin(t + 1);
    }
  }

  /** The step of the walk that leads to lane (x, y). */
  lemma StepInto(x: nat, y: nat) returns (k: nat)
    requires x < 5 && y < 5 && (x, y) != (0, 0)
    ensures k < 24 && Piln(k) == 5 * y + x && Stop(k) == ((x + 3 * y) % 5, x)
  {
    hide Piln;
    hide Stop;
    hide StepTo;
    k := StepTo(5 * y + x);
    LaneOfStep(5 * y + x);
    StopIsSource(k + 1);
    NextStop(k);
    SameLane(x, y, Stop(k + 1).0, Stop(k + 1).1);
    OriginOfNext(Stop(k).0, Stop(k).1, y);
  }

  lemma SameLane(x: nat, y: nat, u: nat, v: nat)
    requires x < 5 && u < 5 && 5 * y + x == 5 * v + u
    ensures x == u && y == v
  {
  }

  lemma OriginOfNext(x: nat, y: nat, next: nat)
    requires x < 5 && y < 5 && next == (2 * x + 3 * y) % 5
    ensures (y + 3 * next) % 5 == x
  {
  }

  lemma SameRemainder(z: nat, n: nat)
    requires z < 64
    ensures (z + 64 - n % 64) % 64 == Fips202.Behind(z, n)
  {
  }

  // ----- Round constants

  /** KECCAKF_RNDC */
  function Rndc(r: nat): nat
    requires r < 24
  {
    [0x0000000000000001, 0x0000000000008082, 0x800000000000808a, 0x8000000080008000,
     0x000000000000808b, 0x0000000080000001, 0x8000000080008081, 0x8000000000008009,
     0x000000000000008a, 0x0000000000000088, 0x0000000080008009, 0x000000008000000a,
     0x000000008000808b, 0x800000000000008b, 0x8000000000008089, 0x8000000000008003,
     0x8000000000008002, 0x8000000000000080, 0x000000000000800a, 0x800000008000000a,
     0x8000000080008081, 0x8000000000008080, 0x0000000080000001, 0x8000000080008008][r]
  }

  /** The register R of section 3.2.5 held in a machine byte, bit i of R in bit i. */
  function RegisterBits(g: bv8): (r: seq<bool>)
    ensures |r| == 8
  {
    [g & 1 == 1, g & 2 == 2, g & 4 == 4, g & 8 == 8, g & 16 == 16, g & 32 == 32, g & 64 == 64, g & 128 == 128]
  }

  function NextRegister(g: bv8): bv8 { if g & 128 == 128 then (g << 1) ^ 0x71 else g << 1 }

  function Register(g: bv8, n: nat): bv8 { if n == 0 then g else NextRegister(Register(g, n - 1)) }

  lemma OneShift(r: seq<bool>)
    requires |r| == 8
    ensures Fips202.Shifted(r) == [r[7], r[0], r[1], r[2], r[3] != r[7], r[4] != r[7], r[5] != r[7], r[6]]
  {
  }

  lemma NextIsShifted(g: bv8)
    ensures Fips202.Shifted(RegisterBits(g)) == RegisterBits(NextRegister(g))
  {
    hide Fips202.Shifted;
    OneShift(RegisterBits(g));
  }

  lemma {:induction false} RegisterShifts(g: bv8, t: nat, n: nat)
    requires Fips202.Register(t) == RegisterBits(g)
    ensures Fips202.Register(t + n) == RegisterBits(Register(g, n))
  {
    hide RegisterBits;
    hide NextRegister;
    hide Fips202.Shifted;
    if n > 0 {
      RegisterShifts(g, t, n - 1);
      NextIsShifted(Register(g, n - 1));
    }
  }

  /** What the register holds after 7r rounds, where round r's constant starts. */
  function RegisterAt(r: nat): bv8
    requires r <= 24
  {
    match r
    case 0 => 1
    case 1 => 128
    case 2 => 216
    case 3 => 26
    case 4 => 223
    case 5 => 9
    case 6 => 53
    case 7 => 79
    case 8 => 202
    case 9 => 112
    case 10 => 65
    case 11 => 236
    case 12 => 213
    case 13 => 205
    case 14 => 99
    case 15 => 171
    case 16 => 170
    case 17 => 42
    case 18 => 242
    case 19 => 232
    case 20 => 55
    case 21 => 62
    case 22 => 11
    case 23 => 68
    case _ => 142
  }

  lemma SevenRounds(g: bv8)
    ensures Register(g, 0) == g && Register(g, 1) == NextRegister(g)
    ensures Register(g, 2) == NextRegister(Register(g, 1)) && Register(g, 3) == NextRegister(Register(g, 2))
    ensures Register(g, 4) == NextRegister(Register(g, 3)) && Register(g, 5) == NextRegister(Register(g, 4))
    ensures Register(g, 6) == NextRegister(Register(g, 5)) && Register(g, 7) == NextRegister(Register(g, 6))
  {
    hide NextRegister;
  }

  lemma RegisterAdvances(r: nat)
    requires r < 24
    ensures RegisterAt(r + 1) ==
      NextRegister(NextRegister(NextRegister(NextRegister(NextRegister(NextRegister(NextRegister(RegisterAt(r))))))))
  {
  }

  lemma FirstRegister()
    ensures Fips202.Register(0) == RegisterBits(RegisterAt(0))
  {
  }

  lemma {:induction false} RegisterIsTabled(r: nat)
    requires r <= 24
    ensures Fips202.Register(7 * r) == RegisterBits(RegisterAt(r))
  {
    hide RegisterAt;
    hide RegisterBits;
    hide Register;
    hide NextRegister;
    if r == 0 {
      FirstRegister();
    } else {
      var g := RegisterAt(r - 1);
      RegisterIsTabled(r - 1);
      RegisterShifts(g, 7 * (r - 1), 7);
      SevenRounds(g);
      RegisterAdvances(r - 1);
    }
  }

  /** rc(7r + j): bit j of round r's constant comes out of the register j rounds after the tabled one. */
  lemma RoundBit(r: nat, j: nat)
    requires r < 24 && j < 7
    ensures Fips202.Rc(7 * r + j) == (Register(RegisterAt(r), j) & 1 == 1)
  {
    hide RegisterAt;
    hide Register;
    hide NextRegister;
    RegisterIsTabled(r);
    RegisterShifts(RegisterAt(r), 7 * r, j);
  }

  /** A lowest bit, at a place of the constant. */
  function Placed(g: bv8, weight: nat): nat { if g & 1 == 1 then weight else 0 }

  /** The seven bits that come out of the register, each at its place 2^j - 1. */
  function ConstantValue(g: bv8): nat {
    Placed(Register(g, 0), 1) + Placed(Register(g, 1), 2) + Placed(Register(g, 2), 8) + Placed(Register(g, 3), 0x80)
    + Placed(Register(g, 4), 0x8000) + Placed(Register(g, 5), 0x8000_0000)
    + Placed(Register(g, 6), 0x8000_0000_0000_0000)
  }

  /** The same bits straight from the register's contents. */
  function DirectValue(g: bv8): nat {
    Placed(g, 1) + Placed(g >> 7, 2) + Placed(g >> 6, 8) + Placed((g >> 5) ^ (g >> 7), 0x80)
    + Placed((g >> 4) ^ (g >> 6) ^ (g >> 7), 0x8000) + Placed((g >> 3) ^ (g >> 5) ^ (g >> 6), 0x8000_0000)
    + Placed((g >> 2) ^ (g >> 4) ^ (g >> 5), 0x8000_0000_0000_0000)
  }

  lemma ValueIsDirect(g: bv8)
    ensures ConstantValue(g) == DirectValue(g)
  {
    hide Register;
    SevenRounds(g);
    assert Register(g, 1) & 1 == (g >> 7) & 1;
    assert Register(g, 2) & 1 == (g >> 6) & 1;
    assert Register(g, 3) & 1 == ((g >> 5) ^ (g >> 7)) & 1;
    assert Register(g, 4) & 1 == ((g >> 4) ^ (g >> 6) ^ (g >> 7)) & 1;
    assert Register(g, 5) & 1 == ((g >> 3) ^ (g >> 5) ^ (g >> 6)) & 1;
    assert Register(g, 6) & 1 == ((g >> 2) ^ (g >> 4) ^ (g >> 5)) & 1;
  }

  lemma RndcIsDirect(r: nat)
    requires r < 24
    ensures Rndc(r) == DirectValue(RegisterAt(r))
  {
  }

  // A round constant has bits in seven places only; the number is read off piece by piece.

  lemma {:induction false} SkipZeros(bits: seq<bool>, n: nat)
    requires n <= |bits| && forall i :: 0 <= i < n ==> !bits[i]
    ensures NatOf(bits) == Doubled(n) * NatOf(bits[n..])
  {
    if n == 0 {
      assert bits[0..] == bits;
    } else {
      SkipZeros(bits[1..], n - 1);
      assert bits[1..][n - 1..] == bits[n..];
      assert Doubled(n) * NatOf(bits[n..]) == 2 * (Doubled(n - 1) * NatOf(bits[n..]));
    }
  }

  /** From place `from`: n zeros, then a bit. */
  lemma SkipTo(w: Word, from: nat, n: nat, p: nat)
    requires from + n < 64 && p == Doubled(n) && forall i :: from <= i < from + n ==> !w[i]
    ensures NatOf(w[from..]) == Weighted(w[from + n], p) + 2 * p * NatOf(w[from + n + 1..])
  {
    SkipZeros(w[from..], n);
    assert w[from..][n..] == w[from + n..];
    assert w[from + n..][1..] == w[from + n + 1..];
    Distribute(Doubled(n), if w[from + n] then 1 else 0, NatOf(w[from + n + 1..]));
  }

  lemma Distribute(p: nat, b: nat, rest: nat)
    ensures p * (b + 2 * rest) == p * b + 2 * p * rest
  {
  }

  predicate IsPlace(z: nat) { z == 0 || z == 1 || z == 3 || z == 7 || z == 15 || z == 31 || z == 63 }

  function Weighted(b: bool, weight: nat): nat { if b then weight else 0 }

  /** No bit set between the places. */
  ghost predicate Sparse(w: Word) { forall z :: 0 <= z < 64 && !IsPlace(z) ==> !w[z] }

  lemma Gap(w: Word, from: nat, n: nat)
    requires Sparse(w) && from + n < 64 && forall z :: from <= z < from + n ==> !IsPlace(z)
    ensures forall z :: from <= z < from + n ==> !w[z]
  {
  }

  lemma LowValue(w: Word)
    requires Sparse(w)
    ensures NatOf(w) ==
      Weighted(w[0], 1) + Weighted(w[1], 2) + Weighted(w[3], 8) + Weighted(w[7], 0x80) + 0x100 * NatOf(w[8..])
  {
    hide NatOf;
    hide Doubled;
    hide Sparse;
    Powers();
    Gap(w, 2, 1);
    Gap(w, 4, 3);
    SkipTo(w, 0, 0, 1);
    SkipTo(w, 1, 0, 1);
    SkipTo(w, 2, 1, 2);
    SkipTo(w, 4, 3, 8);
    assert w[0..] == w;
  }

  lemma NothingLeft(w: Word)
    ensures NatOf(w[64..]) == 0
  {
  }

  lemma HighValue(w: Word)
    requires Sparse(w)
    ensures 0x100 * NatOf(w[8..]) ==
      Weighted(w[15], 0x8000) + Weighted(w[31], 0x8000_0000) + Weighted(w[63], 0x8000_0000_0000_0000)
  {
    hide NatOf;
    hide Doubled;
    hide Sparse;
    Powers();
    Gap(w, 8, 7);
    Gap(w, 16, 15);
    Gap(w, 32, 31);
    SkipTo(w, 8, 7, 0x80);
    SkipTo(w, 16, 15, 0x8000);
    SkipTo(w, 32, 31, 0x8000_0000);
    NothingLeft(w);
  }

  lemma Powers()
    ensures Doubled(0) == 1 && Doubled(1) == 2 && Doubled(3) == 8 && Doubled(7) == 0x80
    ensures Doubled(15) == 0x8000 && Doubled(31) == 0x8000_0000
  {
    assert Doubled(7) == 0x80;
    assert Doubled(15) == 0x8000;
    assert Doubled(23) == 0x80_0000;
  }

  /** Each constant of the kernel's table is the round constant of section 3.2.5. */
  lemma RndcIsRoundConstant(r: nat)
    requires r < 24
    ensures BitsOf(Rndc(r), 64) == Fips202.RoundConstant(r)
  {
    hide NatOf;
    hide Fips202.Rc;
    hide Register;
    hide RegisterAt;
    hide Rndc;
    var w := Fips202.RoundConstant(r);
    var g := RegisterAt(r);
    LowValue(w);
    HighValue(w);
    forall j | 0 <= j < 7
      ensures Fips202.Rc(7 * r + j) == (Register(g, j) & 1 == 1)
    {
      RoundBit(r, j);
    }
    assert NatOf(w) == ConstantValue(g);
    ValueIsDirect(g);
    RndcIsDirect(r);
    BitsRoundTrip(w);
  }
}
