/** SHA3-512 as FIPS 202 defines it, on bit strings: sections 3.1 to 3.3, 4, 5.1 and 6.1 with w = 64, l = 6. */
module Fips202 {
  import opened Words

  /** The state string S of 1600 bits. */
  type StateBits = s: seq<bool> | |s| == 1600 witness Falses(1600)

  /** Section 3.1.2: A[x, y, z] = S[w (5y + x) + z]. */
  function At(s: StateBits, x: nat, y: nat, z: nat): bool
    requires x < 5 && y < 5 && z < 64
  {
    s[64 * (5 * y + x) + z]
  }

  /** The coordinates of bit i of a state string. */
  function X(i: nat): (x: nat) ensures x < 5 { i / 64 % 5 }

  function Y(i: nat): (y: nat)
    requires i < 1600
    ensures y < 5
  {
    i / 64 / 5
  }

  function Z(i: nat): (z: nat) ensures z < 64 { i % 64 }

  lemma Coordinates(x: nat, y: nat, z: nat)
    requires x < 5 && y < 5 && z < 64
    ensures var i := 64 * (5 * y + x) + z; i < 1600 && X(i) == x && Y(i) == y && Z(i) == z
  {
    var i := 64 * (5 * y + x) + z;
    assert i / 64 == 5 * y + x;
  }

  // ----- Step mappings, section 3.2

  /** C[x, z] of section 3.2.1. */
  function Parity(s: StateBits, x: nat, z: nat): bool
    requires x < 5 && z < 64
  {
    (((At(s, x, 0, z) != At(s, x, 1, z)) != At(s, x, 2, z)) != At(s, x, 3, z)) != At(s, x, 4, z)
  }

  /** Section 3.2.1. */
  function Theta(s: StateBits): StateBits {
    seq(1600, i requires 0 <= i < 1600 => ThetaBit(s, X(i), Y(i), Z(i)))
  }

  function ThetaBit(s: StateBits, x: nat, y: nat, z: nat): bool
    requires x < 5 && y < 5 && z < 64
  {
    At(s, x, y, z) != (Parity(s, (x + 4) % 5, z) != Parity(s, (x + 1) % 5, (z + 63) % 64))
  }

  /** The lane that section 3.2.2 rotates in its iteration t. */
  function Walk(t: nat): (p: (nat, nat))
    ensures p.0 < 5 && p.1 < 5
  {
    if t == 0 then (1, 0) else var (x, y) := Walk(t - 1); (y, (2 * x + 3 * y) % 5)
  }

  /** The rotation of lane (x, y): (t+1)(t+2)/2 for the iteration that reaches it, none for lane (0, 0). */
  function Offset(x: nat, y: nat, t: nat): nat
    decreases 24 - t
  {
    if t >= 24 then 0
    else if Walk(t) == (x, y) then (t + 1) * (t + 2) / 2
    else Offset(x, y, t + 1)
  }

  /** Section 3.2.2. */
  function Rho(s: StateBits): StateBits {
    seq(1600, i requires 0 <= i < 1600 => At(s, X(i), Y(i), Behind(Z(i), Offset(X(i), Y(i), 0))))
  }

  /** (z - n) mod w */
  function Behind(z: nat, n: nat): (k: nat)
    ensures k < 64
  {
    (z - n) % 64
  }

  /** Section 3.2.3. */
  function Pi(s: StateBits): StateBits {
    seq(1600, i requires 0 <= i < 1600 => At(s, (X(i) + 3 * Y(i)) % 5, X(i), Z(i)))
  }

  /** Section 3.2.4. */
  function Chi(s: StateBits): StateBits {
    seq(1600, i requires 0 <= i < 1600 => ChiBit(s, X(i), Y(i), Z(i)))
  }

  function ChiBit(s: StateBits, x: nat, y: nat, z: nat): bool
    requires x < 5 && y < 5 && z < 64
  {
    At(s, x, y, z) != ((At(s, (x + 1) % 5, y, z) != true) && At(s, (x + 2) % 5, y, z))
  }

  /** R after k rounds of algorithm 5 in section 3.2.5. */
  function Register(k: nat): (r: seq<bool>)
    ensures |r| == 8
  {
    if k == 0 then [true, false, false, false, false, false, false, false]
    else Shifted(Register(k - 1))
  }

  /** One round: prepend a zero, feed the ninth bit back into bits 0, 4, 5 and 6, truncate. */
  function Shifted(r: seq<bool>): (n: seq<bool>)
    requires |r| == 8
    ensures |n| == 8
  {
    var s := [false] + r;
    [s[0] != s[8], s[1], s[2], s[3], s[4] != s[8], s[5] != s[8], s[6] != s[8], s[7]]
  }

  /** rc(t) of section 3.2.5. */
  function Rc(t: nat): bool {
    Register(t % 255)[0]
  }

  /** RC of round r: rc(j + 7r) at position 2^j - 1 for j = 0 to 6, zero elsewhere. */
  function RoundConstant(r: nat): Word {
    seq(64, z requires 0 <= z < 64 => RoundConstantBit(r, z))
  }

  function RoundConstantBit(r: nat, z: nat): bool {
    if z == 0 then Rc(7 * r)
    else if z == 1 then Rc(7 * r + 1)
    else if z == 3 then Rc(7 * r + 2)
    else if z == 7 then Rc(7 * r + 3)
    else if z == 15 then Rc(7 * r + 4)
    else if z == 31 then Rc(7 * r + 5)
    else z == 63 && Rc(7 * r + 6)
  }

  /** Section 3.2.5. */
  function Iota(s: StateBits, r: nat): StateBits {
    seq(1600, i requires 0 <= i < 1600 => if X(i) == 0 && Y(i) == 0 then s[i] != RoundConstant(r)[Z(i)] else s[i])
  }

  // ----- The permutation and the sponge

  /** Rnd of section 3.3. */
  function Round(s: StateBits, r: nat): StateBits {
    Iota(Chi(Pi(Rho(Theta(s)))), r)
  }

  /** The first n rounds; n = 24 is Keccak-f[1600], section 3.4. */
  function Rounds(s: StateBits, n: nat): StateBits {
    if n == 0 then s else Round(Rounds(s, n - 1), n - 1)
  }

  function KeccakF(s: StateBits): StateBits { Rounds(s, 24) }

  /** pad10*1 of section 5.1, algorithm 9. */
  function Pad101(x: nat, m: nat): seq<bool>
    requires x > 0
  {
    [true] + Falses((-(m as int) - 2) % x) + [true]
  }

  function XorInto(s: StateBits, block: seq<bool>): StateBits
    requires |block| == 576
  {
    seq(1600, i requires 0 <= i < 1600 => if i < 576 then s[i] != block[i] else s[i])
  }

  /** Steps 5 and 6 of the sponge, section 4, with rate 576. */
  function Absorb(p: seq<bool>): StateBits
    requires |p| % 576 == 0
  {
    if p == [] then Falses(1600)
    else KeccakF(XorInto(Absorb(p[..|p| - 576]), p[|p| - 576..]))
  }

  /** Section 6.1: SHA3-512(M) = Keccak[1024](M || 01, 512). */
  function Sha3_512(m: seq<bool>): (d: seq<bool>)
    ensures |d| == 512
  {
    var n := m + [false, true];
    PaddedLength(|n|);
    Absorb(n + Pad101(576, |n|))[..512]
  }

  lemma PaddedLength(n: nat)
    ensures (n + 2 + (-(n as int) - 2) % 576) % 576 == 0
  {
  }
}
