/**
 * Thirty-one numbers below 26 that, at the first thirty-one powers of the FNV prime, make up any given number modulo
 * 2^56.  The number is reduced by short vectors that vanish at those powers; what is left is small.
 */
module FnvDigits {

  const M: int := 0x100_0000_0000_0000

  datatype Vec = Vec(c0: int, c1: int, c2: int, c3: int, c4: int, c5: int, c6: int, c7: int, c8: int, c9: int,
    c10: int, c11: int, c12: int, c13: int, c14: int, c15: int, c16: int, c17: int, c18: int, c19: int, c20: int,
    c21: int, c22: int, c23: int, c24: int, c25: int, c26: int, c27: int, c28: int, c29: int, c30: int)

  predicate Near(x: int, q: int) { 0 <= x - 0x100_0000_0000_0000 * q < 0x100_0000_0000_0000 }

  function Share(x: int): (q: int)
    ensures Near(x, q)
  {
    x / 0x100_0000_0000_0000
  }

  /** The quotients, by 2^56, of t times thirty-one weights: the weights solve the linear system of the digits. */
  predicate Divided(t: int, q: Vec) {
    && Near(-0x67009abe2e0601 * t, q.c0) && Near(0x3aad07e27d78c * t, q.c1) && Near(0x21766410284f72 * t, q.c2)
    && Near(-0x1a469a00254984 * t, q.c3) && Near(-0x3539d5ca64c361 * t, q.c4) && Near(-0x2602bb2a9d447a * t, q.c5)
    && Near(-0x4051516b01e1c0 * t, q.c6) && Near(0x2effae3ecbea9f * t, q.c7) && Near(0x39440816cb5186 * t, q.c8)
    && Near(0x1d228dabd246b1 * t, q.c9) && Near(0x5606d2b1379c9f * t, q.c10) && Near(-0x199a59a4ac56cc * t, q.c11)
    && Near(-0x588dbbdc3e788f * t, q.c12) && Near(0x55ba63deba5320 * t, q.c13)
    && Near(-0xbe2b5b183b1e9 * t, q.c14) && Near(-0x4006aa0d8a1426 * t, q.c15)
    && Near(0x36487ce264a43f * t, q.c16) && Near(-0x30c130723530ba * t, q.c17)
    && Near(-0x255ac141e1616e * t, q.c18) && Near(-0x11f0af7cbd6682 * t, q.c19)
    && Near(-0x13eba7ef3d3230 * t, q.c20) && Near(-0x4007c8a55e32af * t, q.c21)
    && Near(0x4efb44c972a842 * t, q.c22) && Near(0xb696e75055a8e * t, q.c23) && Near(-0xfe1af46a3de9e * t, q.c24)
    && Near(0x9a98836a08aa8 * t, q.c25) && Near(0x27504b9a41086c * t, q.c26) && Near(0x28d98011fda38c * t, q.c27)
    && Near(0x482553adf6329 * t, q.c28) && Near(-0x15ea1abd3bc09b * t, q.c29) && Near(0x2a745aad70dfbc * t, q.c30)
  }

  lemma Divide(t: int) returns (q: Vec)
    ensures Divided(t, q)
  {
    q := Vec(Share(-0x67009abe2e0601 * t), Share(0x3aad07e27d78c * t), Share(0x21766410284f72 * t),
             Share(-0x1a469a00254984 * t), Share(-0x3539d5ca64c361 * t), Share(-0x2602bb2a9d447a * t),
             Share(-0x4051516b01e1c0 * t), Share(0x2effae3ecbea9f * t), Share(0x39440816cb5186 * t),
             Share(0x1d228dabd246b1 * t), Share(0x5606d2b1379c9f * t), Share(-0x199a59a4ac56cc * t),
             Share(-0x588dbbdc3e788f * t), Share(0x55ba63deba5320 * t), Share(-0xbe2b5b183b1e9 * t),
             Share(-0x4006aa0d8a1426 * t), Share(0x36487ce264a43f * t), Share(-0x30c130723530ba * t),
             Share(-0x255ac141e1616e * t), Share(-0x11f0af7cbd6682 * t), Share(-0x13eba7ef3d3230 * t),
             Share(-0x4007c8a55e32af * t), Share(0x4efb44c972a842 * t), Share(0xb696e75055a8e * t),
             Share(-0xfe1af46a3de9e * t), Share(0x9a98836a08aa8 * t), Share(0x27504b9a41086c * t),
             Share(0x28d98011fda38c * t), Share(0x482553adf6329 * t), Share(-0x15ea1abd3bc09b * t),
             Share(0x2a745aad70dfbc * t));
  }

  // ----- The digits of t: t in the first place, less a combination of short vectors that vanish modulo 2^56

  function Digit0(t: int, q: Vec): (d: int)
    requires Divided(t, q)
    ensures 0 <= d < 26
  {
    t + q.c0 - q.c4 + q.c5 + q.c6 + q.c7 - q.c8 + q.c9 - q.c10 + q.c11 - q.c12 + q.c13 - q.c16 + 3 * q.c17 - q.c19
      + q.c21 + 2 * q.c26 + q.c28 + q.c29 + 14
  }

  function Digit1(t: int, q: Vec): (d: int)
    requires Divided(t, q)
    ensures 0 <= d < 26
  {
    q.c1 - 2 * q.c2 - q.c3 + 2 * q.c4 + 2 * q.c5 + 3 * q.c7 - 2 * q.c11 - 2 * q.c14 + 3 * q.c16 + q.c17 + q.c18
      + q.c21 - 2 * q.c23 + 2 * q.c24 + q.c27 + q.c28 + 17
  }

  function Digit2(t: int, q: Vec): (d: int)
    requires Divided(t, q)
    ensures 0 <= d < 26
  {
    q.c0 + 3 * q.c2 - q.c4 + q.c6 + q.c10 - q.c11 + q.c12 + q.c13 - q.c15 + 2 * q.c16 + 2 * q.c18 + 2 * q.c21
      - 2 * q.c25 + q.c26 - 2 * q.c30 + 14
  }

  function Digit3(t: int, q: Vec): (d: int)
    requires Divided(t, q)
    ensures 0 <= d < 26
  {
    q.c0 + q.c1 + q.c3 - 2 * q.c4 + 2 * q.c5 + q.c8 - q.c10 - q.c11 + q.c12 - q.c14 - q.c15 + 2 * q.c17 + q.c18
      + 2 * q.c20 - 3 * q.c21 + 2 * q.c22 + q.c29 - q.c30 + 14
  }

  function Digit4(t: int, q: Vec): (d: int)
    requires Divided(t, q)
    ensures 0 <= d < 26
  {
    q.c1 + q.c2 - q.c3 + q.c4 + q.c5 + q.c6 + 2 * q.c8 - 3 * q.c9 - q.c13 + q.c18 - q.c21 - q.c22 - q.c23 - q.c24
      + 2 * q.c25 + 2 * q.c26 + 3 * q.c27 + q.c29 + 15
  }

  function Digit5(t: int, q: Vec): (d: int)
    requires Divided(t, q)
    ensures 0 <= d < 26
  {
    2 * q.c0 - q.c2 - q.c4 - q.c6 - 2 * q.c10 + q.c11 - q.c12 + q.c13 + q.c14 + q.c17 - q.c18 - q.c19 + q.c21
      + 2 * q.c22 + q.c23 - 3 * q.c25 + q.c27 - 2 * q.c28 + q.c30 + 11
  }

  function Digit6(t: int, q: Vec): (d: int)
    requires Divided(t, q)
    ensures 0 <= d < 26
  {
    q.c0 + 2 * q.c1 + 2 * q.c2 - q.c4 + q.c5 + q.c6 + 2 * q.c9 + q.c10 + 3 * q.c12 + q.c15 - q.c17 + 2 * q.c23
      + 2 * q.c27 + q.c28 + q.c29 + 3 * q.c30 + 22
  }

  function Digit7(t: int, q: Vec): (d: int)
    requires Divided(t, q)
    ensures 0 <= d < 26
  {
    2 * q.c0 + q.c1 + q.c2 + q.c6 + q.c7 - q.c8 + q.c9 + 2 * q.c13 + q.c14 - 2 * q.c15 + q.c16 + 2 * q.c18 - q.c19
      + 2 * q.c20 + q.c21 + q.c22 + q.c24 - q.c25 - q.c26 + q.c27 + q.c29 + 19
  }

  function Digit8(t: int, q: Vec): (d: int)
    requires Divided(t, q)
    ensures 0 <= d < 26
  {
    q.c0 + 2 * q.c1 + q.c5 - q.c7 - q.c9 - q.c12 + 3 * q.c14 - 2 * q.c15 + q.c16 + q.c17 - q.c18 - q.c19 + 2 * q.c20
      - q.c21 - q.c24 + q.c25 - q.c26 - 2 * q.c27 - q.c28 - 2 * q.c29 + 11
  }

  function Digit9(t: int, q: Vec): (d: int)
    requires Divided(t, q)
    ensures 0 <= d < 26
  {
    13 - q.c0 + q.c1 + q.c2 + 2 * q.c4 + q.c6 - q.c8 + q.c9 + q.c11 - q.c12 - q.c13 + 2 * q.c14 - q.c15 + q.c16
      + q.c18 - q.c19 + q.c20 - q.c22 - q.c24 - q.c25 + 2 * q.c27 - q.c28 - q.c29
  }

  function Digit10(t: int, q: Vec): (d: int)
    requires Divided(t, q)
    ensures 0 <= d < 26
  {
    12 - q.c1 - q.c4 + q.c5 - q.c7 - q.c8 + 4 * q.c9 + q.c12 + 2 * q.c13 - 2 * q.c14 + 2 * q.c18 - q.c20 + q.c21
      + q.c22 + q.c23 - 2 * q.c26 - q.c27 - q.c28 - q.c29
  }

  function Digit11(t: int, q: Vec): (d: int)
    requires Divided(t, q)
    ensures 0 <= d < 26
  {
    2 * q.c0 + q.c3 - q.c5 - q.c6 + q.c8 - q.c10 + 3 * q.c11 + q.c12 + q.c13 + q.c14 - q.c17 - 2 * q.c18 - q.c19
      - 2 * q.c21 - q.c22 + q.c23 + q.c28 - 2 * q.c29 + 11
  }

  function Digit12(t: int, q: Vec): (d: int)
    requires Divided(t, q)
    ensures 0 <= d < 26
  {
    2 * q.c1 + q.c2 + q.c3 + q.c4 - q.c5 - q.c6 + q.c8 + q.c10 + 2 * q.c11 - 2 * q.c13 - q.c14 + 2 * q.c15 + q.c16
      - q.c17 + q.c19 + q.c20 + q.c22 + q.c25 - q.c26 - q.c28 - q.c29 + 15
  }

  function Digit13(t: int, q: Vec): (d: int)
    requires Divided(t, q)
    ensures 0 <= d < 26
  {
    14 - q.c2 - q.c3 + q.c4 + q.c7 + q.c9 - q.c10 + q.c11 - q.c12 + q.c13 - q.c14 + 2 * q.c15 - q.c16 + 2 * q.c18
      + q.c20 - q.c21 + q.c23 - q.c26 + 2 * q.c27 + q.c28 - q.c29 + q.c30
  }

  function Digit14(t: int, q: Vec): (d: int)
    requires Divided(t, q)
    ensures 0 <= d < 26
  {
    q.c0 - q.c3 - 2 * q.c5 + q.c7 - q.c10 - q.c11 + 2 * q.c14 - 2 * q.c15 + q.c17 + 2 * q.c19 - q.c20 + q.c23
      + 4 * q.c24 - q.c25 + q.c27 - q.c28 + 12
  }

  function Digit15(t: int, q: Vec): (d: int)
    requires Divided(t, q)
    ensures 0 <= d < 26
  {
    q.c1 - q.c3 + q.c4 + 2 * q.c5 + q.c6 - q.c7 + q.c8 - 2 * q.c9 + 2 * q.c10 + q.c12 - 2 * q.c14 - 2 * q.c17
      + 2 * q.c18 + q.c19 + 2 * q.c25 + q.c27 - q.c28 - 2 * q.c29 + 14
  }

  function Digit16(t: int, q: Vec): (d: int)
    requires Divided(t, q)
    ensures 0 <= d < 26
  {
    14 - q.c0 + 3 * q.c2 - q.c3 + 2 * q.c4 - q.c5 - q.c6 + q.c8 + q.c9 + q.c10 + q.c11 - q.c12 - 2 * q.c13 - q.c16
      - q.c17 + 2 * q.c20 + q.c21 - 2 * q.c22 + 2 * q.c24 + q.c25
  }

  function Digit17(t: int, q: Vec): (d: int)
    requires Divided(t, q)
    ensures 0 <= d < 26
  {
    13 - q.c1 + q.c3 - 2 * q.c5 - q.c6 - q.c7 - 2 * q.c8 + q.c10 + q.c12 + q.c13 + q.c15 + q.c16 + 2 * q.c17 + q.c19
      + q.c21 + q.c22 + 2 * q.c23 - 2 * q.c28 - q.c29 + q.c30
  }

  function Digit18(t: int, q: Vec): (d: int)
    requires Divided(t, q)
    ensures 0 <= d < 26
  {
    4 - q.c0 - 4 * q.c3 + q.c4 + q.c7 - q.c9 - q.c10 + q.c14 - 2 * q.c15 - 3 * q.c16 - q.c17 + q.c18 - 2 * q.c19
      + q.c20 - q.c23 - 3 * q.c28 - q.c30
  }

  function Digit19(t: int, q: Vec): (d: int)
    requires Divided(t, q)
    ensures 0 <= d < 26
  {
    9 - q.c1 + q.c2 + q.c5 + q.c6 - q.c7 + q.c8 - 2 * q.c9 - 2 * q.c12 + 2 * q.c14 - 2 * q.c18 - 2 * q.c20
      + 2 * q.c21 - q.c22 + 2 * q.c26 - q.c27 - q.c29
  }

  function Digit20(t: int, q: Vec): (d: int)
    requires Divided(t, q)
    ensures 0 <= d < 26
  {
    q.c5 + q.c6 - q.c7 + q.c8 - q.c10 - q.c12 - q.c13 - q.c15 - q.c17 - q.c18 - 2 * q.c19 - q.c21 - q.c23 - q.c24
      - 2 * q.c25 - q.c26 + 2 * q.c27 + q.c28 + q.c29 - 2 * q.c30 + 6
  }

  function Digit21(t: int, q: Vec): (d: int)
    requires Divided(t, q)
    ensures 0 <= d < 26
  {
    q.c4 + q.c6 + 2 * q.c7 - 2 * q.c8 + 2 * q.c9 + q.c11 - q.c12 + q.c14 - 2 * q.c15 - q.c16 + q.c17 + q.c19 - q.c20
      + q.c21 - q.c23 + 2 * q.c27 - q.c28 + 12
  }

  function Digit22(t: int, q: Vec): (d: int)
    requires Divided(t, q)
    ensures 0 <= d < 26
  {
    11 - q.c0 - q.c4 + q.c5 + 2 * q.c6 + q.c7 + q.c8 + q.c10 + 2 * q.c12 + q.c13 - q.c14 - 3 * q.c16 + q.c17 - q.c19
      - q.c21 - 3 * q.c23 - q.c24 + q.c25 - q.c28 + q.c30
  }

  function Digit23(t: int, q: Vec): (d: int)
    requires Divided(t, q)
    ensures 0 <= d < 26
  {
    9 - q.c1 - q.c3 + q.c5 + q.c8 - q.c9 - q.c11 - 2 * q.c13 - 2 * q.c14 - q.c16 - q.c17 - 2 * q.c19 - q.c22 - q.c23
      + 2 * q.c24 + q.c25 + q.c26 + q.c27 + q.c28 - q.c29 + 2 * q.c30
  }

  function Digit24(t: int, q: Vec): (d: int)
    requires Divided(t, q)
    ensures 0 <= d < 26
  {
    8 - q.c0 - 2 * q.c3 - q.c4 - q.c6 + q.c7 + q.c8 + q.c9 + 2 * q.c12 - q.c15 - q.c16 + q.c17 + q.c21 - q.c22
      - 2 * q.c23 - 2 * q.c24 + q.c25 - q.c26 + q.c27 - q.c28 - q.c29 - 2 * q.c30
  }

  function Digit25(t: int, q: Vec): (d: int)
    requires Divided(t, q)
    ensures 0 <= d < 26
  {
    9 - q.c1 - q.c2 + 3 * q.c3 - q.c4 - q.c6 + q.c7 - q.c8 - q.c10 - 3 * q.c11 - q.c13 + q.c14 + q.c15 - q.c18
      - 2 * q.c19 - q.c20 + q.c22 + q.c24 + q.c26 + q.c28 - q.c29 - q.c30
  }

  function Digit26(t: int, q: Vec): (d: int)
    requires Divided(t, q)
    ensures 0 <= d < 26
  {
    7 - 2 * q.c2 + q.c4 - q.c5 - 2 * q.c6 + q.c7 - q.c8 - q.c9 - q.c10 - q.c11 + q.c12 + 2 * q.c13 + q.c17 - q.c20
      + q.c21 + q.c22 - q.c24 - q.c25 - q.c26 - q.c28 - q.c29
  }

  function Digit27(t: int, q: Vec): (d: int)
    requires Divided(t, q)
    ensures 0 <= d < 26
  {
    14 - q.c2 + q.c4 - q.c6 + 2 * q.c7 + 2 * q.c8 - 2 * q.c10 - q.c13 + q.c16 - q.c17 + 2 * q.c18 + 2 * q.c19 - q.c20
      - q.c21 + q.c22 - q.c23 + q.c24 - q.c25 - q.c26 + q.c27 - q.c28 + 2 * q.c29
  }

  function Digit28(t: int, q: Vec): (d: int)
    requires Divided(t, q)
    ensures 0 <= d < 26
  {
    q.c2 + q.c3 - q.c6 + q.c8 - q.c10 - q.c11 - q.c12 - q.c13 + q.c15 + q.c17 - 2 * q.c20 + q.c22 + q.c23 + 2 * q.c24
      - q.c25 + q.c26 + q.c27 - 3 * q.c30 + 10
  }

  function Digit29(t: int, q: Vec): (d: int)
    requires Divided(t, q)
    ensures 0 <= d < 26
  {
    11 - q.c0 - q.c4 - 2 * q.c7 + q.c8 - q.c9 - q.c13 + q.c14 + q.c15 - 2 * q.c16 + 2 * q.c17 - q.c18 - q.c19 - q.c20
      - q.c21 + q.c22 - q.c24 + 3 * q.c25 + 2 * q.c26 + q.c29 - q.c30
  }

  function Digit30(t: int, q: Vec): (d: int)
    requires Divided(t, q)
    ensures 0 <= d < 26
  {
    6 - q.c1 + q.c3 - q.c4 - q.c5 - q.c6 - 2 * q.c7 + q.c12 - q.c16 - q.c20 + q.c22 + 3 * q.c23 + q.c29
  }

  // ----- Values at the powers, a few places at a time

  function Value0(a: int, b: int, c: int): int {
    a + 0x100000001b3 * b + 0x366000002e329 * c
  }

  function Value1(a: int, b: int, c: int): int {
    0xa97b0004e7feab * a + 0xfaac085635bc91 * b + 0xaee32a7d4f6a63 * c
  }

  function Value2(a: int, b: int, c: int): int {
    0x966432edf1c639 * a + 0x527b8a51d3d2db * b + 0xfac7090aef4a21 * c
  }

  function Value3(a: int, b: int, c: int): int {
    0x6a555d949af613 * a + 0xa5210383502249 * b + 0xb961f8212a420b * c
  }

  function Value4(a: int, b: int, c: int): int {
    0x4383a05ace38b1 * a + 0xf15a7a4c6a54c3 * b + 0x7180cfd8ae0759 * c
  }

  function Value5(a: int, b: int, c: int): int {
    0xe53a2d2fb67c3b * a + 0xfe15c813151841 * b + 0xd743f86cd83673 * c
  }

  function Value6(a: int, b: int, c: int): int {
    0xfef220f3648569 * a + 0xbad6fd93ceb16b * b + 0x2cbbe2283778d1 * c
  }

  function Value7(a: int, b: int, c: int): int {
    0x7c124a56424b23 * a + 0x1e375092a5ac79 * b + 0x476e92f84119b * c
  }

  function Value8(a: int, b: int, c: int): int {
    0xa7a93bbd69ea61 * a + 0xcef182daf942d3 * b + 0xe7345a158c8c89 * c
  }

  function Value9(a: int, b: int): int {
    0x6a7e129dd2cccb * a + 0xc104a22d31fcf1 * b
  }

  function Value10(a: int, b: int): int {
    0xf7d092cbf0cd83 * a + 0xe4ec708a2d3599 * b
  }

  /** The value of thirty-one numbers. */
  function Value(y: Vec): int {
    Value0(y.c0, y.c1, y.c2) + Value1(y.c3, y.c4, y.c5) + Value2(y.c6, y.c7, y.c8) + Value3(y.c9, y.c10, y.c11)
    + Value4(y.c12, y.c13, y.c14) + Value5(y.c15, y.c16, y.c17) + Value6(y.c18, y.c19, y.c20)
    + Value7(y.c21, y.c22, y.c23) + Value8(y.c24, y.c25, y.c26) + Value9(y.c27, y.c28) + Value10(y.c29, y.c30)
  }

  lemma ValueIs(y: Vec)
    ensures Value(y) ==
      Value0(y.c0, y.c1, y.c2) + Value1(y.c3, y.c4, y.c5) + Value2(y.c6, y.c7, y.c8) + Value3(y.c9, y.c10, y.c11)
      + Value4(y.c12, y.c13, y.c14) + Value5(y.c15, y.c16, y.c17) + Value6(y.c18, y.c19, y.c20)
      + Value7(y.c21, y.c22, y.c23) + Value8(y.c24, y.c25, y.c26) + Value9(y.c27, y.c28) + Value10(y.c29, y.c30)
  {
    hide Value0, Value1, Value2, Value3, Value4, Value5, Value6, Value7, Value8, Value9, Value10;
  }

  /** Between zero and twenty-five. */
  predicate Small(y: Vec) {
    && 0 <= y.c0 < 26 && 0 <= y.c1 < 26 && 0 <= y.c2 < 26 && 0 <= y.c3 < 26 && 0 <= y.c4 < 26 && 0 <= y.c5 < 26
    && 0 <= y.c6 < 26 && 0 <= y.c7 < 26 && 0 <= y.c8 < 26 && 0 <= y.c9 < 26 && 0 <= y.c10 < 26 && 0 <= y.c11 < 26
    && 0 <= y.c12 < 26 && 0 <= y.c13 < 26 && 0 <= y.c14 < 26 && 0 <= y.c15 < 26 && 0 <= y.c16 < 26
    && 0 <= y.c17 < 26 && 0 <= y.c18 < 26 && 0 <= y.c19 < 26 && 0 <= y.c20 < 26 && 0 <= y.c21 < 26
    && 0 <= y.c22 < 26 && 0 <= y.c23 < 26 && 0 <= y.c24 < 26 && 0 <= y.c25 < 26 && 0 <= y.c26 < 26
    && 0 <= y.c27 < 26 && 0 <= y.c28 < 26 && 0 <= y.c29 < 26 && 0 <= y.c30 < 26
  }

  // The value of each group of digits is linear in t and the quotients; each form is written in three pieces.

  function Low0(t: int, q: Vec): int {
    t + 0x2fa5000028892f + 0x366000002e32a * q.c0 + 0x100000001b3 * q.c1 + 0xa30000008a615 * q.c2
    - 0x100000001b3 * q.c3 - 0x364000002dfc4 * q.c4 + 0x20000000367 * q.c5 + 0x366000002e32a * q.c6
    + 0x3000000051a * q.c7 - q.c8 + q.c9 + 0x366000002e328 * q.c10
  }

  function Mid0(q: Vec): int {
    -0x368000002e68e * q.c11 + 0x366000002e328 * q.c12 + 0x366000002e32a * q.c13 - 0x20000000366 * q.c14
    - 0x366000002e329 * q.c15 + 0x6cf000005cb6a * q.c16 + 0x100000001b6 * q.c17 + 0x6cd000005c805 * q.c18
    - q.c19
  }

  function High0(q: Vec): int {
    0x6cd000005c806 * q.c21 - 0x20000000366 * q.c23 + 0x20000000366 * q.c24 - 0x6cc000005c652 * q.c25
    + 0x366000002e32b * q.c26 + 0x100000001b3 * q.c27 + 0x100000001b4 * q.c28 + q.c29 - 0x6cc000005c652 * q.c30
  }

  lemma Group0(t: int, q: Vec)
    requires Divided(t, q)
    ensures Value0(Digit0(t, q), Digit1(t, q), Digit2(t, q))
         == Low0(t, q) + Mid0(q) + High0(q)
  {
    hide Divided;
  }

  function Low1(q: Vec): int {
    0x1f789150b43f8c1a + 0x2074154ff86d371 * q.c0 + 0x1a427085b1dbb3c * q.c1 + 0x4bc8ddd8e6522e * q.c2
    - 0x513108514dbde6 * q.c3 - 0x1072d2230e9ab28 * q.c4 + 0x24da2086005b9e7 * q.c5 + 0x4bc8ddd8e6522e * q.c6
    + 0x29ed310b15377cd * q.c8 - 0x2f0041902a135b3 * q.c9 - 0x2074154ff86d371 * q.c10
  }

  function Mid1(q: Vec): int {
    0x5682a78676bb8 * q.c11 - 0x5682a78676bb8 * q.c12 - 0x4bc8ddd8e6522e * q.c13 + 0x5682a78676bb8 * q.c14
    - 0xa97b0004e7feab * q.c15 + 0x201d92a871f67b9 * q.c17 + 0xf543ddddce50d9 * q.c18 - 0xaee32a7d4f6a63 * q.c19
    + 0x152f60009cffd56 * q.c20
  }

  function High1(q: Vec): int {
    -0x24839dde79e4e2f * q.c21 + 0x1b6104cae39158b * q.c22 - 0x4bc8ddd8e6522e * q.c23 - 0xfaac085635bc91 * q.c24
    - 0x17516ecb82c607 * q.c25 + 0x1f55810ac6b7922 * q.c26 + 0x39ee7437ff0a016 * q.c27 - 0x15dc654fa9ed4c6 * q.c28
    + 0x1a427085b1dbb3c * q.c29 + 0x5682a78676bb8 * q.c30
  }

  lemma Group1(t: int, q: Vec)
    requires Divided(t, q)
    ensures Value1(Digit3(t, q), Digit4(t, q), Digit5(t, q))
         == Low1(q) + Mid1(q) + High1(q)
  {
    hide Divided;
  }

  function Low2(q: Vec): int {
    0x1dd25507fdc7de92 + 0x23622509c88b610 * q.c0 + 0x374d2024395f38f * q.c1 + 0x17f43f02db75f4d * q.c2
    - 0x966432edf1c639 * q.c4 + 0x1912b3bf8e1105a * q.c5 + 0xe8dfbd3fc59914 * q.c6 - 0xa84b7eb91b7746 * q.c7
    - 0x527b8a51d3d2db * q.c8 + 0x847ce722c8152c * q.c9 + 0x966432edf1c639 * q.c10
  }

  function Mid2(q: Vec): int {
    0xc8658fbee6088a * q.c12 + 0xa4f714a3a7a5b6 * q.c13 + 0x342d0a572a1b13e * q.c14 - 0x20420f3cb9473bf * q.c15
    + 0x14d42935cc31cfc * q.c16 + 0x6462d61cfd83e8 * q.c17 - 0x55cff46747a46b * q.c18 - 0x14d42935cc31cfc * q.c19
    + 0x29a8526b98639f8 * q.c20
  }

  function High2(q: Vec): int {
    -0xa84b7eb91b7746 * q.c21 + 0x527b8a51d3d2db * q.c22 + 0x12cc865dbe38c72 * q.c23 - 0xa84b7eb91b7746 * q.c24
    + 0xa84b7eb91b7746 * q.c25 - 0x14d42935cc31cfc * q.c26 - 0x764a21e82734f5 * q.c27 - 0x6462d61cfd83e8 * q.c28
    - 0x10cae54d618fb2e * q.c29 + 0x1c32c98c9d552ab * q.c30
  }

  lemma Group2(t: int, q: Vec)
    requires Divided(t, q)
    ensures Value2(Digit6(t, q), Digit7(t, q), Digit8(t, q))
         == Low2(q) + Mid2(q) + High2(q)
  {
    hide Divided;
  }

  function Low3(q: Vec): int {
    0x151b17942070f0dc + 0x1086e92adb98e03 * q.c0 - 0x3acba5eeb52c36 * q.c1 + 0x6a555d949af613 * q.c2
    + 0xb961f8212a420b * q.c3 + 0x2f89b7a5e5c9dd * q.c4 - 0x1440f49dda1fc2 * q.c5 - 0x4f0c9a8c8f4bf8 * q.c6
    - 0xa5210383502249 * q.c7 - 0x561468f6c0d651 * q.c8 + 0x2fed96ba1db7f37 * q.c9 - 0xb961f8212a420b * q.c10
  }

  function Mid3(q: Vec): int {
    0x2967b45f819bc34 * q.c11 + 0xf42d9e0fdf6e41 * q.c12 + 0x1994ea1932f908a * q.c13 + 0x43caac43bfe99f * q.c14
    - 0x6a555d949af613 * q.c15 + 0x6a555d949af613 * q.c16 - 0xb961f8212a420b * q.c17 + 0x41d37458e6b68f * q.c18
    - 0x123b755b5c5381e * q.c19 - 0x3acba5eeb52c36 * q.c20
  }

  function High3(q: Vec): int {
    -0xcda2ecbf0461cd * q.c21 - 0x7e9652327515d5 * q.c22 + 0x15e82fba47a6454 * q.c23 - 0x6a555d949af613 * q.c24
    - 0x6a555d949af613 * q.c25 - 0x14a420706a04492 * q.c26 + 0x2f89b7a5e5c9dd * q.c27 - 0x561468f6c0d651 * q.c28
    - 0x2823a515a3f9c72 * q.c29
  }

  lemma Group3(t: int, q: Vec)
    requires Divided(t, q)
    ensures Value3(Digit9(t, q), Digit10(t, q), Digit11(t, q))
         == Low3(q) + Mid3(q) + High3(q)
  {
    hide Divided;
  }

  function Low4(q: Vec): int {
    0x1679b2d3a80e4d35 + 0x7180cfd8ae0759 * q.c0 + 0x870740b59c7162 * q.c1 - 0xadd6d9f19c1c12 * q.c2
    - 0x11f57a9ca4a236b * q.c3 + 0x134de1aa7388d74 * q.c4 - 0x12685400c2a4763 * q.c5 - 0x4383a05ace38b1 * q.c6
    + 0x162db4a25185c1c * q.c7 + 0x4383a05ace38b1 * q.c8 + 0xf15a7a4c6a54c3 * q.c9 - 0x11f57a9ca4a236b * q.c10
  }

  function Mid4(q: Vec): int {
    0x106e0eb2958becc * q.c11 - 0xf15a7a4c6a54c3 * q.c12 + 0x6a533996cde361 * q.c13 - 0x51dc7af5dc7ec2 * q.c14
    + 0x186ba959d150c36 * q.c15 - 0xadd6d9f19c1c12 * q.c16 + 0x2dfd2f7ddfcea8 * q.c17 + 0x1e2b4f498d4a986 * q.c18
    + 0x12685400c2a4763 * q.c19 + 0xc35d4ace8a861b * q.c20
  }

  function High4(q: Vec): int {
    -0xf15a7a4c6a54c3 * q.c21 + 0x4383a05ace38b1 * q.c22 + 0x162db4a25185c1c * q.c23 + 0x1c6033f62b81d64 * q.c24
    - 0x2dfd2f7ddfcea8 * q.c25 - 0x134de1aa7388d74 * q.c26 + 0x25435c47182b0df * q.c27 + 0x3c560a18ee14b9 * q.c28
    - 0x134de1aa7388d74 * q.c29 + 0xf15a7a4c6a54c3 * q.c30
  }

  lemma Group4(t: int, q: Vec)
    requires Divided(t, q)
    ensures Value4(Digit12(t, q), Digit13(t, q), Digit14(t, q))
         == Low4(q) + Mid4(q) + High4(q)
  {
    hide Divided;
  }

  function Low5(q: Vec): int {
    0x255cd3072e1ce29f - 0xfe15c813151841 * q.c0 + 0xdf634c2de45c8 * q.c1 + 0x2fa4158393f48c3 * q.c2
    - 0x10c0bfcd5f35e09 * q.c3 + 0x2e165bd55e0acbd * q.c4 - 0xe2295e8d588cb1 * q.c5 - 0xf01f935036d279 * q.c6
    - 0x1bc7e259c8eb2ae * q.c7 + 0x34c804691b2796 * q.c8 - 0xcc5e924c57e035 * q.c9 + 0x39fce1adf5a472a * q.c10
  }

  function Mid5(q: Vec): int {
    0xfe15c813151841 * q.c11 + 0xbe685d89799a6d * q.c12 - 0x124e797b951fa0f * q.c13 - 0x1ca745a5f6cf876 * q.c14
    + 0xd743f86cd83673 * q.c15 - 0x26d1cfa63ce1ce * q.c16 - 0x11a023198d1a3d1 * q.c17 + 0x1ca745a5f6cf876 * q.c18
    + 0x1bc7e259c8eb2ae * q.c19 + 0x1fc2b90262a3082 * q.c20
  }

  function High5(q: Vec): int {
    0x1d559c07fed4eb4 * q.c21 - 0x124e797b951fa0f * q.c22 + 0x1ae87f0d9b06ce6 * q.c23 + 0x1fc2b90262a3082 * q.c24
    + 0x2c88a22728210b7 * q.c25 + 0xe53a2d2fb67c3b * q.c27 - 0x293c21e0966e921 * q.c28 - 0x2a1b852cc452ee9 * q.c29
    + 0xd743f86cd83673 * q.c30
  }

  lemma Group5(t: int, q: Vec)
    requires Divided(t, q)
    ensures Value5(Digit15(t, q), Digit16(t, q), Digit17(t, q))
         == Low5(q) + Mid5(q) + High5(q)
  {
    hide Divided;
  }

  function Low6(q: Vec): int {
    0xb99bebaf123274d - 0xfef220f3648569 * q.c0 - 0xbad6fd93ceb16b * q.c1 + 0xbad6fd93ceb16b * q.c2
    - 0x3fbc883cd9215a4 * q.c3 + 0xfef220f3648569 * q.c4 + 0xe792dfbc062a3c * q.c5 + 0xe792dfbc062a3c * q.c6
    + 0x175f41375e5b2d * q.c7 + 0xe792dfbc062a3c * q.c8 - 0x274a01c1b01e83f * q.c9 - 0x12bae031b9bfe3a * q.c10
  }

  function Mid6(q: Vec): int {
    -0x1a269dd4fd4dba7 * q.c12 - 0x2cbbe2283778d1 * q.c13 + 0x274a01c1b01e83f * q.c14 - 0x22aa0240f0083a3 * q.c15
    - 0x2fcd662da2d903b * q.c16 - 0x12bae031b9bfe3a * q.c17 - 0xa377bc5c70563e * q.c18 - 0x2575c063737fc74 * q.c19
    - 0x76bbda3438dd6d * q.c20
  }

  function High6(q: Vec): int {
    0x148f218ff65ea05 * q.c21 - 0xbad6fd93ceb16b * q.c22 - 0x12bae031b9bfe3a * q.c23 - 0x2cbbe2283778d1 * q.c24
    - 0x5977c4506ef1a2 * q.c25 + 0x148f218ff65ea05 * q.c26 - 0x615f39435fbfc9 * q.c27 - 0x2d01a80b1f6176a * q.c28
    - 0x8e1b1b6b97389a * q.c29 - 0x15869e543d3770b * q.c30
  }

  lemma Group6(t: int, q: Vec)
    requires Divided(t, q)
    ensures Value6(Digit18(t, q), Digit19(t, q), Digit20(t, q))
         == Low6(q) + Mid6(q) + High6(q)
  {
    hide Divided;
  }

  function Low7(q: Vec): int {
    0x7456a2503de8d4a - 0x1e375092a5ac79 * q.c0 - 0x476e92f84119b * q.c1 - 0x476e92f84119b * q.c3
    + 0x5ddaf9c39c9eaa * q.c4 + 0x22ae39c229be14 * q.c5 + 0xb880eb7b8da415 * q.c6 + 0x1165be53f2a42bf * q.c7
    - 0xd5765aea5ad832 * q.c8 + 0xf3adab7d0084ab * q.c9 + 0x1e375092a5ac79 * q.c10
  }

  function Mid7(q: Vec): int {
    0x779b6126be3988 * q.c11 - 0x3fa3a930f6f231 * q.c12 + 0x15497e339d8943 * q.c13 + 0x54ed2764947b74 * q.c14
    - 0xf82494ac849646 * q.c15 - 0xdb2f253db76229 * q.c16 + 0x95d2b1b963e601 * q.c17 + 0x54ed2764947b74 * q.c19
    - 0x7c124a56424b23 * q.c20
  }

  function High7(q: Vec): int {
    0x5ddaf9c39c9eaa * q.c21 - 0x476e92f84119b * q.c22 - 0xdb2f253db76229 * q.c23 - 0x15497e339d8943 * q.c24
    + 0x22ae39c229be14 * q.c25 + 0x476e92f84119b * q.c26 + 0xfc9b7ddc08a7e1 * q.c27 - 0x95d2b1b963e601 * q.c28
    - 0x476e92f84119b * q.c29 + 0x272522f1adcfaf * q.c30
  }

  lemma Group7(t: int, q: Vec)
    requires Divided(t, q)
    ensures Value7(Digit21(t, q), Digit22(t, q), Digit23(t, q))
         == Low7(q) + Mid7(q) + High7(q)
  {
    hide Divided;
  }

  function Low8(q: Vec): int {
    0x12d635ee34ea8432 - 0xa7a93bbd69ea61 * q.c0 - 0xcef182daf942d3 * q.c1 - 0x29d5a3706125be5 * q.c2
    + 0x11d82111617f3b7 * q.c3 - 0x8f666482d6a0ab * q.c4 - 0xe7345a158c8c89 * q.c5 - 0x3450372c37c4646 * q.c6
    + 0x25dcf18adefb9bd * q.c7 - 0x10e7ca1331be4fb * q.c8 - 0x3f8b1e5822a228 * q.c9 - 0x1b625dcf085cf5c * q.c10
  }

  function Mid8(q: Vec): int {
    -0x35408e2a6785502 * q.c11 + 0x23686d19060614b * q.c12 + 0xff7731501fd63f * q.c13 + 0xcef182daf942d3 * q.c14
    + 0x2748471d8f5872 * q.c15 - 0xa7a93bbd69ea61 * q.c16 + 0x18edd95d2f676ea * q.c17 - 0xcef182daf942d3 * q.c18
    - 0x19de305b5f285a6 * q.c19 - 0x1b625dcf085cf5c * q.c20
  }

  function High8(q: Vec): int {
    0x18edd95d2f676ea * q.c21 + 0x10e7ca1331be4fb * q.c22 - 0x14f52777ad3d4c2 * q.c23 - 0x167954eb5671e78 * q.c24
    - 0x3f8b1e5822a228 * q.c25 - 0xbfec12f7fd3417 * q.c26 + 0xa7a93bbd69ea61 * q.c27 - 0xbfec12f7fd3417 * q.c28
    - 0x25dcf18adefb9bd * q.c29 - 0x21e43fa55cd1795 * q.c30
  }

  lemma Group8(t: int, q: Vec)
    requires Divided(t, q)
    ensures Value8(Digit24(t, q), Digit25(t, q), Digit26(t, q))
         == Low8(q) + Mid8(q) + High8(q)
  {
    hide Divided;
  }

  function Low9(q: Vec): int {
    0xd5d135a657b1484 + 0x56868f8f5f3026 * q.c2 + 0xc104a22d31fcf1 * q.c3 + 0x6a7e129dd2cccb * q.c4
    - 0x12b82b4cb04c9bc * q.c6 + 0xd4fc253ba59996 * q.c7 + 0x19600c768d79687 * q.c8 - 0x19600c768d79687 * q.c10
  }

  function Mid9(q: Vec): int {
    -0xc104a22d31fcf1 * q.c11 - 0xc104a22d31fcf1 * q.c12 - 0x12b82b4cb04c9bc * q.c13 + 0xc104a22d31fcf1 * q.c15
    + 0x6a7e129dd2cccb * q.c16 + 0x56868f8f5f3026 * q.c17 + 0xd4fc253ba59996 * q.c18 + 0xd4fc253ba59996 * q.c19
    - 0x1ec8756f836c6ad * q.c20
  }

  function High9(q: Vec): int {
    -0x6a7e129dd2cccb * q.c21 + 0x12b82b4cb04c9bc * q.c22 + 0x56868f8f5f3026 * q.c23 + 0x1ec8756f836c6ad * q.c24
    - 0x12b82b4cb04c9bc * q.c25 + 0x56868f8f5f3026 * q.c26 + 0x12b82b4cb04c9bc * q.c27 - 0x6a7e129dd2cccb * q.c28
    + 0xd4fc253ba59996 * q.c29 - 0x2430de68795f6d3 * q.c30
  }

  lemma Group9(t: int, q: Vec)
    requires Divided(t, q)
    ensures Value9(Digit27(t, q), Digit28(t, q))
         == Low9(q) + Mid9(q) + High9(q)
  {
    hide Divided;
  }

  function Low10(q: Vec): int {
    0x100380f200681637 - 0xf7d092cbf0cd83 * q.c0 - 0xe4ec708a2d3599 * q.c1 + 0xe4ec708a2d3599 * q.c3
    - 0x1dcbd03561e031c * q.c4 - 0xe4ec708a2d3599 * q.c5 - 0xe4ec708a2d3599 * q.c6 - 0x3b97a06ac3c0638 * q.c7
    + 0xf7d092cbf0cd83 * q.c8 - 0xf7d092cbf0cd83 * q.c9
  }

  function Mid10(q: Vec): int {
    0xe4ec708a2d3599 * q.c12 - 0xf7d092cbf0cd83 * q.c13 + 0xf7d092cbf0cd83 * q.c14 + 0xf7d092cbf0cd83 * q.c15
    - 0x2d48d96220ed09f * q.c16 + 0x1efa12597e19b06 * q.c17 - 0xf7d092cbf0cd83 * q.c18 - 0xf7d092cbf0cd83 * q.c19
    - 0x1dcbd03561e031c * q.c20
  }

  function High10(q: Vec): int {
    -0xf7d092cbf0cd83 * q.c21 + 0x1dcbd03561e031c * q.c22 + 0x2aec5519e87a0cb * q.c23 - 0xf7d092cbf0cd83 * q.c24
    + 0x2e771b863d26889 * q.c25 + 0x1efa12597e19b06 * q.c26 + 0x1dcbd03561e031c * q.c29 - 0xf7d092cbf0cd83 * q.c30
  }

  lemma Group10(t: int, q: Vec)
    requires Divided(t, q)
    ensures Value10(Digit29(t, q), Digit30(t, q))
         == Low10(q) + Mid10(q) + High10(q)
  {
    hide Divided;
  }

  function CarriesLow(q: Vec): int {
    -2 * q.c0 - 3 * q.c1 - 3 * q.c2 + 3 * q.c3 - 2 * q.c4 - q.c5 + 4 * q.c6 + q.c7 - 4 * q.c8 + 2 * q.c9 + 4 * q.c10
  }

  lemma AllLow(t: int, q: Vec)
    ensures Low0(t, q) + Low1(q) + Low2(q) + Low3(q) + Low4(q) + Low5(q) + Low6(q) + Low7(q) + Low8(q) + Low9(q)
      + Low10(q)
         == t + 0xd1821be2389b780f - 0x100_0000_0000_0000 * CarriesLow(q)
  {
  }

  function CarriesMid(q: Vec): int {
    -q.c11 - 2 * q.c12 - 6 * q.c14 + 2 * q.c15 + 6 * q.c16 - 4 * q.c17 - 3 * q.c18 + 4 * q.c19
  }

  lemma AllMid(q: Vec)
    ensures Mid0(q) + Mid1(q) + Mid2(q) + Mid3(q) + Mid4(q) + Mid5(q) + Mid6(q) + Mid7(q) + Mid8(q) + Mid9(q)
      + Mid10(q)
         == -0x100_0000_0000_0000 * CarriesMid(q)
  {
  }

  function CarriesHigh(q: Vec): int {
    q.c21 - 4 * q.c22 - 5 * q.c23 - q.c24 - 4 * q.c25 - q.c26 - 9 * q.c27 + 9 * q.c28 + 6 * q.c29 + 3 * q.c30
  }

  lemma AllHigh(q: Vec)
    ensures High0(q) + High1(q) + High2(q) + High3(q) + High4(q) + High5(q) + High6(q) + High7(q) + High8(q)
      + High9(q) + High10(q)
         == -0x100_0000_0000_0000 * CarriesHigh(q)
  {
  }

  function Digits(t: int, q: Vec): Vec
    requires Divided(t, q)
  {
    Vec(Digit0(t, q), Digit1(t, q), Digit2(t, q), Digit3(t, q), Digit4(t, q), Digit5(t, q), Digit6(t, q),
        Digit7(t, q), Digit8(t, q), Digit9(t, q), Digit10(t, q), Digit11(t, q), Digit12(t, q), Digit13(t, q),
        Digit14(t, q), Digit15(t, q), Digit16(t, q), Digit17(t, q), Digit18(t, q), Digit19(t, q), Digit20(t, q),
        Digit21(t, q), Digit22(t, q), Digit23(t, q), Digit24(t, q), Digit25(t, q), Digit26(t, q), Digit27(t, q),
        Digit28(t, q), Digit29(t, q), Digit30(t, q))
  }

  lemma DigitsAre(t: int, q: Vec)
    requires Divided(t, q)
    ensures Digits(t, q).c0 == Digit0(t, q) && Digits(t, q).c1 == Digit1(t, q) && Digits(t, q).c2 == Digit2(t, q)
    ensures Digits(t, q).c3 == Digit3(t, q) && Digits(t, q).c4 == Digit4(t, q) && Digits(t, q).c5 == Digit5(t, q)
    ensures Digits(t, q).c6 == Digit6(t, q) && Digits(t, q).c7 == Digit7(t, q) && Digits(t, q).c8 == Digit8(t, q)
    ensures Digits(t, q).c9 == Digit9(t, q) && Digits(t, q).c10 == Digit10(t, q)
    ensures Digits(t, q).c11 == Digit11(t, q) && Digits(t, q).c12 == Digit12(t, q)
    ensures Digits(t, q).c13 == Digit13(t, q) && Digits(t, q).c14 == Digit14(t, q)
    ensures Digits(t, q).c15 == Digit15(t, q) && Digits(t, q).c16 == Digit16(t, q)
    ensures Digits(t, q).c17 == Digit17(t, q) && Digits(t, q).c18 == Digit18(t, q)
    ensures Digits(t, q).c19 == Digit19(t, q) && Digits(t, q).c20 == Digit20(t, q)
    ensures Digits(t, q).c21 == Digit21(t, q) && Digits(t, q).c22 == Digit22(t, q)
    ensures Digits(t, q).c23 == Digit23(t, q) && Digits(t, q).c24 == Digit24(t, q)
    ensures Digits(t, q).c25 == Digit25(t, q) && Digits(t, q).c26 == Digit26(t, q)
    ensures Digits(t, q).c27 == Digit27(t, q) && Digits(t, q).c28 == Digit28(t, q)
    ensures Digits(t, q).c29 == Digit29(t, q) && Digits(t, q).c30 == Digit30(t, q)
  {
    hide Divided;
    hide Digit0, Digit1, Digit2, Digit3, Digit4, Digit5, Digit6, Digit7, Digit8, Digit9, Digit10, Digit11, Digit12,
      Digit13, Digit14, Digit15, Digit16, Digit17, Digit18, Digit19, Digit20, Digit21, Digit22, Digit23, Digit24,
      Digit25, Digit26, Digit27, Digit28, Digit29, Digit30;
  }

  lemma DigitsHaveTheValue(t: int, q: Vec) returns (z: int)
    requires Divided(t, q)
    ensures Value(Digits(t, q)) == t + 0xd1821be2389b780f + 0x100_0000_0000_0000 * z
  {
    hide *;
    Group0(t, q);
    Group1(t, q);
    Group2(t, q);
    Group3(t, q);
    Group4(t, q);
    Group5(t, q);
    Group6(t, q);
    Group7(t, q);
    Group8(t, q);
    Group9(t, q);
    Group10(t, q);
    AllLow(t, q);
    AllMid(q);
    AllHigh(q);
    DigitsAre(t, q);
    ValueIs(Digits(t, q));
    z := -CarriesLow(q) - CarriesMid(q) - CarriesHigh(q);
  }

  lemma DigitsAreSmall(t: int, q: Vec)
    requires Divided(t, q)
    ensures Small(Digits(t, q))
  {
    hide *;
    DigitsAre(t, q);
    SmallIs(Digits(t, q));
  }

  lemma SmallIs(y: Vec)
    requires 0 <= y.c0 < 26 && 0 <= y.c1 < 26 && 0 <= y.c2 < 26 && 0 <= y.c3 < 26 && 0 <= y.c4 < 26
    requires 0 <= y.c5 < 26 && 0 <= y.c6 < 26 && 0 <= y.c7 < 26 && 0 <= y.c8 < 26 && 0 <= y.c9 < 26
    requires 0 <= y.c10 < 26 && 0 <= y.c11 < 26 && 0 <= y.c12 < 26 && 0 <= y.c13 < 26 && 0 <= y.c14 < 26
    requires 0 <= y.c15 < 26 && 0 <= y.c16 < 26 && 0 <= y.c17 < 26 && 0 <= y.c18 < 26 && 0 <= y.c19 < 26
    requires 0 <= y.c20 < 26 && 0 <= y.c21 < 26 && 0 <= y.c22 < 26 && 0 <= y.c23 < 26 && 0 <= y.c24 < 26
    requires 0 <= y.c25 < 26 && 0 <= y.c26 < 26 && 0 <= y.c27 < 26 && 0 <= y.c28 < 26 && 0 <= y.c29 < 26
    requires 0 <= y.c30 < 26
    ensures Small(y)
  {
  }

  /** Every number is such a value, up to a fixed one and modulo 2^56. */
  lemma AllValues(t: int) returns (y: Vec, z: int)
    ensures Small(y) && Value(y) == t + 0xd1821be2389b780f + 0x100_0000_0000_0000 * z
  {
    hide *;
    var q := Divide(t);
    y := Digits(t, q);
    z := DigitsHaveTheValue(t, q);
    DigitsAreSmall(t, q);
  }

  // ----- Powers and sums

  function At(y: Vec, k: nat): int {
    match k
    case 0 => y.c0 case 1 => y.c1 case 2 => y.c2 case 3 => y.c3 case 4 => y.c4 case 5 => y.c5 case 6 => y.c6
    case 7 => y.c7 case 8 => y.c8 case 9 => y.c9 case 10 => y.c10 case 11 => y.c11 case 12 => y.c12 case 13 => y.c13
    case 14 => y.c14 case 15 => y.c15 case 16 => y.c16 case 17 => y.c17 case 18 => y.c18 case 19 => y.c19
    case 20 => y.c20 case 21 => y.c21 case 22 => y.c22 case 23 => y.c23 case 24 => y.c24 case 25 => y.c25
    case 26 => y.c26 case 27 => y.c27 case 28 => y.c28 case 29 => y.c29 case _ => y.c30
  }

  lemma SmallAt(y: Vec, k: nat)
    requires Small(y)
    ensures 0 <= At(y, k) < 26
  {
  }

  /** The powers of the prime, modulo 2^56. */
  function Power(k: nat): int { if k == 0 then 1 else 0x100000001b3 * Power(k - 1) % M }

  /** What a low byte c adds to the bits above it when it is multiplied by the prime. */
  function Gain(c: int): int { c * 0x1_0000_0000 + 435 * c / 256 }

  lemma GainOf(v: int)
    requires 0 <= v < 26
    ensures Gain(1 + 10 * v) == 0x100000001 + 0xa00000011 * v
  {
    assert 435 * (1 + 10 * v) == 256 * (1 + 17 * v) + (179 - 2 * v);
  }

  /** What the low bytes 1 + 10 * y add, the last n of them. */
  function Sum(y: Vec, n: nat): int {
    if n == 0 then 0 else Sum(y, n - 1) + Power(n - 1) * Gain(1 + 10 * At(y, n - 1))
  }

  lemma Next(y: Vec, k: nat, v: int, w: int)
    requires Power(k) == w && At(y, k) == v && 0 <= v < 26
    ensures Sum(y, k + 1) == Sum(y, k) + w * (0x100000001 + 0xa00000011 * v)
    ensures Power(k + 1) == 0x100000001b3 * w % 0x100_0000_0000_0000
  {
    hide At;
    hide Gain;
    GainOf(v);
  }

  lemma Sum0(y: Vec)
    requires Small(y) && Power(0) == 1
    ensures Power(9) == 0x6a555d949af613
    ensures Sum(y, 9) == Sum(y, 0) + 0x43a17f9275f05aa2324edb1 + 0xa00000011
         * (Value0(y.c0, y.c1, y.c2) + Value1(y.c3, y.c4, y.c5) + Value2(y.c6, y.c7, y.c8))
  {
    Places0(y);
    hide Sum, Power, At;
    Next(y, 0, y.c0, 1); Next(y, 1, y.c1, 0x100000001b3); Next(y, 2, y.c2, 0x366000002e329);
    Next(y, 3, y.c3, 0xa97b0004e7feab); Next(y, 4, y.c4, 0xfaac085635bc91); Next(y, 5, y.c5, 0xaee32a7d4f6a63);
    Next(y, 6, y.c6, 0x966432edf1c639); Next(y, 7, y.c7, 0x527b8a51d3d2db); Next(y, 8, y.c8, 0xfac7090aef4a21);
  }

  lemma Places0(y: Vec)
    ensures At(y, 0) == y.c0 && At(y, 1) == y.c1 && At(y, 2) == y.c2 && At(y, 3) == y.c3 && At(y, 4) == y.c4
    ensures At(y, 5) == y.c5 && At(y, 6) == y.c6 && At(y, 7) == y.c7 && At(y, 8) == y.c8
  {
  }

  lemma Sum1(y: Vec)
    requires Small(y) && Power(9) == 0x6a555d949af613
    ensures Power(18) == 0xfef220f3648569
    ensures Sum(y, 18) == Sum(y, 9) + 0x629cb316ec98554689fba23 + 0xa00000011
         * (Value3(y.c9, y.c10, y.c11) + Value4(y.c12, y.c13, y.c14) + Value5(y.c15, y.c16, y.c17))
  {
    Places1(y);
    hide Sum, Power, At;
    Next(y, 9, y.c9, 0x6a555d949af613); Next(y, 10, y.c10, 0xa5210383502249); Next(y, 11, y.c11, 0xb961f8212a420b);
    Next(y, 12, y.c12, 0x4383a05ace38b1); Next(y, 13, y.c13, 0xf15a7a4c6a54c3); Next(y, 14, y.c14, 0x7180cfd8ae0759);
    Next(y, 15, y.c15, 0xe53a2d2fb67c3b); Next(y, 16, y.c16, 0xfe15c813151841); Next(y, 17, y.c17, 0xd743f86cd83673);
  }

  lemma Places1(y: Vec)
    ensures At(y, 9) == y.c9 && At(y, 10) == y.c10 && At(y, 11) == y.c11 && At(y, 12) == y.c12
    ensures At(y, 13) == y.c13 && At(y, 14) == y.c14 && At(y, 15) == y.c15 && At(y, 16) == y.c16 && At(y, 17) == y.c17
  {
  }

  lemma Sum2(y: Vec)
    requires Small(y) && Power(18) == 0xfef220f3648569
    ensures Power(27) == 0x6a7e129dd2cccb
    ensures Sum(y, 27) == Sum(y, 18) + 0x4e3149d7aa9873675c67299 + 0xa00000011
         * (Value6(y.c18, y.c19, y.c20) + Value7(y.c21, y.c22, y.c23) + Value8(y.c24, y.c25, y.c26))
  {
    Places2(y);
    hide Sum, Power, At;
    Next(y, 18, y.c18, 0xfef220f3648569); Next(y, 19, y.c19, 0xbad6fd93ceb16b); Next(y, 20, y.c20, 0x2cbbe2283778d1);
    Next(y, 21, y.c21, 0x7c124a56424b23); Next(y, 22, y.c22, 0x1e375092a5ac79); Next(y, 23, y.c23, 0x476e92f84119b);
    Next(y, 24, y.c24, 0xa7a93bbd69ea61); Next(y, 25, y.c25, 0xcef182daf942d3); Next(y, 26, y.c26, 0xe7345a158c8c89);
  }

  lemma Places2(y: Vec)
    ensures At(y, 18) == y.c18 && At(y, 19) == y.c19 && At(y, 20) == y.c20 && At(y, 21) == y.c21
    ensures At(y, 22) == y.c22 && At(y, 23) == y.c23 && At(y, 24) == y.c24 && At(y, 25) == y.c25 && At(y, 26) == y.c26
  {
  }

  lemma Sum3(y: Vec)
    requires Small(y) && Power(27) == 0x6a7e129dd2cccb
    ensures Power(31) == 0x335c3acad212fb
    ensures Sum(y, 31) == Sum(y, 27) + 0x3083fb8242b0c902122ccd8 + 0xa00000011
         * (Value9(y.c27, y.c28) + Value10(y.c29, y.c30))
  {
    Places3(y);
    hide Sum, Power, At;
    Next(y, 27, y.c27, 0x6a7e129dd2cccb); Next(y, 28, y.c28, 0xc104a22d31fcf1); Next(y, 29, y.c29, 0xf7d092cbf0cd83);
    Next(y, 30, y.c30, 0xe4ec708a2d3599);
  }

  lemma Places3(y: Vec)
    ensures At(y, 27) == y.c27 && At(y, 28) == y.c28 && At(y, 29) == y.c29 && At(y, 30) == y.c30
  {
  }

  lemma SumIs(y: Vec)
    requires Small(y)
    ensures Sum(y, 31) == 0x124f378034fd1ec522ade745 + 0xa00000011 * Value(y)
  {
    hide *;
    StartingValues(y);
    Sum0(y);
    Sum1(y);
    Sum2(y);
    Sum3(y);
    ValueIs(y);
  }

  lemma StartingValues(y: Vec)
    ensures Power(0) == 1 && Sum(y, 0) == 0
  {
  }
}
