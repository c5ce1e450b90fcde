/** Unsigned machine words as bit strings, least significant bit first, and the C operators on them. */
module Words {

  type Word = w: seq<bool> | |w| == 64 witness Falses(64)

  function Falses(k: nat): (s: seq<bool>)
    ensures |s| == k && forall i :: 0 <= i < k ==> !s[i]
  {
    seq(k, i => false)
  }

  function Xor(a: Word, b: Word): Word { seq(64, z requires 0 <= z < 64 => a[z] != b[z]) }

  function And(a: Word, b: Word): Word { seq(64, z requires 0 <= z < 64 => a[z] && b[z]) }

  function Or(a: Word, b: Word): Word { seq(64, z requires 0 <= z < 64 => a[z] || b[z]) }

  function Not(a: Word): Word { seq(64, z requires 0 <= z < 64 => !a[z]) }

  /** a << n */
  function Shl(a: Word, n: nat): Word
    requires n < 64
  {
    Falses(n) + a[..64 - n]
  }

  /** a >> n */
  function Shr(a: Word, n: nat): Word
    requires n < 64
  {
    a[n..] + Falses(n)
  }

  /** rotl64; shifting by 64 would be undefined, so n is never 0. */
  function Rotl(a: Word, n: nat): Word
    requires 0 < n < 64
  {
    Or(Shl(a, n), Shr(a, 64 - n))
  }

  /** Bit z of the rotated word is the bit n places lower, around the end. */
  lemma RotlMovesBits(a: Word, n: nat, z: nat)
    requires 0 < n < 64 && z < 64
    ensures Rotl(a, n)[z] == a[(z + 64 - n) % 64]
  {
    assert Shl(a, n)[z] == if z < n then false else a[z - n];
    assert Shr(a, 64 - n)[z] == if z < n then a[64 - n + z] else false;
  }

  // ----- Numbers

  /** The k low-order bits of n. */
  function BitsOf(n: nat, k: nat): (s: seq<bool>)
    ensures |s| == k
  {
    if k == 0 then [] else [n % 2 == 1] + BitsOf(n / 2, k - 1)
  }

  function NatOf(bits: seq<bool>): nat {
    if bits == [] then 0 else (if bits[0] then 1 else 0) + 2 * NatOf(bits[1..])
  }

  lemma {:induction false} BitsRoundTrip(bits: seq<bool>)
    ensures BitsOf(NatOf(bits), |bits|) == bits
  {
    if bits != [] {
      BitsRoundTrip(bits[1..]);
      assert NatOf(bits) / 2 == NatOf(bits[1..]);
      assert bits == [bits[0]] + bits[1..];
    }
  }

  lemma OctetBound(bits: seq<bool>)
    requires |bits| == 8
    ensures NatOf(bits) < 256
  {
    hide NatOf;
    NatBound(bits, 8);
  }

  lemma {:induction false} NatBound(bits: seq<bool>, k: nat)
    requires |bits| == k
    ensures NatOf(bits) < Doubled(k)
  {
    if k > 0 {
      NatBound(bits[1..], k - 1);
    }
  }

  function Doubled(k: nat): nat { if k == 0 then 1 else 2 * Doubled(k - 1) }
}
