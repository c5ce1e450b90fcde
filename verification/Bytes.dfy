/** Fixed-width machine integers, byte strings and their endian encodings. */
module Bytes {

  const TWO_TO_THE_64: int := 0x1_0000_0000_0000_0000

  type byte = x: int | 0 <= x < 256
  type uint32 = x: int | 0 <= x < 0x1_0000_0000
  type uint64 = x: int | 0 <= x < TWO_TO_THE_64
  type int64 = x: int | -0x8000_0000_0000_0000 <= x < 0x8000_0000_0000_0000

  type Bytes32 = s: seq<byte> | |s| == 32 witness Zeros(32)
  type Bytes64 = s: seq<byte> | |s| == 64 witness Zeros(64)
  datatype Hash = Hash(bytes: Bytes32)
  datatype Target = Target(bytes: Bytes32)

  const ZERO_HASH: Hash := Hash(Zeros(32))
  const ZERO_TARGET: Target := Target(Zeros(32))

  function Zeros(k: nat): (s: seq<byte>)
    ensures |s| == k && forall i :: 0 <= i < k ==> s[i] == 0
  {
    if k == 0 then [] else Zeros(k - 1) + [0]
  }

  datatype Option<+T> = None | Some(value: T)

  datatype Result<+T, +E> = Ok(value: T) | Err(error: E)

  /** The library hash functions; the model never looks inside them. */
  datatype Crypto = Crypto(
    sha256: seq<byte> -> Bytes32,
    sha3_512: seq<byte> -> Bytes64,
    keccak512: seq<byte> -> Bytes64,
    blake3_256: seq<byte> -> Bytes32,
    blake3Xof64: seq<byte> -> Bytes64)

  /** 256 to the power k. */
  function Pow256(k: nat): (p: nat)
    ensures p >= 1
  {
    if k == 0 then 1 else 256 * Pow256(k - 1)
  }

  lemma Pow256Values()
    ensures Pow256(4) == 0x1_0000_0000
    ensures Pow256(8) == TWO_TO_THE_64
    ensures Pow256(32) == 0x1_00000000_00000000_00000000_00000000_00000000_00000000_00000000_00000000
  {
    assert Pow256(4) == 0x1_0000_0000;
    assert Pow256(8) == TWO_TO_THE_64;
    assert Pow256(12) == 0x1_00000000_00000000_00000000;
    assert Pow256(16) == 0x1_00000000_00000000_00000000_00000000;
    assert Pow256(20) == 0x1_00000000_00000000_00000000_00000000_00000000;
    assert Pow256(24) == 0x1_00000000_00000000_00000000_00000000_00000000_00000000;
    assert Pow256(28) == 0x1_00000000_00000000_00000000_00000000_00000000_00000000_00000000;
  }

  /** The number a big-endian byte string stands for. */
  function BigEndianValue(s: seq<byte>): nat {
    if s == [] then 0 else 256 * BigEndianValue(s[..|s| - 1]) + s[|s| - 1]
  }

  /** The k low-order bytes of n, most significant first. */
  function BigEndian(n: nat, k: nat): (s: seq<byte>)
    ensures |s| == k
  {
    if k == 0 then [] else BigEndian(n / 256, k - 1) + [n % 256]
  }

  /** The k low-order bytes of n, least significant first. */
  function LittleEndian(n: nat, k: nat): (s: seq<byte>)
    ensures |s| == k
  {
    if k == 0 then [] else [n % 256] + LittleEndian(n / 256, k - 1)
  }

  /** The number a little-endian byte string stands for. */
  function LittleEndianValue(s: seq<byte>): nat {
    if s == [] then 0 else s[0] + 256 * LittleEndianValue(s[1..])
  }

  lemma {:induction false} BigEndianBound(s: seq<byte>)
    ensures BigEndianValue(s) < Pow256(|s|)
  {
    if s != [] {
      BigEndianBound(s[..|s| - 1]);
    }
  }

  lemma {:induction false} BigEndianRoundTrip(n: nat, k: nat)
    requires n < Pow256(k)
    ensures BigEndianValue(BigEndian(n, k)) == n
  {
    if k > 0 {
      BigEndianRoundTrip(n / 256, k - 1);
      var s := BigEndian(n, k);
      assert s[..|s| - 1] == BigEndian(n / 256, k - 1);
    }
  }

  lemma {:induction false} LittleEndianRoundTrip(n: nat, k: nat)
    requires n < Pow256(k)
    ensures LittleEndianValue(LittleEndian(n, k)) == n
  {
    if k > 0 {
      LittleEndianRoundTrip(n / 256, k - 1);
      var s := LittleEndian(n, k);
      assert s[1..] == LittleEndian(n / 256, k - 1);
    }
  }

  /** A little-endian value splits at any point: what comes later counts for more. */
  lemma {:induction false} LittleEndianConcat(a: seq<byte>, b: seq<byte>)
    ensures LittleEndianValue(a + b) == LittleEndianValue(a) + LittleEndianValue(b) * Pow256(|a|)
  {
    if a == [] {
      assert a + b == b;
    } else {
      LittleEndianConcat(a[1..], b);
      assert (a + b)[1..] == a[1..] + b;
      ShiftByte(LittleEndianValue(b), |a| - 1);
    }
  }

  lemma {:induction false} LittleEndianInjective(a: seq<byte>, b: seq<byte>)
    requires |a| == |b| && LittleEndianValue(a) == LittleEndianValue(b)
    ensures a == b
  {
    if a != [] {
      assert a[0] == LittleEndianValue(a) % 256 == b[0];
      LittleEndianInjective(a[1..], b[1..]);
      assert a == [a[0]] + a[1..] && b == [b[0]] + b[1..];
    }
  }

  /** The eight or four bytes of a machine word, and no other bytes of that length, stand for its value. */
  lemma WordBytes(n: nat, k: nat)
    requires (k == 4 && n < 0x1_0000_0000) || (k == 8 && n < TWO_TO_THE_64)
    ensures LittleEndianValue(LittleEndian(n, k)) == n && BigEndianValue(BigEndian(n, k)) == n
    ensures forall s: seq<byte> :: |s| == k && LittleEndianValue(s) == n ==> s == LittleEndian(n, k)
  {
    Pow256Values();
    LittleEndianRoundTrip(n, k);
    BigEndianRoundTrip(n, k);
    forall s: seq<byte> | |s| == k && LittleEndianValue(s) == n
      ensures s == LittleEndian(n, k)
    {
      LittleEndianInjective(s, LittleEndian(n, k));
    }
  }

  /** Equal-length byte strings compare as the numbers they encode. */
  lemma {:induction false} BigEndianInjective(a: seq<byte>, b: seq<byte>)
    requires |a| == |b| && BigEndianValue(a) == BigEndianValue(b)
    ensures a == b
  {
    if a != [] {
      var n := |a| - 1;
      assert a[n] == BigEndianValue(a) % 256 == b[n];
      BigEndianInjective(a[..n], b[..n]);
      assert a == a[..n] + [a[n]] && b == b[..n] + [b[n]];
    }
  }

  lemma LastByte(s: seq<byte>)
    requires s != []
    ensures BigEndianValue(s) == 256 * BigEndianValue(s[..|s| - 1]) + s[|s| - 1]
  {
  }

  lemma ShiftByte(v: nat, n: nat)
    ensures v * Pow256(n + 1) == 256 * (v * Pow256(n))
  {
    assert v * (256 * Pow256(n)) == 256 * (v * Pow256(n));
  }

  lemma ConcatStep(a: seq<byte>, b: seq<byte>)
    requires b != []
    ensures BigEndianValue(a + b) == 256 * BigEndianValue(a + b[..|b| - 1]) + b[|b| - 1]
    ensures BigEndianValue(b) == 256 * BigEndianValue(b[..|b| - 1]) + b[|b| - 1]
  {
    var n := |b| - 1;
    assert (a + b)[..|a| + n] == a + b[..n] && (a + b)[|a| + n] == b[n];
    LastByte(a + b);
  }

  /** A big-endian value splits at any point. */
  lemma {:induction false} BigEndianConcat(a: seq<byte>, b: seq<byte>)
    ensures BigEndianValue(a + b) == BigEndianValue(a) * Pow256(|b|) + BigEndianValue(b)
  {
    if b == [] {
      assert a + b == a;
    } else {
      ConcatStep(a, b);
      BigEndianConcat(a, b[..|b| - 1]);
      ShiftByte(BigEndianValue(a), |b| - 1);
    }
  }

  // ----- Products and quotients

  lemma {:induction false} ProductNonNegative(a: nat, b: nat)
    ensures a * b >= 0
  {
    if a > 0 {
      ProductNonNegative(a - 1, b);
      assert a * b == (a - 1) * b + b;
    }
  }

  lemma ProductMonotone(a: nat, b: nat, c: nat)
    requires a <= b
    ensures a * c <= b * c
  {
    ProductNonNegative(b - a, c);
    assert (b - a) * c == b * c - a * c;
  }

  /** A quotient is the largest number of times the divisor fits. */
  lemma QuotientIsLargest(n: nat, d: nat, w: nat)
    requires d > 0
    ensures w <= n / d <==> w * d <= n
  {
    var q := n / d;
    assert n == d * q + n % d && 0 <= n % d < d;
    if w <= q {
      ProductMonotone(w, q, d);
    } else {
      ProductMonotone(q + 1, w, d);
      assert (q + 1) * d == d * q + d;
    }
  }

  /** A quotient is no larger than what is divided. */
  lemma QuotientFits(n: nat, d: nat)
    requires d > 0
    ensures 0 <= n / d <= n
  {
    var q := n / d;
    assert n == d * q + n % d && 0 <= n % d < d;
    if q > n {
      ProductMonotone(1, d, q);
    }
  }

  lemma Scale(d: nat, a: int, b: int)
    requires a < b
    ensures d * a + d <= d * b
  {
    ProductNonNegative(b - a - 1, d);
    assert (b - a - 1) * d == d * b - d * a - d;
  }

  lemma DivisionIsUnique(n: int, d: nat, q: int, r: int)
    requires d > 0 && n == d * q + r && 0 <= r < d
    ensures n % d == r
  {
    var (q', r') := (n / d, n % d);
    assert n == d * q' + r' && 0 <= r' < d;
    if q < q' {
      Scale(d, q, q');
      assert false;
    } else if q' < q {
      Scale(d, q', q);
      assert false;
    }
  }

  /** Wrap-around of an unsigned 64-bit result. */
  function Wrap64(n: nat): (r: uint64)
    ensures n < TWO_TO_THE_64 ==> r == n
  {
    n % TWO_TO_THE_64
  }

  /** Two's complement: the unsigned 64-bit word an int64 is stored as. */
  function ToUnsigned64(t: int64): uint64 {
    if t < 0 then t + TWO_TO_THE_64 else t
  }

  /** Wrap-around of a signed 64-bit sum. */
  function WrapInt64(n: int): (t: int64)
    ensures -0x8000_0000_0000_0000 <= n < 0x8000_0000_0000_0000 ==> t == n
  {
    (n + 0x8000_0000_0000_0000) % TWO_TO_THE_64 - 0x8000_0000_0000_0000
  }
}
