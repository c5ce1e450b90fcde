/** Proof-of-work targets, block work and the tie-break order on hashes. */
module Work {
  import opened Bytes
  import opened Codec

  const TWO_TO_THE_256: nat := 0x1_00000000_00000000_00000000_00000000_00000000_00000000_00000000_00000000

  /** A digest meets a target when its big-endian value does not exceed the target's. */
  predicate Meets(digest: Bytes32, target: Target) {
    BigEndianValue(digest) <= BigEndianValue(target.bytes)
  }

  /** The early-exit byte scan decides the numeric order of two 32-byte strings. */
  method LessOrEqualBE(a: Bytes32, target: Target) returns (r: bool)
    ensures r <==> Meets(a, target)
  {
    var b := target.bytes;
    for i := 0 to 32
      invariant a[..i] == b[..i]
    {
      if a[i] != b[i] {
        FirstDifferenceDecides(a, b, i);
      }
      if a[i] < b[i] {
        return true;
      }
      if a[i] > b[i] {
        return false;
      }
    }
    assert a == a[..32] && b == b[..32];
    return true;
  }

  /** The first differing byte decides the order of two equal-length strings. */
  lemma FirstDifferenceDecides(a: seq<byte>, b: seq<byte>, i: nat)
    requires |a| == |b| && i < |a| && a[..i] == b[..i] && a[i] != b[i]
    ensures BigEndianValue(a) < BigEndianValue(b) <==> a[i] < b[i]
    ensures BigEndianValue(a) > BigEndianValue(b) <==> a[i] > b[i]
  {
    if a[i] < b[i] {
      SmallerAt(a, b, i);
    } else {
      SmallerAt(b, a, i);
    }
  }

  lemma SmallerAt(a: seq<byte>, b: seq<byte>, i: nat)
    requires |a| == |b| && i < |a| && a[..i] == b[..i] && a[i] < b[i]
    ensures BigEndianValue(a) < BigEndianValue(b)
  {
    hide BigEndianValue;
    hide Pow256;
    SplitAfter(a, i);
    SplitAfter(b, i);
    BigEndianBound(a[i + 1..]);
    LeadsAbove(256 * BigEndianValue(a[..i]) + a[i], 256 * BigEndianValue(b[..i]) + b[i],
               Pow256(|a| - i - 1), BigEndianValue(a[i + 1..]), BigEndianValue(b[i + 1..]));
  }

  /** The value of a byte string by the bytes before, at and after position i. */
  lemma SplitAfter(a: seq<byte>, i: nat)
    requires i < |a|
    ensures BigEndianValue(a)
         == (256 * BigEndianValue(a[..i]) + a[i]) * Pow256(|a| - i - 1) + BigEndianValue(a[i + 1..])
  {
    hide BigEndianValue;
    hide Pow256;
    var (head, tail) := (a[..i + 1], a[i + 1..]);
    assert a == head + tail && head[..i] == a[..i];
    LastByte(head);
    BigEndianConcat(head, tail);
  }

  lemma LeadsAbove(x: nat, y: nat, p: nat, r: nat, s: nat)
    requires x < y && r < p
    ensures x * p + r < y * p + s
  {
    ProductMonotone(x + 1, y, p);
    assert (x + 1) * p == x * p + p;
  }

  /** Expected number of hashes behind a block: 2^256 / (target + 1), and 0 for the zero target. */
  function CalcBlockWork(target: Target): nat {
    var t := BigEndianValue(target.bytes);
    if t == 0 then 0 else Quotient(TWO_TO_THE_256, t + 1)
  }

  function Quotient(n: nat, d: nat): nat
    requires d > 0
  {
    n / d
  }

  /** Every nonzero target has positive work that fits 256 bits; only the zero target has none. */
  lemma BlockWorkRange(target: Target)
    ensures CalcBlockWork(target) == 0 <==> target == ZERO_TARGET
    ensures target != ZERO_TARGET ==> 1 <= CalcBlockWork(target) <= TWO_TO_THE_256 / 2
  {
    var t := BigEndianValue(target.bytes);
    BigEndianBound(target.bytes);
    Pow256Values();
    ZeroValue(32);
    if t == 0 {
      BigEndianInjective(target.bytes, ZERO_TARGET.bytes);
    } else {
      QuotientBounds(TWO_TO_THE_256, t + 1);
    }
  }

  lemma QuotientBounds(n: nat, d: nat)
    requires 2 <= d <= n
    ensures 1 <= n / d <= n / 2
  {
    var q := n / d;
    QuotientIsLargest(n, d, 1);
    QuotientIsLargest(n, d, q);
    ProductMonotone(2, d, q);
    QuotientIsLargest(n, 2, q);
  }

  lemma {:induction false} ZeroValue(k: nat)
    ensures BigEndianValue(Zeros(k)) == 0
  {
    if k > 0 {
      assert Zeros(k)[..k - 1] == Zeros(k - 1);
      ZeroValue(k - 1);
    }
  }

  /** Block work is the largest number of target-sized draws that fits 2^256. */
  lemma BlockWorkIsQuotient(target: Target, w: nat)
    requires target != ZERO_TARGET
    ensures w <= CalcBlockWork(target) <==> w * (BigEndianValue(target.bytes) + 1) <= TWO_TO_THE_256
  {
    BlockWorkRange(target);
    hide BigEndianValue;
    QuotientIsLargest(TWO_TO_THE_256, BigEndianValue(target.bytes) + 1, w);
  }

  /** A harder (smaller) target never has less work. */
  lemma BlockWorkAntitone(hard: Target, easy: Target)
    requires hard != ZERO_TARGET && BigEndianValue(hard.bytes) <= BigEndianValue(easy.bytes)
    ensures CalcBlockWork(hard) >= CalcBlockWork(easy)
  {
    ZeroValue(32);
    if easy == ZERO_TARGET {
      BigEndianInjective(hard.bytes, ZERO_TARGET.bytes);
    }
    BlockWorkRange(easy);
    var q := CalcBlockWork(easy);
    BlockWorkIsQuotient(easy, q);
    ScaleFits(q, BigEndianValue(hard.bytes) + 1, BigEndianValue(easy.bytes) + 1, TWO_TO_THE_256);
    BlockWorkIsQuotient(hard, q);
  }

  lemma ScaleFits(q: nat, small: nat, large: nat, bound: nat)
    requires small <= large && q * large <= bound
    ensures q * small <= bound
  {
    ProductMonotone(small, large, q);
  }

  /** Byte-wise lexicographic order on strings, as the source compares hex strings. */
  predicate StringLess(a: string, b: string) {
    if b == [] then false
    else if a == [] then true
    else if a[0] != b[0] then a[0] < b[0]
    else StringLess(a[1..], b[1..])
  }

  /** The hex-string tie-break orders equal-length byte strings as numbers. */
  lemma {:induction false} HexOrderIsNumeric(a: seq<byte>, b: seq<byte>)
    requires |a| == |b|
    ensures StringLess(HexEncode(a), HexEncode(b)) <==> BigEndianValue(a) < BigEndianValue(b)
  {
    if a != [] {
      var ha, hb := HexEncode(a), HexEncode(b);
      assert ha[2..] == HexEncode(a[1..]) && hb[2..] == HexEncode(b[1..]);
      assert ha[1..][1..] == ha[2..] && hb[1..][1..] == hb[2..];
      if a[0] == b[0] {
        HexOrderIsNumeric(a[1..], b[1..]);
        assert a == [a[0]] + a[1..] && b == [b[0]] + b[1..];
        BigEndianConcat([a[0]], a[1..]);
        BigEndianConcat([b[0]], b[1..]);
      } else {
        FirstDifferenceDecides(a, b, 0);
        HexDigitOrder(a[0] / 16, b[0] / 16);
        HexDigitOrder(a[0] % 16, b[0] % 16);
      }
    }
  }

  /** Fork choice between two blocks: more work wins, then the smaller hex string. */
  function SelectBestChainByTotalWork(currentHash: Hash, currentWork: int, candidateHash: Hash,
                                      candidateWork: int): Hash
  {
    if candidateWork > currentWork then candidateHash
    else if candidateWork < currentWork then currentHash
    else if StringLess(HexEncode(candidateHash.bytes), HexEncode(currentHash.bytes)) then candidateHash
    else currentHash
  }

  /** The order fork choice should maximise: total work, then numerically smaller hash. */
  predicate Outranks(hash: Hash, work: int, otherHash: Hash, otherWork: int) {
    work > otherWork || (work == otherWork && BigEndianValue(hash.bytes) < BigEndianValue(otherHash.bytes))
  }

  /** The candidate is selected exactly when it is the current block or outranks it. */
  lemma SelectMaximises(currentHash: Hash, currentWork: int, candidateHash: Hash, candidateWork: int)
    ensures SelectBestChainByTotalWork(currentHash, currentWork, candidateHash, candidateWork) == candidateHash
      <==> candidateHash == currentHash || Outranks(candidateHash, candidateWork, currentHash, currentWork)
  {
    HexOrderIsNumeric(candidateHash.bytes, currentHash.bytes);
  }

  /** Outranks is a strict total order on (hash, work) pairs with distinct hashes. */
  lemma OutranksIsTotal(h1: Hash, w1: int, h2: Hash, w2: int)
    ensures !(Outranks(h1, w1, h2, w2) && Outranks(h2, w2, h1, w1))
    ensures h1 == h2 || Outranks(h1, w1, h2, w2) || Outranks(h2, w2, h1, w1)
  {
    if w1 == w2 && BigEndianValue(h1.bytes) == BigEndianValue(h2.bytes) {
      BigEndianInjective(h1.bytes, h2.bytes);
    }
  }
}
