/** The kernel's byte-oriented SHA3-512 (opencl_kernel.cl), against the bit-oriented definition of FIPS 202. */
module Sha3 {
  import opened Bytes
  import opened Words
  import opened Keccak
  import Fips202

  // ----- Bytes as bit strings, appendix B.1 of FIPS 202: least significant bit first

  function ByteBits(b: byte): (bits: seq<bool>)
    ensures |bits| == 8
  {
    BitsOf(b, 8)
  }

  function BitsOfBytes(s: seq<byte>): (bits: seq<bool>)
    ensures |bits| == 8 * |s|
  {
    seq(8 * |s|, i requires 0 <= i < 8 * |s| => ByteBits(s[i / 8])[i % 8])
  }

  lemma BitsOfConcat(a: seq<byte>, b: seq<byte>)
    ensures BitsOfBytes(a + b) == BitsOfBytes(a) + BitsOfBytes(b)
  {
    hide ByteBits;
    forall i | 0 <= i < 8 * |a + b|
      ensures BitsOfBytes(a + b)[i] == (BitsOfBytes(a) + BitsOfBytes(b))[i]
    {
      if i >= 8 * |a| {
        ShiftedPlace(i, |a|);
      }
    }
  }

  lemma ShiftedPlace(i: nat, n: nat)
    requires i >= 8 * n
    ensures (i - 8 * n) / 8 == i / 8 - n && (i - 8 * n) % 8 == i % 8
  {
  }

  lemma NoBits()
    ensures BitsOfBytes([]) == []
  {
  }

  lemma OneByte(b: byte)
    ensures BitsOfBytes([b]) == ByteBits(b)
  {
  }

  /** Different byte strings of one length are different bit strings. */
  lemma BitsDetermineBytes(a: seq<byte>, b: seq<byte>)
    requires BitsOfBytes(a) == BitsOfBytes(b)
    ensures a == b
  {
    hide ByteBits;
    assert |a| == |b|;
    forall i | 0 <= i < |a|
      ensures a[i] == b[i]
    {
      forall z | 0 <= z < 8
        ensures ByteBits(a[i])[z] == ByteBits(b[i])[z]
      {
        assert BitsOfBytes(a)[8 * i + z] == BitsOfBytes(b)[8 * i + z];
        assert (8 * i + z) / 8 == i && (8 * i + z) % 8 == z;
      }
      ByteBitsInjective(a[i], b[i]);
    }
  }

  lemma ByteBitsInjective(a: byte, b: byte)
    requires ByteBits(a) == ByteBits(b)
    ensures a == b
  {
    BitsValue(a, 8);
    BitsValue(b, 8);
    assert Doubled(8) == 256;
  }

  lemma {:induction false} BitsValue(n: nat, k: nat)
    requires n < Doubled(k)
    ensures NatOf(BitsOf(n, k)) == n
  {
    if k > 0 {
      BitsValue(n / 2, k - 1);
      assert BitsOf(n, k)[1..] == BitsOf(n / 2, k - 1);
    }
  }

  // ----- Words in memory

  /** (ulong)b */
  function ByteWord(b: byte): Word { ByteBits(b) + Falses(56) }

  /** load64_le_private: eight bytes, the first one lowest. */
  method Load64(src: seq<byte>) returns (w: Word)
    requires |src| == 8
    ensures w == BitsOfBytes(src)
  {
    hide ByteWord;
    hide Or;
    hide Shl;
    w := Falses(64);
    assert w == BitsOfBytes(src[..0]) + Falses(64);
    for i := 0 to 8
      invariant w == BitsOfBytes(src[..i]) + Falses(64 - 8 * i)
    {
      LoadStep(src[..i], src[i]);
      assert src[..i + 1] == src[..i] + [src[i]];
      w := Or(w, Shl(ByteWord(src[i]), 8 * i));
    }
    assert src[..8] == src;
  }

  lemma LoadStep(done: seq<byte>, b: byte)
    requires |done| < 8
    ensures Or(BitsOfBytes(done) + Falses(64 - 8 * |done|), Shl(ByteWord(b), 8 * |done|))
      == BitsOfBytes(done + [b]) + Falses(56 - 8 * |done|)
  {
    hide ByteBits;
    BitsOfConcat(done, [b]);
    assert BitsOfBytes([b]) == ByteBits(b);
  }

  /** store64_le_private: byte i is (uchar)(value >> 8i). */
  method Store64(dst: array<byte>, off: nat, value: Word)
    requires off + 8 <= dst.Length
    modifies dst
    ensures BitsOfBytes(dst[off..off + 8]) == value
    ensures dst[..off] == old(dst[..off]) && dst[off + 8..] == old(dst[off + 8..])
  {
    hide NatOf;
    hide Shr;
    hide BitsOfBytes;
    NoBits();
    assert value[..0] == [];
    for i := 0 to 8
      invariant BitsOfBytes(dst[off..off + i]) == value[..8 * i]
      invariant dst[..off] == old(dst[..off]) && dst[off + 8..] == old(dst[off + 8..])
    {
      ghost var before := dst[off..off + i];
      StoreStep(before, value, i);
      dst[off + i] := NatOf(Shr(value, 8 * i)[..8]);
      assert dst[off..off + i + 1] == before + [dst[off + i]];
    }
    assert value[..64] == value;
  }

  lemma StoreStep(before: seq<byte>, value: Word, i: nat)
    requires i < 8 && BitsOfBytes(before) == value[..8 * i]
    ensures var b := NatOf(Shr(value, 8 * i)[..8]);
      b < 256 && BitsOfBytes(before + [b]) == value[..8 * (i + 1)]
  {
    hide NatOf;
    hide BitsOfBytes;
    var low := Shr(value, 8 * i)[..8];
    assert low == value[8 * i..8 * i + 8];
    OctetBound(low);
    BitsRoundTrip(low);
    BitsOfConcat(before, [NatOf(low)]);
    OneByte(NatOf(low));
    assert value[..8 * i] + value[8 * i..8 * i + 8] == value[..8 * i + 8];
  }

  // ----- Padding, section 5.1 and appendix B.2 of FIPS 202

  /** The last block for `rest`, the bytes after the last full block. */
  function FinalBlock(rest: seq<byte>): (block: seq<byte>)
    requires |rest| < 72
    ensures |block| == 72
  {
    seq(72, i requires 0 <= i < 72 =>
      if i < |rest| then rest[i]
      else if i == |rest| then if i == 71 then 0x86 else 0x06
      else if i == 71 then 0x80 else 0)
  }

  lemma SuffixByte()
    ensures ByteBits(0x06) == [false, true, true, false, false, false, false, false]
  {
  }

  lemma EndByte()
    ensures ByteBits(0x80) == [false, false, false, false, false, false, false, true]
  {
  }

  lemma MergedByte()
    ensures ByteBits(0x86) == [false, true, true, false, false, false, false, true]
  {
  }

  lemma ZeroByte()
    ensures ByteBits(0) == [false, false, false, false, false, false, false, false]
  {
  }

  /**
   * For every message length the byte-wise last block is the suffix 01 and the pad10*1 padding; when 71 bytes
   * remain, both ends of the padding fall into one byte.
   */
  lemma FinalBlockIsPadding(full: nat, rest: seq<byte>)
    requires |rest| < 72
    ensures BitsOfBytes(FinalBlock(rest)) ==
      BitsOfBytes(rest) + [false, true] + Fips202.Pad101(576, 8 * (72 * full + |rest|) + 2)
  {
    hide ByteBits;
    SuffixByte();
    EndByte();
    MergedByte();
    ZeroByte();
    var n := |rest|;
    PadLength(full, n);
    var padded := BitsOfBytes(rest) + [false, true] + Fips202.Pad101(576, 8 * (72 * full + n) + 2);
    forall i | 0 <= i < 576
      ensures BitsOfBytes(FinalBlock(rest))[i] == padded[i]
    {
      if i >= 8 * n {
        ShiftedPlace(i, n);
      }
    }
  }

  lemma PadLength(full: nat, n: nat)
    requires n < 72
    ensures (-(8 * (72 * full + n) + 2) - 2) % 576 == 572 - 8 * n
  {
    var q: int := -1 - full;
    assert -(8 * (72 * full + n) + 2) - 2 == 576 * q + (572 - 8 * n);
  }

  // ----- The sponge

  /** XORs one 72-byte block into the first nine lanes. */
  method AbsorbBlock(st: array<Word>, chunk: seq<byte>)
    requires st.Length == 25 && |chunk| == 72
    modifies st
    ensures StateOf(st[..]) == Fips202.XorInto(StateOf(old(st[..])), BitsOfBytes(chunk))
  {
    hide Xor;
    ghost var a: Lanes := st[..];
    for i := 0 to 9
      invariant forall k :: 0 <= k < 25 ==>
        st[k] == if k < i then Xor(a[k], BitsOfBytes(chunk[8 * k..8 * k + 8])) else a[k]
    {
      var w := Load64(chunk[8 * i..8 * i + 8]);
      st[i] := Xor(st[i], w);
    }
    AbsorbedBits(a, st[..], chunk);
  }

  lemma AbsorbedBits(a: Lanes, b: Lanes, chunk: seq<byte>)
    requires |chunk| == 72
    requires forall k :: 0 <= k < 25 ==> b[k] == if k < 9 then Xor(a[k], BitsOfBytes(chunk[8 * k..8 * k + 8])) else a[k]
    ensures StateOf(b) == Fips202.XorInto(StateOf(a), BitsOfBytes(chunk))
  {
    hide BitsOfBytes;
    forall i | 0 <= i < 1600
      ensures StateOf(b)[i] == Fips202.XorInto(StateOf(a), BitsOfBytes(chunk))[i]
    {
      if i < 576 {
        ChunkBit(chunk, i / 64, i % 64);
      }
    }
  }

  lemma ChunkBit(chunk: seq<byte>, k: nat, z: nat)
    requires |chunk| == 72 && k < 9 && z < 64
    ensures BitsOfBytes(chunk[8 * k..8 * k + 8])[z] == BitsOfBytes(chunk)[64 * k + z]
  {
    hide ByteBits;
    assert (64 * k + z) / 8 == 8 * k + z / 8 && (64 * k + z) % 8 == z % 8;
  }

  /** The digest of a message, as bytes: section 6.1 through appendix B.1. */
  ghost predicate IsSha3_512(msg: seq<byte>, digest: seq<byte>) {
    BitsOfBytes(digest) == Fips202.Sha3_512(BitsOfBytes(msg))
  }

  /** sha3_512: whole blocks, the padded last block, 64 bytes of state. */
  method Sha3_512(msg: seq<byte>, out: array<byte>)
    requires |msg| < 0x1_0000_0000 && out.Length == 64
    modifies out
    ensures IsSha3_512(msg, out[..])
  {
    hide StateOf;
    hide BitsOfBytes;
    hide Fips202.KeccakF;
    hide Fips202.XorInto;
    hide Fips202.Absorb;
    hide Fips202.Pad101;
    hide FinalBlock;
    var st := new Word[25](i => Falses(64));
    var full: uint32 := |msg| / 72;
    var rem: uint32 := |msg| % 72;
    ZeroState(st[..]);
    assert msg[..0] == [];
    for blk := 0 to full
      invariant StateOf(st[..]) == Fips202.Absorb(BitsOfBytes(msg[..72 * blk]))
    {
      var at: uint32 := blk * 72;
      ghost var done := msg[..72 * blk];
      AbsorbBlock(st, msg[at..at + 72]);
      KeccakF(st);
      assert msg[..72 * (blk + 1)] == done + msg[at..at + 72];
      AbsorbMore(done, msg[at..at + 72]);
    }
    var block := LastBlock(msg, full, rem);
    AbsorbBlock(st, block);
    KeccakF(st);
    AbsorbMore(msg[..72 * full], block);
    PaddedMessage(msg, full);
    Squeeze(st, out);
  }

  lemma ZeroState(a: Lanes)
    requires forall i :: 0 <= i < 25 ==> a[i] == Falses(64)
    ensures StateOf(a) == Fips202.Absorb(BitsOfBytes([]))
  {
    NoBits();
    assert StateOf(a) == Falses(1600);
  }

  lemma AbsorbMore(done: seq<byte>, chunk: seq<byte>)
    requires |done| % 72 == 0 && |chunk| == 72
    ensures |BitsOfBytes(done)| % 576 == 0
    ensures Fips202.Absorb(BitsOfBytes(done + chunk))
      == Fips202.KeccakF(Fips202.XorInto(Fips202.Absorb(BitsOfBytes(done)), BitsOfBytes(chunk)))
  {
    hide Fips202.KeccakF;
    hide Fips202.XorInto;
    hide BitsOfBytes;
    BitsOfConcat(done, chunk);
    var p := BitsOfBytes(done + chunk);
    assert p[..|p| - 576] == BitsOfBytes(done) && p[|p| - 576..] == BitsOfBytes(chunk);
  }

  /** The last block, filled byte by byte: zeros, the rest of the message, 0x06, and 0x80 or-ed into the end. */
  method LastBlock(msg: seq<byte>, full: nat, rem: nat) returns (block: seq<byte>)
    requires |msg| == 72 * full + rem && rem < 72
    ensures block == FinalBlock(msg[72 * full..])
  {
    var buf := new byte[72](i => 0);
    for i := 0 to rem
      invariant forall k :: 0 <= k < 72 ==> buf[k] == if k < i then msg[72 * full + k] else 0
    {
      buf[i] := msg[full * 72 + i];
    }
    buf[rem] := 0x06;
    OrHighBit();
    buf[71] := OrByte(buf[71], 0x80);
    block := buf[..];
  }

  function OrByte(a: byte, b: byte): byte { ((a as bv8) | (b as bv8)) as byte }

  lemma OrHighBit()
    ensures OrByte(0, 0x80) == 0x80 && OrByte(0x06, 0x80) == 0x86
  {
  }

  /** Message, suffix and padding are the whole blocks followed by the last block. */
  lemma PaddedMessage(msg: seq<byte>, full: nat)
    requires 72 * full <= |msg| < 72 * full + 72
    ensures BitsOfBytes(msg[..72 * full] + FinalBlock(msg[72 * full..]))
      == BitsOfBytes(msg) + [false, true] + Fips202.Pad101(576, 8 * |msg| + 2)
  {
    hide BitsOfBytes;
    hide FinalBlock;
    hide Fips202.Pad101;
    var whole, rest := msg[..72 * full], msg[72 * full..];
    assert msg == whole + rest;
    BitsOfConcat(whole, rest);
    BitsOfConcat(whole, FinalBlock(rest));
    FinalBlockIsPadding(full, rest);
  }

  /** The first eight lanes, byte by byte. */
  method Squeeze(st: array<Word>, out: array<byte>)
    requires st.Length == 25 && out.Length == 64
    modifies out
    ensures BitsOfBytes(out[..]) == StateOf(st[..])[..512]
  {
    hide BitsOfBytes;
    hide StateOf;
    ghost var a: Lanes := st[..];
    ghost var s := StateOf(a);
    NoBits();
    assert s[..0] == [] && out[..0] == [];
    for i := 0 to 8
      invariant BitsOfBytes(out[..8 * i]) == s[..64 * i]
    {
      ghost var before := out[..8 * i];
      Store64(out, 8 * i, st[i]);
      assert out[..8 * i + 8] == before + out[8 * i..8 * i + 8];
      BitsOfConcat(before, out[8 * i..8 * i + 8]);
      LaneOfState(a, i);
    }
    assert out[..64] == out[..];
  }

  lemma LaneOfState(a: Lanes, i: nat)
    requires i < 25
    ensures StateOf(a)[..64 * i] + a[i] == StateOf(a)[..64 * i + 64]
  {
    var s := StateOf(a);
    assert forall z :: 0 <= z < 64 ==> s[64 * i + z] == a[i][z];
  }

  /** The specification names one digest. */
  lemma DigestIsUnique(msg: seq<byte>, d: seq<byte>, e: seq<byte>)
    requires IsSha3_512(msg, d) && IsSha3_512(msg, e)
    ensures d == e && |d| == 64
  {
    hide Fips202.Absorb;
    BitsDetermineBytes(d, e);
    assert |BitsOfBytes(d)| == 512;
  }
}
