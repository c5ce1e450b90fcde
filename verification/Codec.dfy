/** Hexadecimal and decimal text of hashes, heights and works (pkg/chain/codec.go). */
module Codec {
  import opened Bytes

  function HexDigit(d: nat): char
    requires d < 16
  {
    if d < 10 then (48 + d) as char else (87 + d) as char
  }

  function HexValue(c: char): (v: Option<nat>)
    ensures v.Some? ==> v.value < 16
  {
    if '0' <= c <= '9' then Some(c as int - 48)
    else if 'a' <= c <= 'f' then Some(c as int - 87)
    else if 'A' <= c <= 'F' then Some(c as int - 55)
    else None
  }

  lemma HexDigitOrder(x: nat, y: nat)
    requires x < 16 && y < 16
    ensures HexDigit(x) < HexDigit(y) <==> x < y
    ensures HexValue(HexDigit(x)) == Some(x)
  {
  }

  function HexEncode(s: seq<byte>): (t: string)
    ensures |t| == 2 * |s|
  {
    if s == [] then [] else [HexDigit(s[0] / 16), HexDigit(s[0] % 16)] + HexEncode(s[1..])
  }

  function HexDecode(t: string): Option<seq<byte>> {
    if t == [] then Some([])
    else if |t| == 1 then None
    else if HexValue(t[0]).None? || HexValue(t[1]).None? || HexDecode(t[2..]).None? then None
    else Some([16 * HexValue(t[0]).value + HexValue(t[1]).value] + HexDecode(t[2..]).value)
  }

  lemma {:induction false} HexRoundTrip(s: seq<byte>)
    ensures HexDecode(HexEncode(s)) == Some(s)
  {
    if s != [] {
      HexDigitOrder(s[0] / 16, s[0] % 16);
      HexDigitOrder(s[0] % 16, s[0] / 16);
      HexRoundTrip(s[1..]);
      assert HexEncode(s)[2..] == HexEncode(s[1..]);
      assert s == [s[0]] + s[1..];
    }
  }

  /** hashFromString: the empty string is the zero hash, anything else exactly 32 hex bytes. */
  function HashFromString(t: string): Option<Hash> {
    if t == "" then Some(ZERO_HASH)
    else match HexDecode(t)
      case Some(b) => if |b| == 32 then Some(Hash(b)) else None
      case None => None
  }

  lemma HashRoundTrip(h: Hash)
    ensures HashFromString(HexEncode(h.bytes)) == Some(h)
  {
    HexRoundTrip(h.bytes);
  }

  predicate IsDigit(c: char) { '0' <= c <= '9' }

  /** Decimal text of a natural number, without leading zeros. */
  function FormatNat(n: nat): (t: string)
    ensures |t| > 0 && forall i :: 0 <= i < |t| ==> IsDigit(t[i])
  {
    if n < 10 then [(48 + n) as char] else FormatNat(n / 10) + [(48 + n % 10) as char]
  }

  function FormatInt(n: int): string {
    if n < 0 then "-" + FormatNat(-n) else FormatNat(n)
  }

  /** The value of a nonempty string of digits. */
  function DigitsValue(t: string): Option<nat> {
    if t == "" || !IsDigit(t[|t| - 1]) then None
    else
      var d := t[|t| - 1] as int - 48;
      if |t| == 1 then Some(d)
      else match DigitsValue(t[..|t| - 1])
        case Some(v) => Some(10 * v + d)
        case None => None
  }

  /** strconv.ParseUint(t, 10, 64). */
  function ParseUint64(t: string): Option<uint64> {
    match DigitsValue(t)
    case Some(v) => if v < TWO_TO_THE_64 then Some(v) else None
    case None => None
  }

  /** bigIntFromString: the empty string is zero; an optional sign, then digits. */
  function BigIntFromString(t: string): Option<int> {
    if t == "" then Some(0)
    else if t[0] == '-' then
      match DigitsValue(t[1..])
      case Some(v) => Some(-1 * v)
      case None => None
    else if t[0] == '+' then DigitsValue(t[1..])
    else DigitsValue(t)
  }

  lemma {:induction false} DecimalRoundTrip(n: nat)
    ensures DigitsValue(FormatNat(n)) == Some(n)
  {
    if n >= 10 {
      DecimalRoundTrip(n / 10);
      var t := FormatNat(n);
      assert t[..|t| - 1] == FormatNat(n / 10);
    }
  }

  lemma HeightRoundTrip(n: uint64)
    ensures ParseUint64(FormatNat(n)) == Some(n)
  {
    DecimalRoundTrip(n);
  }

  lemma BigIntRoundTrip(n: int)
    ensures BigIntFromString(FormatInt(n)) == Some(n)
  {
    if n < 0 {
      DecimalRoundTrip(-n);
      assert FormatInt(n)[1..] == FormatNat(-n);
    } else {
      DecimalRoundTrip(n);
      assert IsDigit(FormatNat(n)[0]);
    }
  }

  /** Hexadecimal text is lower case, two digits a byte, the high one first. */
  lemma {:induction false} HexDigitsAre(s: seq<byte>, i: nat)
    requires i < |s|
    ensures HexEncode(s)[2 * i] == "0123456789abcdef"[s[i] / 16]
    ensures HexEncode(s)[2 * i + 1] == "0123456789abcdef"[s[i] % 16]
  {
    DigitIs(s[0] / 16);
    DigitIs(s[0] % 16);
    if i > 0 {
      HexDigitsAre(s[1..], i - 1);
      assert HexEncode(s)[2..] == HexEncode(s[1..]);
      assert HexEncode(s)[2 * i] == HexEncode(s)[2..][2 * (i - 1)];
      assert HexEncode(s)[2 * i + 1] == HexEncode(s)[2..][2 * (i - 1) + 1];
    }
  }

  lemma DigitIs(d: nat)
    requires d < 16
    ensures HexDigit(d) == "0123456789abcdef"[d]
  {
    var digits := "0123456789abcdef";
    assert digits[0] == '0' && digits[1] == '1' && digits[2] == '2' && digits[3] == '3' && digits[4] == '4';
    assert digits[5] == '5' && digits[6] == '6' && digits[7] == '7' && digits[8] == '8' && digits[9] == '9';
    assert digits[10] == 'a' && digits[11] == 'b' && digits[12] == 'c' && digits[13] == 'd' && digits[14] == 'e';
  }

  /** The decimal digit of n at 10 to the power k. */
  function DecimalDigit(n: nat, k: nat): nat {
    if k == 0 then n % 10 else DecimalDigit(n / 10, k - 1)
  }

  /** What is left of n after dropping its k lowest digits. */
  function DroppedDigits(n: nat, k: nat): nat {
    if k == 0 then n else DroppedDigits(n / 10, k - 1)
  }

  /** Decimal text has all the digits. */
  lemma {:induction false} NoDigitsLeft(n: nat)
    ensures DroppedDigits(n, |FormatNat(n)|) == 0
  {
    hide FormatNat;
    FormatStep(n);
    if n >= 10 {
      NoDigitsLeft(n / 10);
    } else {
      assert n / 10 == 0 && DroppedDigits(n, 1) == DroppedDigits(n / 10, 0);
    }
  }

  /** Decimal text: the digits in order, the units last. */
  lemma {:induction false} DecimalDigitsAre(n: nat, k: nat)
    requires k < |FormatNat(n)|
    ensures FormatNat(n)[|FormatNat(n)| - 1 - k] == "0123456789"[DecimalDigit(n, k) % 10]
  {
    hide FormatNat;
    FormatStep(n);
    TextOfDigit(n % 10);
    if k > 0 {
      DecimalDigitsAre(n / 10, k - 1);
    }
  }

  lemma FormatStep(n: nat)
    ensures FormatNat(n) == (if n < 10 then [] else FormatNat(n / 10)) + [(48 + n % 10) as char]
  {
  }

  /** No leading zero, but for zero itself. */
  lemma {:induction false} NoLeadingZero(n: nat)
    ensures FormatNat(n)[0] == '0' <==> n == 0
  {
    if n >= 10 {
      NoLeadingZero(n / 10);
      assert FormatNat(n)[0] == FormatNat(n / 10)[0];
    }
  }

  lemma TextOfDigit(d: nat)
    requires d < 10
    ensures (48 + d) as char == "0123456789"[d]
  {
    var digits := "0123456789";
    assert digits[0] == '0' && digits[1] == '1' && digits[2] == '2' && digits[3] == '3' && digits[4] == '4';
    assert digits[5] == '5' && digits[6] == '6' && digits[7] == '7' && digits[8] == '8' && digits[9] == '9';
  }
}
