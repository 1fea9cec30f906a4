/**
 * Base16 and Base64 (sections 8 and 4 of RFC 4648), and the hexadecimal
 * reading and writing of integers (`int(s, 16)`, `'{:X}'.format(n)`).
 */
module Codec {
  import opened Base
  import opened Text
  import opened Url

  // ---------------------------------------------------------------- Base16

  /** `base64.b16encode(bs).decode()`: two upper-case digits per octet. */
  function Base16(bs: seq<byte>): (s: string)
    ensures |s| == 2 * |bs|
    ensures AllHex(s)
    decreases |bs|
  {
    HexDigitValue(if |bs| == 0 then 0 else bs[0] / 16);
    HexDigitValue(if |bs| == 0 then 0 else bs[0] % 16);
    if |bs| == 0 then "" else [HexDigit(bs[0] / 16), HexDigit(bs[0] % 16)] + Base16(bs[1..])
  }

  /** Reading Base16 text back into octets (either letter case). */
  function Base16Decode(s: string): Option<seq<byte>>
    decreases |s|
  {
    if |s| == 0 then Some([])
    else if |s| == 1 || !IsHex(s[0]) || !IsHex(s[1]) then None
    else
      match Base16Decode(s[2..])
      case None => None
      case Some(rest) => Some([16 * HexValue(s[0]) + HexValue(s[1])] + rest)
  }

  /** Base16 is invertible. */
  lemma {:induction false} Base16RoundTrip(bs: seq<byte>)
    ensures Base16Decode(Base16(bs)) == Some(bs)
    decreases |bs|
  {
    if |bs| > 0 {
      var s := Base16(bs);
      OctetDigits(bs[0]);
      assert s[0] == HexDigit(bs[0] / 16) && s[1] == HexDigit(bs[0] % 16);
      assert s[2..] == Base16(bs[1..]);
      Base16RoundTrip(bs[1..]);
      assert bs == [bs[0]] + bs[1..];
    }
  }

  /** The two digits of an octet read back as the octet. */
  lemma OctetDigits(b: byte)
    ensures IsHex(HexDigit(b / 16)) && IsHex(HexDigit(b % 16))
    ensures 16 * HexValue(HexDigit(b / 16)) + HexValue(HexDigit(b % 16)) == b
  {
    HexDigitValue(b / 16);
    HexDigitValue(b % 16);
  }

  /** Base16 writes only upper-case hexadecimal digits. */
  lemma {:induction false} Base16Chars(bs: seq<byte>)
    ensures forall c :: c in Base16(bs) ==> '0' <= c <= '9' || 'A' <= c <= 'F'
    decreases |bs|
  {
    if |bs| > 0 {
      Base16Chars(bs[1..]);
    }
  }

  // ---------------------------------------------------------------- integers in hexadecimal

  predicate AllHex(s: string) { forall i :: 0 <= i < |s| ==> IsHex(s[i]) }

  /** `int(s, 16)` for a string of hexadecimal digits. */
  function HexToNat(s: string): nat
    requires AllHex(s)
    decreases |s|
  {
    if |s| == 0 then 0 else 16 * HexToNat(s[..|s| - 1]) + HexValue(s[|s| - 1])
  }

  /** `'{:X}'.format(n)`: upper case, no leading zeros. */
  function NatToHex(n: nat): (s: string)
    ensures |s| > 0 && AllHex(s)
    decreases n
  {
    if n < 16 then [HexDigit(n)] else NatToHex(n / 16) + [HexDigit(n % 16)]
  }

  /** `'{:0{w}X}'.format(n)`: the same digits, zero-padded on the left to width w. */
  function NatToHexPadded(n: nat, w: nat): (s: string)
    ensures |s| >= w && AllHex(s)
  {
    var digits := NatToHex(n);
    if |digits| >= w then digits else seq(w - |digits|, _ => '0') + digits
  }

  lemma {:induction false} HexToNatOfNatToHex(n: nat)
    ensures HexToNat(NatToHex(n)) == n
    decreases n
  {
    HexDigitValue(n % 16);
    if n >= 16 {
      HexToNatOfNatToHex(n / 16);
      var s := NatToHex(n);
      assert s[..|s| - 1] == NatToHex(n / 16) && s[|s| - 1] == HexDigit(n % 16);
      assert 16 * (n / 16) + n % 16 == n;
    }
  }

  lemma {:induction false} HexToNatZeros(k: nat, s: string)
    requires AllHex(s)
    ensures AllHex(seq(k, _ => '0') + s)
    ensures HexToNat(seq(k, _ => '0') + s) == HexToNat(s)
    decreases |s|
  {
    var z: string := seq(k, _ => '0');
    if |s| == 0 {
      assert z + s == z;
      HexToNatAllZeros(k);
    } else {
      var t := z + s;
      assert t[..|t| - 1] == z + s[..|s| - 1];
      HexToNatZeros(k, s[..|s| - 1]);
    }
  }

  lemma {:induction false} HexToNatAllZeros(k: nat)
    ensures HexToNat(seq(k, _ => '0')) == 0
    decreases k
  {
    if k > 0 {
      var z: string := seq(k, _ => '0');
      assert z[..k - 1] == seq(k - 1, _ => '0');
      HexToNatAllZeros(k - 1);
    }
  }

  /** Padding does not change the value: `int('{:040X}'.format(n), 16) == n`. */
  lemma HexToNatOfPadded(n: nat, w: nat)
    ensures HexToNat(NatToHexPadded(n, w)) == n
  {
    HexToNatOfNatToHex(n);
    var digits := NatToHex(n);
    if |digits| < w {
      HexToNatZeros(w - |digits|, digits);
    }
  }

  // ---------------------------------------------------------------- Base64

  predicate IsBase64Char(c: char) {
    'A' <= c <= 'Z' || 'a' <= c <= 'z' || '0' <= c <= '9' || c == '+' || c == '/'
  }

  /** The 6-bit value of a character of the Base64 alphabet (RFC 4648, table 1). */
  function Base64Value(c: char): (v: nat)
    requires IsBase64Char(c)
    ensures v < 64
  {
    if 'A' <= c <= 'Z' then c as int - 'A' as int
    else if 'a' <= c <= 'z' then c as int - 'a' as int + 26
    else if '0' <= c <= '9' then c as int - '0' as int + 52
    else if c == '+' then 62
    else 63
  }

  function Base64Char(v: nat): (c: char)
    requires v < 64
    ensures IsBase64Char(c) && Base64Value(c) == v
  {
    if v < 26 then ('A' as int + v) as char
    else if v < 52 then ('a' as int + v - 26) as char
    else if v < 62 then ('0' as int + v - 52) as char
    else if v == 62 then '+'
    else '/'
  }

  /** One four-character quantum, possibly padded with `=` (RFC 4648, section 4). */
  function DecodeQuantum(q: string, last: bool): Option<seq<byte>>
    requires |q| == 4
  {
    if !IsBase64Char(q[0]) || !IsBase64Char(q[1]) then None
    else
      var a, b := Base64Value(q[0]), Base64Value(q[1]);
      if last && q[2] == '=' && q[3] == '=' then Some([a * 4 + b / 16])
      else if !IsBase64Char(q[2]) then None
      else
        var c := Base64Value(q[2]);
        if last && q[3] == '=' then Some([a * 4 + b / 16, (b % 16) * 16 + c / 4])
        else if !IsBase64Char(q[3]) then None
        else
          var d := Base64Value(q[3]);
          Some([a * 4 + b / 16, (b % 16) * 16 + c / 4, (c % 4) * 64 + d])
  }

  /**
   * `base64.b64decode(s)` on text made of whole quanta of the standard
   * alphabet, `=` padding allowed only at the end; None where Python raises
   * binascii.Error.
   */
  function Base64Decode(s: string): Option<seq<byte>>
    decreases |s|
  {
    if |s| == 0 then Some([])
    else if |s| < 4 then None
    else
      match DecodeQuantum(s[..4], |s| == 4)
      case None => None
      case Some(head) =>
        match Base64Decode(s[4..])
        case None => None
        case Some(tail) => Some(head + tail)
  }

  function EncodeQuantum(bs: seq<byte>): (q: string)
    requires 1 <= |bs| <= 3
    ensures |q| == 4
  {
    var b0 := bs[0];
    var b1 := if |bs| > 1 then bs[1] else 0;
    var b2 := if |bs| > 2 then bs[2] else 0;
    var c0 := Base64Char(b0 / 4);
    var c1 := Base64Char((b0 % 4) * 16 + b1 / 16);
    var c2 := if |bs| > 1 then Base64Char((b1 % 16) * 4 + b2 / 64) else '=';
    var c3 := if |bs| > 2 then Base64Char(b2 % 64) else '=';
    [c0, c1, c2, c3]
  }

  /** `base64.b64encode(bs).decode()`. */
  function Base64Encode(bs: seq<byte>): (s: string)
    ensures |s| % 4 == 0
    ensures |s| == 0 <==> |bs| == 0
    decreases |bs|
  {
    if |bs| == 0 then ""
    else if |bs| <= 3 then EncodeQuantum(bs)
    else EncodeQuantum(bs[..3]) + Base64Encode(bs[3..])
  }

  lemma DecodeEncodeQuantum(bs: seq<byte>, last: bool)
    requires 1 <= |bs| <= 3
    requires |bs| < 3 ==> last
    ensures DecodeQuantum(EncodeQuantum(bs), last) == Some(bs)
  {
    if |bs| == 1 {
      DecodeOneOctet(bs);
    } else if |bs| == 2 {
      DecodeTwoOctets(bs);
    } else {
      DecodeThreeOctets(bs, last);
    }
  }

  lemma DecodeOneOctet(bs: seq<byte>)
    requires |bs| == 1
    ensures DecodeQuantum(EncodeQuantum(bs), true) == Some(bs)
  {
    var b0 := bs[0];
    QuantumDigits(b0, 0, 0);
    var a, b := b0 / 4, (b0 % 4) * 16;
    assert EncodeQuantum(bs) == [Base64Char(a), Base64Char(b), '=', '='];
    assert bs == [a * 4 + b / 16];
  }

  lemma DecodeTwoOctets(bs: seq<byte>)
    requires |bs| == 2
    ensures DecodeQuantum(EncodeQuantum(bs), true) == Some(bs)
  {
    var b0, b1 := bs[0], bs[1];
    QuantumDigits(b0, b1, 0);
    var a, b, c := b0 / 4, (b0 % 4) * 16 + b1 / 16, (b1 % 16) * 4;
    assert EncodeQuantum(bs) == [Base64Char(a), Base64Char(b), Base64Char(c), '='];
    assert bs == [a * 4 + b / 16, (b % 16) * 16 + c / 4];
  }

  lemma DecodeThreeOctets(bs: seq<byte>, last: bool)
    requires |bs| == 3
    ensures DecodeQuantum(EncodeQuantum(bs), last) == Some(bs)
  {
    EncodeThree(bs);
    DecodeDigits(bs[0], bs[1], bs[2], last);
    assert bs == [bs[0], bs[1], bs[2]];
  }

  lemma EncodeThree(bs: seq<byte>)
    requires |bs| == 3
    ensures EncodeQuantum(bs) == [Base64Char(bs[0] / 4), Base64Char((bs[0] % 4) * 16 + bs[1] / 16),
                                  Base64Char((bs[1] % 16) * 4 + bs[2] / 64), Base64Char(bs[2] % 64)]
  {
  }

  /** The four alphabet characters of three octets decode to the octets. */
  lemma DecodeDigits(b0: byte, b1: byte, b2: byte, last: bool)
    ensures DecodeQuantum([Base64Char(b0 / 4), Base64Char((b0 % 4) * 16 + b1 / 16),
                           Base64Char((b1 % 16) * 4 + b2 / 64), Base64Char(b2 % 64)], last)
         == Some([b0, b1, b2])
  {
    QuantumDigits(b0, b1, b2);
    var q := [Base64Char(b0 / 4), Base64Char((b0 % 4) * 16 + b1 / 16),
              Base64Char((b1 % 16) * 4 + b2 / 64), Base64Char(b2 % 64)];
    assert q[2] != '=' && q[3] != '=';
  }

  /** The four six-bit digits of three octets give the octets back. */
  lemma QuantumDigits(b0: byte, b1: byte, b2: byte)
    ensures var a, b, c, d := b0 / 4, (b0 % 4) * 16 + b1 / 16, (b1 % 16) * 4 + b2 / 64, b2 % 64;
      a < 64 && b < 64 && c < 64 && d < 64
      && a * 4 + b / 16 == b0 && (b % 16) * 16 + c / 4 == b1 && (c % 4) * 64 + d == b2
  {
  }

  /** Base64 decoding undoes Base64 encoding. */
  lemma {:induction false} Base64RoundTrip(bs: seq<byte>)
    ensures Base64Decode(Base64Encode(bs)) == Some(bs)
    decreases |bs|
  {
    if 0 < |bs| <= 3 {
      DecodeEncodeQuantum(bs, true);
      var s := Base64Encode(bs);
      assert s[..4] == s && s[4..] == "";
      assert Base64Decode(s[4..]) == Some([]);
      assert bs + [] == bs;
    } else if |bs| > 3 {
      var s := Base64Encode(bs);
      var rest := Base64Encode(bs[3..]);
      DecodeEncodeQuantum(bs[..3], |s| == 4);
      assert s[..4] == EncodeQuantum(bs[..3]) && s[4..] == rest;
      Base64RoundTrip(bs[3..]);
      assert bs == bs[..3] + bs[3..];
    }
  }
}
