/**
 * Percent-encoding as Python's urllib does it: UTF-8 (RFC 3629) under
 * `quote`, `quote_plus` and `unquote`, whose escapes follow section 2.1
 * of RFC 3986 (`%` and two upper-case hexadecimal digits per octet).
 */
module Url {
  import opened Text

  type byte = b: int | 0 <= b < 256

  const Replacement: char := 0xFFFD as char

  // ---------------------------------------------------------------- UTF-8

  /** The UTF-8 encoding of one Unicode scalar value. */
  function Utf8Char(c: char): (bs: seq<byte>)
    ensures 1 <= |bs| <= 4
    ensures (|bs| == 1) <==> c as int < 0x80
  {
    var n := c as int;
    if n < 0x80 then [n]
    else if n < 0x800 then [0xC0 + n / 64, 0x80 + n % 64]
    else if n < 0x10000 then [0xE0 + n / 4096, 0x80 + (n / 64) % 64, 0x80 + n % 64]
    else [0xF0 + n / 262144, 0x80 + (n / 4096) % 64, 0x80 + (n / 64) % 64, 0x80 + n % 64]
  }

  /** `s.encode('utf-8')`. */
  function Utf8(s: string): seq<byte>
    decreases |s|
  {
    if |s| == 0 then [] else Utf8Char(s[0]) + Utf8(s[1..])
  }

  predicate IsCont(b: byte) { 0x80 <= b <= 0xBF }

  /**
   * Reads one character off the front of bs. A byte sequence that is not
   * well-formed UTF-8 gives U+FFFD for its maximal ill-formed prefix, the
   * policy of Python's `errors='replace'`.
   */
  function DecodeOne(bs: seq<byte>): (r: (char, nat))
    requires |bs| > 0
    ensures 1 <= r.1 <= |bs|
  {
    var b0: int := bs[0];
    if b0 < 0x80 then (b0 as char, 1)
    else if 0xC2 <= b0 <= 0xDF then
      if |bs| > 1 && IsCont(bs[1]) then (((b0 - 0xC0) * 64 + (bs[1] as int - 0x80)) as char, 2)
      else (Replacement, 1)
    else if 0xE0 <= b0 <= 0xEF then
      var lo := if b0 == 0xE0 then 0xA0 else 0x80;
      var hi := if b0 == 0xED then 0x9F else 0xBF;
      if !(|bs| > 1 && lo <= bs[1] <= hi) then (Replacement, 1)
      else if !(|bs| > 2 && IsCont(bs[2])) then (Replacement, 2)
      else ((((b0 - 0xE0) * 64 + (bs[1] as int - 0x80)) * 64 + (bs[2] as int - 0x80)) as char, 3)
    else if 0xF0 <= b0 <= 0xF4 then
      var lo := if b0 == 0xF0 then 0x90 else 0x80;
      var hi := if b0 == 0xF4 then 0x8F else 0xBF;
      if !(|bs| > 1 && lo <= bs[1] <= hi) then (Replacement, 1)
      else if !(|bs| > 2 && IsCont(bs[2])) then (Replacement, 2)
      else if !(|bs| > 3 && IsCont(bs[3])) then (Replacement, 3)
      else
        var v := (((b0 - 0xF0) * 64 + (bs[1] as int - 0x80)) * 64 + (bs[2] as int - 0x80)) * 64 + (bs[3] as int - 0x80);
        (v as char, 4)
    else (Replacement, 1)
  }

  /** `bs.decode('utf-8', errors='replace')`. */
  function Utf8Decode(bs: seq<byte>): string
    decreases |bs|
  {
    if |bs| == 0 then ""
    else
      var r := DecodeOne(bs);
      [r.0] + Utf8Decode(bs[r.1..])
  }

  lemma DecodeOneChar(c: char, rest: seq<byte>)
    ensures DecodeOne(Utf8Char(c) + rest) == (c, |Utf8Char(c)|)
  {
    var n := c as int;
    if n < 0x80 {
    } else if n < 0x800 {
      DecodeTwo(c, rest);
    } else if n < 0x10000 {
      DecodeThree(c, rest);
    } else {
      DecodeFour(c, rest);
    }
  }

  lemma DecodeTwo(c: char, rest: seq<byte>)
    requires 0x80 <= c as int < 0x800
    ensures DecodeOne(Utf8Char(c) + rest) == (c, 2)
  {
    var n := c as int;
    var bs := Utf8Char(c) + rest;
    assert bs[0] == 0xC0 + n / 64 && bs[1] == 0x80 + n % 64;
    assert 0xC2 <= bs[0] <= 0xDF && IsCont(bs[1]);
    assert (n / 64) * 64 + n % 64 == n;
  }

  lemma DecodeThree(c: char, rest: seq<byte>)
    requires 0x800 <= c as int < 0x10000
    ensures DecodeOne(Utf8Char(c) + rest) == (c, 3)
  {
    var n := c as int;
    var bs := Utf8Char(c) + rest;
    var b0, b1, b2 := n / 4096, (n / 64) % 64, n % 64;
    assert bs[0] == 0xE0 + b0 && bs[1] == 0x80 + b1 && bs[2] == 0x80 + b2;
    assert b0 * 64 + b1 == n / 64;
    assert (n / 64) * 64 + b2 == n;
    assert 0xE0 <= bs[0] <= 0xEF;
    assert b0 == 0 ==> b1 >= 32;
    assert b0 == 13 ==> b1 < 32;
    assert IsCont(bs[2]);
  }

  lemma DecodeFour(c: char, rest: seq<byte>)
    requires 0x10000 <= c as int
    ensures DecodeOne(Utf8Char(c) + rest) == (c, 4)
  {
    var n := c as int;
    var bs := Utf8Char(c) + rest;
    var b0, b1, b2, b3 := n / 262144, (n / 4096) % 64, (n / 64) % 64, n % 64;
    assert bs[0] == 0xF0 + b0 && bs[1] == 0x80 + b1 && bs[2] == 0x80 + b2 && bs[3] == 0x80 + b3;
    FourDigits(n);
    assert 0xF0 <= bs[0] <= 0xF4;
    assert IsCont(bs[2]) && IsCont(bs[3]);
  }

  /** The base-64 digits of a four-octet code point and the ranges of the first two. */
  lemma FourDigits(n: int)
    requires 0x10000 <= n < 0x110000
    ensures var b0, b1, b2, b3 := n / 262144, (n / 4096) % 64, (n / 64) % 64, n % 64;
      && ((b0 * 64 + b1) * 64 + b2) * 64 + b3 == n
      && 0 <= b0 <= 4 && 0 <= b2 < 64 && 0 <= b3 < 64
      && (b0 == 0 ==> b1 >= 16) && (b0 == 4 ==> b1 < 16)
  {
    var b0, b1, b2, b3 := n / 262144, (n / 4096) % 64, (n / 64) % 64, n % 64;
    assert b0 * 64 + b1 == n / 4096;
    assert (n / 4096) * 64 + b2 == n / 64;
    assert (n / 64) * 64 + b3 == n;
  }

  /** Decoding the UTF-8 encoding of a string gives the string back. */
  lemma {:induction false} Utf8RoundTrip(s: string)
    ensures Utf8Decode(Utf8(s)) == s
    decreases |s|
  {
    if |s| > 0 {
      var bs := Utf8(s);
      DecodeOneChar(s[0], Utf8(s[1..]));
      assert bs[|Utf8Char(s[0])|..] == Utf8(s[1..]);
      Utf8RoundTrip(s[1..]);
    }
  }

  // ---------------------------------------------------------------- quote

  const HexDigits: string := "0123456789ABCDEF"

  function HexDigit(d: nat): char
    requires d < 16
  {
    HexDigits[d]
  }

  predicate IsHex(c: char) {
    '0' <= c <= '9' || 'A' <= c <= 'F' || 'a' <= c <= 'f'
  }

  function HexValue(c: char): (d: nat)
    requires IsHex(c)
    ensures d < 16
  {
    if '0' <= c <= '9' then c as int - '0' as int
    else if 'A' <= c <= 'F' then c as int - 'A' as int + 10
    else c as int - 'a' as int + 10
  }

  lemma HexDigitValue(d: nat)
    requires d < 16
    ensures IsHex(HexDigit(d)) && HexValue(HexDigit(d)) == d
  {
  }

  /** `%XY` for one octet. */
  function PercentByte(b: byte): string {
    ['%', HexDigit(b / 16), HexDigit(b % 16)]
  }

  function PercentBytes(bs: seq<byte>): string
    decreases |bs|
  {
    if |bs| == 0 then "" else PercentByte(bs[0]) + PercentBytes(bs[1..])
  }

  /**
   * The arguments of one quoting function: the caller's `safe` characters,
   * whether `~` is always safe (Python 3.7 and later, not Python 2), and
   * whether a space becomes `+` (quote_plus).
   */
  datatype QuoteStyle = QuoteStyle(safe: string, tilde: bool, plus: bool)

  /** `urllib.parse.quote(s)`: safe='/'. */
  const Quote3: QuoteStyle := QuoteStyle("/", true, false)
  /** `urllib.parse.quote_plus(s)`: safe='', space as '+'. */
  const QuotePlus3: QuoteStyle := QuoteStyle("", true, true)
  /** Python 2's `urllib.quote(s)`: safe='/', '~' escaped. */
  const Quote2: QuoteStyle := QuoteStyle("/", false, false)

  predicate AlwaysSafe(c: char, tilde: bool) {
    'A' <= c <= 'Z' || 'a' <= c <= 'z' || '0' <= c <= '9' || c == '_' || c == '.' || c == '-'
    || (tilde && c == '~')
  }

  predicate Kept(st: QuoteStyle, c: char) {
    AlwaysSafe(c, st.tilde) || c in st.safe
  }

  function QuoteChar(st: QuoteStyle, c: char): string {
    if st.plus && c == ' ' then "+"
    else if Kept(st, c) then [c]
    else PercentBytes(Utf8Char(c))
  }

  /** Percent-encode s in the given style. */
  function Quote(st: QuoteStyle, s: string): string
    decreases |s|
  {
    if |s| == 0 then "" else QuoteChar(st, s[0]) + Quote(st, s[1..])
  }

  /** Quoting works character by character, so it distributes over concatenation. */
  lemma {:induction false} QuoteAppend(st: QuoteStyle, a: string, b: string)
    ensures Quote(st, a + b) == Quote(st, a) + Quote(st, b)
    decreases |a|
  {
    if |a| > 0 {
      assert (a + b)[0] == a[0] && (a + b)[1..] == a[1..] + b;
      QuoteAppend(st, a[1..], b);
      Assoc(QuoteChar(st, a[0]), Quote(st, a[1..]), Quote(st, b));
    } else {
      assert a + b == b;
    }
  }

  /** Text made of always-safe characters is left as it is. */
  lemma {:induction false} QuoteSafe(st: QuoteStyle, s: string)
    requires forall i :: 0 <= i < |s| ==> AlwaysSafe(s[i], st.tilde)
    ensures Quote(st, s) == s
    decreases |s|
  {
    if |s| > 0 {
      QuoteSafe(st, s[1..]);
      assert s == [s[0]] + s[1..];
    }
  }

  /** A style whose safe characters are printable ASCII (or space) other than `%` and `+`. */
  predicate WellFormedStyle(st: QuoteStyle) {
    forall c :: c in st.safe ==> 0x20 <= c as int < 0x7f && c != '%' && c != '+'
  }

  /** Quoted text is ASCII, and has no character that is neither kept nor part of an escape. */
  lemma {:induction false} QuoteChars(st: QuoteStyle, s: string)
    requires WellFormedStyle(st)
    ensures forall c :: c in Quote(st, s) ==>
              c as int < 0x80 && (Kept(st, c) || c == '%' || IsHex(c) || (st.plus && c == '+'))
    decreases |s|
  {
    if |s| > 0 {
      QuoteChars(st, s[1..]);
      PercentBytesChars(Utf8Char(s[0]));
    }
  }

  lemma {:induction false} PercentBytesChars(bs: seq<byte>)
    ensures forall c :: c in PercentBytes(bs) ==> c == '%' || (IsHex(c) && c as int < 0x80)
    decreases |bs|
  {
    if |bs| > 0 {
      PercentBytesChars(bs[1..]);
    }
  }

  // ---------------------------------------------------------------- unquote

  predicate Ascii(s: string) {
    forall i :: 0 <= i < |s| ==> s[i] as int < 0x80
  }

  /** `urllib.parse.unquote_to_bytes` on ASCII text: `%XY` with two hex digits is an octet. */
  function UnquoteToBytes(s: string): seq<byte>
    requires Ascii(s)
    decreases |s|
  {
    if |s| == 0 then []
    else if s[0] == '%' && |s| >= 3 && IsHex(s[1]) && IsHex(s[2]) then
      [16 * HexValue(s[1]) + HexValue(s[2])] + UnquoteToBytes(s[3..])
    else [s[0] as int] + UnquoteToBytes(s[1..])
  }

  /** Length of the run of ASCII characters that starts s. */
  function AsciiRun(s: string): (n: nat)
    ensures n <= |s|
    ensures forall i :: 0 <= i < n ==> s[i] as int < 0x80
    ensures n < |s| ==> s[n] as int >= 0x80
    decreases |s|
  {
    if |s| == 0 || s[0] as int >= 0x80 then 0 else 1 + AsciiRun(s[1..])
  }

  /**
   * `urllib.parse.unquote(s)`: each maximal ASCII run is unquoted to octets
   * and decoded as UTF-8 with replacement; other characters pass unchanged.
   */
  function Unquote(s: string): string
    decreases |s|
  {
    if |s| == 0 then ""
    else if s[0] as int >= 0x80 then [s[0]] + Unquote(s[1..])
    else
      var n := AsciiRun(s);
      Utf8Decode(UnquoteToBytes(s[..n])) + Unquote(s[n..])
  }

  /** `urllib.parse.unquote_plus(s)`: '+' is a space, then unquote. */
  function UnquotePlus(s: string): string {
    Unquote(Replace(s, "+", " "))
  }

  /** One escape in front of ASCII text is one octet in front of its octets. */
  lemma UnquotePercentHead(b: byte, tail: string)
    requires Ascii(tail)
    ensures Ascii(PercentByte(b) + tail)
    ensures UnquoteToBytes(PercentByte(b) + tail) == [b] + UnquoteToBytes(tail)
  {
    var s := PercentByte(b) + tail;
    HexDigitValue(b / 16);
    HexDigitValue(b % 16);
    assert s[0] == '%' && s[1] == HexDigit(b / 16) && s[2] == HexDigit(b % 16);
    assert 16 * (b / 16) + b % 16 == b;
    assert s[3..] == tail;
  }

  lemma {:induction false} UnquotePercentBytes(bs: seq<byte>, rest: string)
    requires Ascii(rest)
    ensures Ascii(PercentBytes(bs) + rest)
    ensures UnquoteToBytes(PercentBytes(bs) + rest) == bs + UnquoteToBytes(rest)
    decreases |bs|
  {
    if |bs| > 0 {
      var tail := PercentBytes(bs[1..]) + rest;
      UnquotePercentBytes(bs[1..], rest);
      UnquotePercentHead(bs[0], tail);
      PercentBytesCons(bs, rest);
      ConsAppend(bs, UnquoteToBytes(rest));
    } else {
      assert PercentBytes(bs) + rest == rest;
    }
  }

  lemma PercentBytesCons(bs: seq<byte>, rest: string)
    requires |bs| > 0
    ensures PercentBytes(bs) + rest == PercentByte(bs[0]) + (PercentBytes(bs[1..]) + rest)
  {
    Assoc(PercentByte(bs[0]), PercentBytes(bs[1..]), rest);
  }

  /** A kept character in front of ASCII text stays one octet. */
  lemma UnquoteKeptHead(st: QuoteStyle, c: char, tail: string)
    requires WellFormedStyle(st) && Kept(st, c) && Ascii(tail)
    ensures Ascii([c] + tail)
    ensures UnquoteToBytes([c] + tail) == Utf8Char(c) + UnquoteToBytes(tail)
  {
    assert ([c] + tail)[1..] == tail;
  }

  /** With '+' read as a space, unquoting a quoted string gives its UTF-8 octets. */
  lemma {:induction false} UnquoteToBytesOfQuote(st: QuoteStyle, s: string)
    requires WellFormedStyle(st)
    ensures Ascii(Quote(st.(plus := false), s))
    ensures UnquoteToBytes(Quote(st.(plus := false), s)) == Utf8(s)
    decreases |s|
  {
    var st' := st.(plus := false);
    if |s| > 0 {
      UnquoteToBytesOfQuote(st, s[1..]);
      var rest := Quote(st', s[1..]);
      if Kept(st', s[0]) {
        UnquoteKeptHead(st', s[0], rest);
      } else {
        UnquotePercentBytes(Utf8Char(s[0]), rest);
      }
    }
  }

  /** Quoted text is ASCII, so unquoting it is one decode of one run. */
  lemma UnquoteAscii(s: string)
    requires Ascii(s)
    ensures Unquote(s) == Utf8Decode(UnquoteToBytes(s))
  {
    if |s| > 0 {
      assert AsciiRun(s) == |s| by { AsciiRunAll(s); }
      assert s[..|s|] == s;
    }
  }

  lemma {:induction false} AsciiRunAll(s: string)
    requires Ascii(s)
    ensures AsciiRun(s) == |s|
    decreases |s|
  {
    if |s| > 0 {
      AsciiRunAll(s[1..]);
    }
  }

  /** `unquote(quote(s)) == s`. */
  lemma UnquoteQuote(st: QuoteStyle, s: string)
    requires WellFormedStyle(st) && !st.plus
    ensures Unquote(Quote(st, s)) == s
  {
    assert st.(plus := false) == st;
    UnquoteToBytesOfQuote(st, s);
    UnquoteAscii(Quote(st, s));
    Utf8RoundTrip(s);
  }

  /** Under quote_plus a '+' stands only for a space: a literal '+' is escaped. */
  lemma {:induction false} PlusToSpace(st: QuoteStyle, s: string)
    requires WellFormedStyle(st) && st.plus
    ensures Replace(Quote(st, s), "+", " ") == Quote(st.(plus := false, safe := st.safe + " "), s)
    decreases |s|
  {
    if |s| > 0 {
      PlusToSpace(st, s[1..]);
      var st' := st.(plus := false, safe := st.safe + " ");
      var head := QuoteChar(st, s[0]);
      ReplaceAppend(head, Quote(st, s[1..]));
      if s[0] != ' ' && !Kept(st, s[0]) {
        PercentBytesChars(Utf8Char(s[0]));
        ReplaceAbsentChar(head, '+', ' ');
      }
    }
  }

  /** Replacing a character distributes over concatenation. */
  lemma {:induction false} ReplaceAppend(a: string, b: string)
    ensures Replace(a + b, "+", " ") == Replace(a, "+", " ") + Replace(b, "+", " ")
    decreases |a|
  {
    if |a| > 0 {
      assert (a + b)[1..] == a[1..] + b;
      ReplaceAppend(a[1..], b);
    } else {
      assert a + b == b;
    }
  }

  lemma {:induction false} ReplaceAbsentChar(s: string, a: char, b: char)
    requires a !in s
    ensures Replace(s, [a], [b]) == s
    decreases |s|
  {
    if |s| > 0 {
      ReplaceAbsentChar(s[1..], a, b);
      assert s == [s[0]] + s[1..];
    }
  }

  /** `unquote_plus(quote_plus(s)) == s`. */
  lemma {:induction false} QuotePlusRoundTrip(s: string)
    ensures UnquotePlus(Quote(QuotePlus3, s)) == s
  {
    var st := QuotePlus3.(plus := false, safe := QuotePlus3.safe + " ");
    PlusToSpace(QuotePlus3, s);
    assert WellFormedStyle(st) by {
      assert st.safe == " ";
    }
    UnquoteQuote(st, s);
  }

  /** quote_plus never lets a '/' through, so a quoted term is one path segment. */
  lemma QuotePlusNoSlash(s: string)
    ensures '/' !in Quote(QuotePlus3, s)
  {
    QuoteChars(QuotePlus3, s);
  }
}
