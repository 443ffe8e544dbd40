/**
 * The two URI functions of ECMAScript that the core relies on, after the
 * Encode and Decode abstract operations of ECMA-262 (section 19.2.6):
 * `encodeURIComponent` writes every code point outside its unreserved set as
 * the `%XX` escapes of its UTF-8 octets, and `decodeURIComponent` reads them
 * back, throwing a URIError on a malformed escape or an invalid UTF-8 sequence.
 * Strings here are sequences of Unicode scalar values.
 */
module Uri {
  import opened Wrappers
  import opened Strings

  type Byte = b: int | 0 <= b < 0x100

  predicate IsAlphaNum(c: char) {
    'A' <= c <= 'Z' || 'a' <= c <= 'z' || '0' <= c <= '9'
  }

  /** The characters `encodeURIComponent` leaves as they are: uriAlpha, DecimalDigit and uriMark. */
  predicate IsUnreserved(c: char) {
    IsAlphaNum(c) || c == '-' || c == '_' || c == '.' || c == '!' || c == '~'
    || c == '*' || c == '\'' || c == '(' || c == ')'
  }

  predicate IsUpperHex(c: char) {
    '0' <= c <= '9' || 'A' <= c <= 'F'
  }

  predicate IsHexDigit(c: char) {
    IsUpperHex(c) || 'a' <= c <= 'f'
  }

  /** The upper-case hexadecimal digit of `d`. */
  function HexDigit(d: int): (c: char)
    requires 0 <= d < 16
    ensures IsUpperHex(c)
  {
    if d < 10 then ('0' as int + d) as char else ('A' as int + d - 10) as char
  }

  /** The value of a hexadecimal digit of either case. */
  function HexValue(c: char): (d: int)
    requires IsHexDigit(c)
    ensures 0 <= d < 16
  {
    if c <= '9' then c as int - '0' as int
    else if c <= 'F' then c as int - 'A' as int + 10
    else c as int - 'a' as int + 10
  }

  lemma HexValueOfDigit(d: int)
    requires 0 <= d < 16
    ensures HexValue(HexDigit(d)) == d
  {
  }

  // ---------------------------------------------------------------- UTF-8

  /** The UTF-8 encoding of one code point (section 3.9 of The Unicode Standard). */
  function Utf8(c: char): (bs: seq<Byte>)
    ensures 1 <= |bs| <= 4
    ensures |bs| == 1 <==> c as int < 0x80
    ensures |bs| == 1 ==> bs[0] == c as int
  {
    var n := c as int;
    if n < 0x80 then [n]
    else if n < 0x800 then [0xC0 + n / 0x40, 0x80 + n % 0x40]
    else if n < 0x10000 then [0xE0 + n / 0x1000, 0x80 + (n / 0x40) % 0x40, 0x80 + n % 0x40]
    else [0xF0 + n / 0x40000, 0x80 + (n / 0x1000) % 0x40, 0x80 + (n / 0x40) % 0x40, 0x80 + n % 0x40]
  }

  /** The UTF-8 encoding of a whole string, as Node.js turns a string into bytes by default. */
  function Utf8String(s: string): (bs: seq<Byte>)
    ensures |bs| >= |s|
  {
    if |s| == 0 then [] else Utf8(s[0]) + Utf8String(s[1..])
  }

  /** The number of leading 1 bits of an octet: the length of the UTF-8 sequence it starts. */
  function LeadingOnes(b: Byte): (n: nat)
    ensures n <= 8
  {
    if b < 0x80 then 0
    else if b < 0xC0 then 1
    else if b < 0xE0 then 2
    else if b < 0xF0 then 3
    else if b < 0xF8 then 4
    else if b < 0xFC then 5
    else if b < 0xFE then 6
    else if b < 0xFF then 7
    else 8
  }

  /**
   * The code point a multi-octet UTF-8 sequence encodes, or None when the
   * octets are not a well-formed sequence (a bad continuation octet, an
   * overlong form, a surrogate, or a value past U+10FFFF).
   */
  function Utf8Decode(bs: seq<Byte>): (r: Option<char>)
    requires 2 <= |bs| <= 4 && LeadingOnes(bs[0]) == |bs|
  {
    if exists i | 1 <= i < |bs| :: !(0x80 <= bs[i] < 0xC0) then None
    else
      var b: seq<int> := bs;
      var cp :=
        if |b| == 2 then (b[0] - 0xC0) * 0x40 + (b[1] - 0x80)
        else if |b| == 3 then (b[0] - 0xE0) * 0x1000 + (b[1] - 0x80) * 0x40 + (b[2] - 0x80)
        else (b[0] - 0xF0) * 0x40000 + (b[1] - 0x80) * 0x1000 + (b[2] - 0x80) * 0x40 + (b[3] - 0x80);
      var least: int := if |bs| == 2 then 0x80 else if |bs| == 3 then 0x800 else 0x10000;
      if cp < least || 0x10FFFF < cp || (0xD800 <= cp && cp <= 0xDFFF) then None
      else Some(cp as char)
  }

  lemma DivMod64(n: int)
    requires 0 <= n
    ensures n == (n / 0x40) * 0x40 + n % 0x40
    ensures (n / 0x40) / 0x40 == n / 0x1000
    ensures (n / 0x1000) / 0x40 == n / 0x40000
  {
  }

  lemma Utf8RoundTrip(c: char)
    requires c as int >= 0x80
    ensures LeadingOnes(Utf8(c)[0]) == |Utf8(c)|
    ensures Utf8Decode(Utf8(c)) == Some(c)
  {
    var n := c as int;
    DivMod64(n);
    DivMod64(n / 0x40);
    DivMod64(n / 0x1000);
  }

  // ---------------------------------------------------------------- encodeURIComponent

  /** The escape `%XY` of one octet, with upper-case hexadecimal digits. */
  function Escape(b: Byte): string {
    ['%', HexDigit(b / 16), HexDigit(b % 16)]
  }

  function PercentOctets(bs: seq<Byte>): (r: string)
    ensures |r| == 3 * |bs|
  {
    if |bs| == 0 then "" else Escape(bs[0]) + PercentOctets(bs[1..])
  }

  /**
   * Text in which every character is unreserved or `%`, and every `%`
   * starts an escape `%XY` of two upper-case hexadecimal digits.
   */
  predicate Escaped(t: string) {
    && (forall i | 0 <= i < |t| :: IsUnreserved(t[i]) || t[i] == '%')
    && (forall i | 0 <= i < |t| && t[i] == '%' :: i + 2 < |t| && IsUpperHex(t[i + 1]) && IsUpperHex(t[i + 2]))
  }

  lemma EscapedConcat(a: string, b: string)
    requires Escaped(a) && Escaped(b)
    ensures Escaped(a + b)
  {
    var t := a + b;
    forall i | 0 <= i < |t| && t[i] == '%'
      ensures i + 2 < |t| && IsUpperHex(t[i + 1]) && IsUpperHex(t[i + 2])
    {
      if i >= |a| {
        assert b[i - |a|] == '%';
      }
    }
  }

  lemma {:induction false} PercentOctetsEscaped(bs: seq<Byte>)
    ensures Escaped(PercentOctets(bs))
  {
    if |bs| > 0 {
      PercentOctetsEscaped(bs[1..]);
      EscapedConcat(Escape(bs[0]), PercentOctets(bs[1..]));
    }
  }

  /** What `encodeURIComponent` writes for one character. */
  function EncodeChar(c: char): (r: string)
    ensures Escaped(r)
  {
    if IsUnreserved(c) then [c]
    else PercentOctetsEscaped(Utf8(c)); PercentOctets(Utf8(c))
  }

  /** On ASCII, a character is either kept or written as the single escape of its code. */
  lemma EncodeCharAscii(c: char)
    requires c as int < 0x80
    ensures EncodeChar(c) == if IsUnreserved(c) then [c] else ['%', HexDigit(c as int / 16), HexDigit(c as int % 16)]
  {
  }

  /** `encodeURIComponent(s)`: total on strings of scalar values, and its result is escaped text. */
  function EncodeURIComponent(s: string): (r: string)
    ensures Escaped(r)
  {
    if |s| == 0 then ""
    else
      var rest := EncodeURIComponent(s[1..]);
      EscapedConcat(EncodeChar(s[0]), rest);
      EncodeChar(s[0]) + rest
  }

  /** No separator of a query string or parameter string survives `encodeURIComponent`. */
  lemma EscapedHasNoSeparators(t: string)
    requires Escaped(t)
    ensures '&' !in t && '=' !in t && ',' !in t && '"' !in t && '?' !in t
  {
    forall i | 0 <= i < |t|
      ensures t[i] != '&' && t[i] != '=' && t[i] != ',' && t[i] != '"' && t[i] != '?'
    {
      assert IsUnreserved(t[i]) || t[i] == '%';
    }
  }

  // ---------------------------------------------------------------- decodeURIComponent

  /** The octet written by the escape `%XY` at the start of `s`, if there is one there. */
  function ReadOctet(s: string): (r: Option<Byte>)
    ensures r.Some? ==> |s| >= 3 && s[0] == '%' && IsHexDigit(s[1]) && IsHexDigit(s[2])
  {
    if |s| >= 3 && s[0] == '%' && IsHexDigit(s[1]) && IsHexDigit(s[2])
    then Some(HexValue(s[1]) * 16 + HexValue(s[2]))
    else None
  }

  /** The octets of `n` consecutive escapes at the start of `s`. */
  function ReadOctets(s: string, n: nat): (r: Option<seq<Byte>>)
    ensures r.Some? ==> |r.value| == n && 3 * n <= |s|
    ensures r.Some? && n > 0 ==> ReadOctet(s) == Some(r.value[0])
  {
    if n == 0 then Some([])
    else match ReadOctet(s)
      case None => None
      case Some(b) =>
        match ReadOctets(s[3..], n - 1)
        case None => None
        case Some(bs) => Some([b] + bs)
  }

  /**
   * Decodes the escape sequence at the start of `s` (which starts with `%`):
   * the character it stands for and the number of characters it takes,
   * or None where ECMA-262 throws a URIError.
   */
  function DecodeEscape(s: string): (r: Option<(char, nat)>)
    ensures r.Some? ==> 3 <= r.value.1 <= |s|
  {
    match ReadOctet(s)
    case None => None
    case Some(b) =>
      var n := LeadingOnes(b);
      if n == 0 then Some((b as char, 3))
      else if n == 1 || n > 4 then None
      else match ReadOctets(s, n)
        case None => None
        case Some(octets) =>
          match Utf8Decode(octets)
          case None => None
          case Some(c) => Some((c, 3 * n))
  }

  /** `decodeURIComponent(s)`, None where it throws a URIError. */
  function DecodeURIComponent(s: string): (r: Option<string>)
    ensures '%' !in s ==> r == Some(s)
    ensures r.Some? ==> |r.value| <= |s|
    decreases |s|
  {
    if |s| == 0 then Some("")
    else if s[0] != '%' then
      match DecodeURIComponent(s[1..])
      case None => None
      case Some(t) => assert s == [s[0]] + s[1..]; Some([s[0]] + t)
    else
      match DecodeEscape(s)
      case None => None
      case Some((c, len)) =>
        match DecodeURIComponent(s[len..])
        case None => None
        case Some(t) => Some([c] + t)
  }

  lemma {:induction false} ReadOctetsOfEscapes(bs: seq<Byte>, rest: string)
    ensures ReadOctets(PercentOctets(bs) + rest, |bs|) == Some(bs)
  {
    if |bs| > 0 {
      var s := PercentOctets(bs) + rest;
      var b := bs[0];
      HexValueOfDigit(b / 16);
      HexValueOfDigit(b % 16);
      assert s[..3] == Escape(b);
      assert ReadOctet(s) == Some(b);
      assert s[3..] == PercentOctets(bs[1..]) + rest;
      ReadOctetsOfEscapes(bs[1..], rest);
      assert [b] + bs[1..] == bs;
    }
  }

  /** The escapes `encodeURIComponent` writes for a character decode back to it. */
  lemma DecodeEscapeOfChar(c: char, rest: string)
    requires !IsUnreserved(c)
    ensures DecodeEscape(EncodeChar(c) + rest) == Some((c, |EncodeChar(c)|))
  {
    var bs := Utf8(c);
    var s := PercentOctets(bs) + rest;
    ReadOctetsOfEscapes(bs, rest);
    if c as int >= 0x80 {
      Utf8RoundTrip(c);
    }
  }

  /** The escapes of a character's UTF-8 octets decode to that character, whatever follows. */
  lemma DecodeOctetsThen(c: char, rest: string)
    ensures DecodeURIComponent(PercentOctets(Utf8(c)) + rest) ==
      match DecodeURIComponent(rest)
      case Some(t) => Some([c] + t)
      case None => None
  {
    var bs := Utf8(c);
    var s := PercentOctets(bs) + rest;
    ReadOctetsOfEscapes(bs, rest);
    if c as int >= 0x80 {
      Utf8RoundTrip(c);
    }
    assert s[0] == '%';
    assert DecodeEscape(s) == Some((c, 3 * |bs|));
    assert s[3 * |bs|..] == rest;
  }

  /** A character other than `%` decodes to itself, whatever follows. */
  lemma DecodeLiteralThen(c: char, rest: string)
    requires c != '%'
    ensures DecodeURIComponent([c] + rest) ==
      match DecodeURIComponent(rest)
      case Some(t) => Some([c] + t)
      case None => None
  {
    assert ([c] + rest)[1..] == rest;
  }

  /** Round trip: `decodeURIComponent(encodeURIComponent(s)) === s` for every string. */
  lemma {:induction false} DecodeEncode(s: string)
    ensures DecodeURIComponent(EncodeURIComponent(s)) == Some(s)
  {
    if |s| > 0 {
      var c := s[0];
      var rest := EncodeURIComponent(s[1..]);
      var t := EncodeChar(c) + rest;
      assert EncodeURIComponent(s) == t;
      DecodeEncode(s[1..]);
      if IsUnreserved(c) {
        assert t[0] == c && t[1..] == rest;
      } else {
        DecodeEscapeOfChar(c, rest);
        assert t[0] == '%';
        assert t[|EncodeChar(c)|..] == rest;
      }
      assert [c] + s[1..] == s;
    }
  }

  /** Every `%` that `ReadOctets` consumed starts two hexadecimal digits. */
  lemma {:induction false} ReadOctetsWellFormed(s: string, n: nat)
    requires ReadOctets(s, n).Some?
    ensures forall i | 0 <= i < 3 * n && s[i] == '%' :: i + 2 < |s| && IsHexDigit(s[i + 1]) && IsHexDigit(s[i + 2])
  {
    if n > 0 {
      ReadOctetsWellFormed(s[3..], n - 1);
      forall i | 0 <= i < 3 * n && s[i] == '%'
        ensures i + 2 < |s| && IsHexDigit(s[i + 1]) && IsHexDigit(s[i + 2])
      {
        if i >= 3 {
          assert s[3..][i - 3] == '%';
        }
      }
    }
  }

  /**
   * `decodeURIComponent` throws unless every `%` of its argument is followed by
   * two hexadecimal digits.
   */
  lemma {:induction false} DecodeNeedsWellFormedEscapes(s: string)
    requires DecodeURIComponent(s).Some?
    ensures forall i | 0 <= i < |s| && s[i] == '%' :: i + 2 < |s| && IsHexDigit(s[i + 1]) && IsHexDigit(s[i + 2])
    decreases |s|
  {
    if |s| > 0 {
      var len := if s[0] != '%' then 1 else DecodeEscape(s).value.1;
      DecodeNeedsWellFormedEscapes(s[len..]);
      if s[0] == '%' {
        var b := ReadOctet(s).value;
        var n := LeadingOnes(b);
        if n == 0 {
          assert len == 3;
        } else {
          assert len == 3 * n;
          ReadOctetsWellFormed(s, n);
        }
      }
      forall i | 0 <= i < |s| && s[i] == '%'
        ensures i + 2 < |s| && IsHexDigit(s[i + 1]) && IsHexDigit(s[i + 2])
      {
        if i >= len {
          assert s[len..][i - len] == '%';
        }
      }
    }
  }

  /** Malformed escapes and invalid UTF-8 make `decodeURIComponent` throw. */
  lemma DecodeRejects()
    ensures DecodeURIComponent("%") == None
    ensures DecodeURIComponent("a%2") == None
    ensures DecodeURIComponent("%zz") == None
    ensures DecodeURIComponent("%FF") == None
    ensures DecodeURIComponent("%C0%AF") == None
    ensures DecodeURIComponent("%E3%81") == None
  {
    DecodeNeedsWellFormedEscapesContra("%", 0);
    DecodeNeedsWellFormedEscapesContra("a%2", 1);
    DecodeNeedsWellFormedEscapesContra("%zz", 0);
    RejectsContinuationLead();
    RejectsOverlong();
    RejectsTruncated();
  }

  lemma RejectsContinuationLead()
    ensures DecodeURIComponent("%FF") == None
  {
    assert ReadOctet("%FF") == Some(255);
  }

  lemma RejectsOverlong()
    ensures DecodeURIComponent("%C0%AF") == None
  {
    assert ReadOctet("%C0%AF") == Some(0xC0);
    assert "%C0%AF"[3..] == "%AF";
    assert ReadOctet("%AF") == Some(0xAF);
    var empty: seq<Byte> := [];
    assert "%AF"[3..] == "";
    assert ReadOctets("", 0) == Some(empty);
    assert [0xAF as Byte] + empty == [0xAF];
    assert ReadOctets("%AF", 1) == Some([0xAF]);
    assert [0xC0 as Byte] + [0xAF] == [0xC0, 0xAF];
    assert ReadOctets("%C0%AF", 2) == Some([0xC0, 0xAF]);
  }

  lemma RejectsTruncated()
    ensures DecodeURIComponent("%E3%81") == None
  {
    assert ReadOctet("%E3%81") == Some(0xE3);
  }

  lemma DecodeNeedsWellFormedEscapesContra(s: string, i: nat)
    requires i < |s| && s[i] == '%'
    requires !(i + 2 < |s| && IsHexDigit(s[i + 1]) && IsHexDigit(s[i + 2]))
    ensures DecodeURIComponent(s) == None
  {
    if DecodeURIComponent(s).Some? {
      DecodeNeedsWellFormedEscapes(s);
    }
  }
}
