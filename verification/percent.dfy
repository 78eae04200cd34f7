/** `urllib.parse.quote(x, safe='')`, the encoding every local link target
    goes through: percent-encoding as in section 2.1 of RFC 3986, which
    leaves only the unreserved characters of section 2.3 (ALPHA, DIGIT,
    "-", ".", "_", "~") as they are and writes every other character as the
    "%XX" escapes, upper-case hexadecimal, of its UTF-8 bytes.

    The partner is `unquote_to_bytes`, which reads the escapes back: decoding
    a quoted string yields exactly the UTF-8 encoding of the original.
 */
module Percent {
  import opened Wrappers
  import opened Seqs

  type Byte = b: int | 0 <= b < 256

  /** The unreserved set of section 2.3 of RFC 3986. */
  predicate Unreserved(c: char) {
    || ('A' <= c <= 'Z') || ('a' <= c <= 'z') || ('0' <= c <= '9')
    || c == '-' || c == '.' || c == '_' || c == '~'
  }

  const HexDigits: string := "0123456789ABCDEF"

  /** The value of a hexadecimal digit of either case. */
  function HexValue(c: char): (r: Option<nat>)
    ensures r.Some? ==> r.value < 16
    ensures r.Some? <==> ('0' <= c <= '9') || ('A' <= c <= 'F') || ('a' <= c <= 'f')
  {
    if '0' <= c <= '9' then Some(c as int - '0' as int)
    else if 'A' <= c <= 'F' then Some(c as int - 'A' as int + 10)
    else if 'a' <= c <= 'f' then Some(c as int - 'a' as int + 10)
    else None
  }

  /** The UTF-8 encoding of one Unicode scalar value. */
  function Utf8(c: char): (r: seq<Byte>)
    ensures 1 <= |r| <= 4
    ensures |r| == 1 <==> c as int < 0x80
    ensures |r| == 1 ==> r[0] == c as int
  {
    var n := c as int;
    if n < 0x80 then [n]
    else if n < 0x800 then [0xC0 + n / 64, 0x80 + n % 64]
    else if n < 0x1_0000 then [0xE0 + n / 4096, 0x80 + (n / 64) % 64, 0x80 + n % 64]
    else [0xF0 + n / 262144, 0x80 + (n / 4096) % 64, 0x80 + (n / 64) % 64, 0x80 + n % 64]
  }

  /** `s.encode("utf-8")`. */
  function Encode(s: string): (r: seq<Byte>)
    ensures |r| >= |s|
  {
    if |s| == 0 then [] else Utf8(s[0]) + Encode(s[1..])
  }

  /** "%XX" for one byte. */
  function Escape(b: Byte): (r: string)
    ensures |r| == 3 && r[0] == '%'
  {
    ['%', HexDigits[b / 16], HexDigits[b % 16]]
  }

  function EscapeAll(bs: seq<Byte>): (r: string)
    ensures |r| == 3 * |bs|
  {
    if |bs| == 0 then "" else Escape(bs[0]) + EscapeAll(bs[1..])
  }

  /** One character of the input, quoted. */
  function QuoteChar(c: char): string {
    if Unreserved(c) then [c] else EscapeAll(Utf8(c))
  }

  /** `quote(s, safe='')`. */
  function Quote(s: string): (r: string)
    ensures |r| >= |s|
  {
    if |s| == 0 then "" else QuoteChar(s[0]) + Quote(s[1..])
  }

  /** `unquote_to_bytes(s)`: a "%" and two hexadecimal digits of either case
      is one byte, any other "%" is itself, and every other character
      contributes its UTF-8 bytes. */
  function UnquoteToBytes(s: string): seq<Byte>
    decreases |s|
  {
    if |s| == 0 then []
    else if s[0] == '%' && |s| >= 3 && HexValue(s[1]).Some? && HexValue(s[2]).Some? then
      [HexValue(s[1]).value * 16 + HexValue(s[2]).value] + UnquoteToBytes(s[3..])
    else Utf8(s[0]) + UnquoteToBytes(s[1..])
  }

  /** The characters a quoted string is made of. */
  predicate QuotedAlphabet(c: char) {
    Unreserved(c) || c == '%'
  }

  lemma {:induction false} EscapeAllAlphabet(bs: seq<Byte>)
    ensures forall i :: 0 <= i < |EscapeAll(bs)| ==> QuotedAlphabet(EscapeAll(bs)[i])
  {
    if bs != [] {
      EscapeAllAlphabet(bs[1..]);
      var e := Escape(bs[0]);
      assert forall i :: 0 <= i < 3 ==> QuotedAlphabet(e[i]);
    }
  }

  /** Quoting leaves only unreserved characters and "%". */
  lemma {:induction false} QuoteAlphabet(s: string)
    ensures forall i :: 0 <= i < |Quote(s)| ==> QuotedAlphabet(Quote(s)[i])
  {
    if s != [] {
      QuoteAlphabet(s[1..]);
      if !Unreserved(s[0]) {
        EscapeAllAlphabet(Utf8(s[0]));
      }
    }
  }

  /** A quoted string holds none of the characters that delimit a Markdown
      link or a URL path. */
  lemma QuoteHasNoMarkup(s: string)
    ensures forall i :: 0 <= i < |Quote(s)| ==> Quote(s)[i] !in "![]()/: \t\n"
  {
    QuoteAlphabet(s);
    forall i | 0 <= i < |Quote(s)|
      ensures Quote(s)[i] !in "![]()/: \t\n"
    {
      AlphabetHasNoMarkup(Quote(s)[i]);
    }
  }

  lemma AlphabetHasNoMarkup(c: char)
    requires QuotedAlphabet(c)
    ensures c !in "![]()/: \t\n"
  {
  }

  /** Quoting is the identity exactly on strings made of unreserved
      characters. */
  lemma {:induction false} QuoteIdentity(s: string)
    ensures Quote(s) == s <==> forall i :: 0 <= i < |s| ==> Unreserved(s[i])
  {
    if s != [] {
      QuoteIdentity(s[1..]);
      if Unreserved(s[0]) {
        assert Quote(s) == [s[0]] + Quote(s[1..]);
        assert s == [s[0]] + s[1..];
        assert forall i :: 1 <= i < |s| ==> s[i] == s[1..][i - 1];
      } else {
        // The escapes of one character are longer than the character.
        assert |Quote(s)| == |EscapeAll(Utf8(s[0]))| + |Quote(s[1..])| >= 3 + |s| - 1;
      }
    }
  }

  /** Quoting works character by character. */
  lemma {:induction false} QuoteConcat(a: string, b: string)
    ensures Quote(a + b) == Quote(a) + Quote(b)
  {
    if |a| > 0 {
      QuoteConcat(a[1..], b);
      HeadTail(a, b);
      Assoc(QuoteChar(a[0]), Quote(a[1..]), Quote(b));
    } else {
      EmptyLeft(a, b);
      EmptyLeft(Quote(a), Quote(b));
    }
  }

  lemma HexRoundTrip(d: nat)
    requires d < 16
    ensures HexValue(HexDigits[d]) == Some(d)
  {
  }

  /** Decoding one escape gives the byte back. */
  lemma EscapeDecodes(b: Byte, rest: string)
    ensures UnquoteToBytes(Escape(b) + rest) == [b] + UnquoteToBytes(rest)
  {
    HexRoundTrip(b / 16);
    HexRoundTrip(b % 16);
    var s := Escape(b) + rest;
    DropPrefix(Escape(b), rest);
    assert s[0] == '%' && s[1] == HexDigits[b / 16] && s[2] == HexDigits[b % 16];
  }

  lemma {:induction false} EscapeAllDecodes(bs: seq<Byte>, rest: string)
    ensures UnquoteToBytes(EscapeAll(bs) + rest) == bs + UnquoteToBytes(rest)
  {
    if |bs| > 0 {
      EscapeAllDecodes(bs[1..], rest);
      Assoc(Escape(bs[0]), EscapeAll(bs[1..]), rest);
      EscapeDecodes(bs[0], EscapeAll(bs[1..]) + rest);
      Assoc([bs[0]], bs[1..], UnquoteToBytes(rest));
      Uncons(bs);
    } else {
      EmptyLeft(EscapeAll(bs), rest);
      EmptyLeft(bs, UnquoteToBytes(rest));
    }
  }

  /** `unquote_to_bytes(quote(s)) == s.encode("utf-8")`: quoting loses
      nothing. */
  lemma {:induction false} QuoteRoundTrip(s: string)
    ensures UnquoteToBytes(Quote(s)) == Encode(s)
  {
    if s != [] {
      QuoteRoundTrip(s[1..]);
      var c := s[0];
      if Unreserved(c) {
        var t := [c] + Quote(s[1..]);
        assert t[0] == c && t[1..] == Quote(s[1..]);
      } else {
        EscapeAllDecodes(Utf8(c), Quote(s[1..]));
      }
    }
  }

  /** Strings that quote alike have the same UTF-8 encoding. */
  lemma QuoteInjective(a: string, b: string)
    requires Quote(a) == Quote(b)
    ensures Encode(a) == Encode(b)
  {
    QuoteRoundTrip(a);
    QuoteRoundTrip(b);
  }
}
