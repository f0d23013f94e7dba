/**
 Percent-encoding as `urllib.parse` does it: `quote` and `quote_plus` on the
 way out (the search URL), `unquote` on the way back (a place name taken
 from a Google Maps URL).
 */
module Percent {
  import opened Text
  import opened Utf8

  /** The bytes `quote` never escapes: ASCII letters, digits and `_.-~`. */
  predicate Unreserved(b: Byte) {
    var c := b as char;
    IsAsciiLetter(c) || IsDigit(c) || c == '_' || c == '.' || c == '-' || c == '~'
  }

  /** `quote(s)` keeps its default safe character `/`; `quote_plus(s)` has
      no safe character and writes a space as `+`. */
  datatype Flavour = PathQuote | FormQuote

  const HexDigits: string := "0123456789ABCDEF"

  /** How one byte of the UTF-8 encoding is written. */
  function QuoteByte(b: Byte, f: Flavour): (r: string)
    ensures |r| == 1 || |r| == 3
  {
    if Unreserved(b) || (f == PathQuote && b == 0x2F) then [b as char]
    else if f == FormQuote && b == 0x20 then "+"
    else ['%', HexDigits[b / 16], HexDigits[b % 16]]
  }

  function QuoteBytes(bs: seq<Byte>, f: Flavour): (r: string)
    ensures |r| >= |bs|
  {
    if |bs| == 0 then "" else QuoteByte(bs[0], f) + QuoteBytes(bs[1..], f)
  }

  /** `quote(s)` */
  function Quote(s: string): (r: string) {
    QuoteBytes(Encode(s), PathQuote)
  }

  /** `quote_plus(s)` */
  function QuotePlus(s: string): (r: string) {
    QuoteBytes(Encode(s), FormQuote)
  }

  predicate IsHex(c: char) {
    IsDigit(c) || 'a' <= c <= 'f' || 'A' <= c <= 'F'
  }

  function HexValue(c: char): (v: nat)
    requires IsHex(c)
    ensures v < 16
  {
    if IsDigit(c) then c as int - '0' as int
    else if 'a' <= c <= 'f' then c as int - 'a' as int + 10
    else c as int - 'A' as int + 10
  }

  predicate IsAscii(t: string) {
    forall j :: 0 <= j < |t| ==> InClass(AsciiClass, t[j])
  }

  /** `unquote_to_bytes` of an ASCII run: `%` and two hex digits is the byte
      they spell, anything else (a lone `%` included) is its own byte. */
  function PercentBytes(t: string): (r: seq<Byte>)
    requires IsAscii(t)
    ensures |r| <= |t|
  {
    if |t| == 0 then []
    else if t[0] == '%' && |t| >= 3 && IsHex(t[1]) && IsHex(t[2]) then
      [HexValue(t[1]) * 16 + HexValue(t[2])] + PercentBytes(t[3..])
    else
      [t[0] as int] + PercentBytes(t[1..])
  }

  /** The loop of `unquote` over the split of `s` into ASCII runs: each
      maximal ASCII run is percent-decoded and then decoded as UTF-8 with
      replacement, every other character is kept. */
  function UnquoteRuns(s: string): (r: string)
    decreases |s|
  {
    if |s| == 0 then ""
    else if !InClass(AsciiClass, s[0]) then [s[0]] + UnquoteRuns(s[1..])
    else
      var e := RunEnd(AsciiClass, s, 0);
      Decode(PercentBytes(s[..e])) + UnquoteRuns(s[e..])
  }

  /** `unquote(s)`: a text without `%` is returned as it is. */
  function Unquote(s: string): (r: string) {
    if '%' !in s then s else UnquoteRuns(s)
  }

  /** `unquote(raw.replace('+', ' '))`: how a place name is read back from
      a Google Maps URL. */
  function DecodePlaceName(raw: string): (r: string) {
    Unquote(ReplaceChar(raw, '+', ' '))
  }

  // Properties

  lemma HexDigit(v: nat)
    requires v < 16
    ensures IsHex(HexDigits[v]) && HexValue(HexDigits[v]) == v
  {
  }

  /** What `quote` writes is ASCII, and has a `+` only where `quote_plus`
      wrote a space. */
  lemma QuoteByteShape(b: Byte, f: Flavour)
    ensures IsAscii(QuoteByte(b, f))
    ensures f == PathQuote ==> '+' !in QuoteByte(b, f)
    ensures f == FormQuote ==> ('+' in QuoteByte(b, f) <==> b == 0x20)
    ensures f == FormQuote ==> ' ' !in QuoteByte(b, f)
    ensures f == FormQuote ==> '/' !in QuoteByte(b, f) && '@' !in QuoteByte(b, f)
  {
    if !Unreserved(b) && !(f == PathQuote && b == 0x2F) && !(f == FormQuote && b == 0x20) {
      HexDigit(b / 16);
      HexDigit(b % 16);
    }
  }

  lemma AsciiConcat(a: string, b: string)
    requires IsAscii(a) && IsAscii(b)
    ensures IsAscii(a + b)
  {
    assert forall j :: |a| <= j < |a + b| ==> (a + b)[j] == b[j - |a|];
  }

  lemma {:induction false} QuoteBytesAscii(bs: seq<Byte>, f: Flavour)
    ensures IsAscii(QuoteBytes(bs, f))
  {
    if |bs| > 0 {
      QuoteByteShape(bs[0], f);
      QuoteBytesAscii(bs[1..], f);
      AsciiConcat(QuoteByte(bs[0], f), QuoteBytes(bs[1..], f));
    }
  }

  /** What `quote_plus` writes has neither `/` nor `@`, so it fits a
      `[^/@]+` segment of a URL path when it is not empty. */
  lemma {:induction false} QuotePlusSegment(bs: seq<Byte>)
    ensures forall j :: 0 <= j < |QuoteBytes(bs, FormQuote)| ==> InClass(SegmentClass, QuoteBytes(bs, FormQuote)[j])
  {
    if |bs| > 0 {
      var q := QuoteByte(bs[0], FormQuote);
      var rest := QuoteBytes(bs[1..], FormQuote);
      QuoteByteShape(bs[0], FormQuote);
      QuotePlusSegment(bs[1..]);
      assert forall j :: |q| <= j < |q + rest| ==> (q + rest)[j] == rest[j - |q|];
    }
  }

  /** Percent-decoding reads back one quoted byte, whatever follows. */
  lemma PercentBytesQuoteByte(b: Byte, rest: string)
    requires IsAscii(rest)
    ensures IsAscii(QuoteByte(b, PathQuote) + rest)
    ensures PercentBytes(QuoteByte(b, PathQuote) + rest) == [b] + PercentBytes(rest)
  {
    var q := QuoteByte(b, PathQuote);
    QuoteByteShape(b, PathQuote);
    AsciiConcat(q, rest);
    var t := q + rest;
    if |q| == 1 {
      assert t[1..] == rest;
    } else {
      HexDigit(b / 16);
      HexDigit(b % 16);
      assert t[3..] == rest;
    }
  }

  /** Percent-decoding inverts `quote` at the byte level. */
  lemma {:induction false} PercentBytesQuoteBytes(bs: seq<Byte>)
    ensures IsAscii(QuoteBytes(bs, PathQuote))
    ensures PercentBytes(QuoteBytes(bs, PathQuote)) == bs
  {
    QuoteBytesAscii(bs, PathQuote);
    if |bs| > 0 {
      QuoteBytesAscii(bs[1..], PathQuote);
      PercentBytesQuoteBytes(bs[1..]);
      PercentBytesQuoteByte(bs[0], QuoteBytes(bs[1..], PathQuote));
    }
  }

  /** An ASCII text is one run: `unquote` decodes it as a whole. */
  lemma UnquoteRunsAscii(t: string)
    requires IsAscii(t)
    ensures UnquoteRuns(t) == Decode(PercentBytes(t))
  {
    if |t| > 0 {
      RunEndUnique(AsciiClass, t, 0, |t|);
      assert t[..|t|] == t;
    }
  }

  /** `unquote(quote(s)) == s` for every text. */
  lemma UnquoteQuote(s: string)
    ensures Unquote(Quote(s)) == s
  {
    var q := Quote(s);
    PercentBytesQuoteBytes(Encode(s));
    UnquoteRunsAscii(q);
    DecodeEncode(s);
    if '%' !in q {
      UnquoteRunsIdentity(q);
    }
  }

  /** Without a `%`, percent-decoding an ASCII run just reads its bytes. */
  lemma {:induction false} PercentBytesPlain(t: string)
    requires IsAscii(t) && '%' !in t
    ensures PercentBytes(t) == Encode(t)
  {
    if |t| > 0 {
      PercentBytesPlain(t[1..]);
    }
  }

  /** The early return of `unquote` changes nothing: without a `%` the
      run-by-run decoding gives the text back too. */
  lemma {:induction false} UnquoteRunsIdentity(s: string)
    requires '%' !in s
    ensures UnquoteRuns(s) == s
    decreases |s|
  {
    if |s| > 0 {
      if !InClass(AsciiClass, s[0]) {
        assert '%' !in s[1..];
        UnquoteRunsIdentity(s[1..]);
      } else {
        var e := RunEnd(AsciiClass, s, 0);
        var run := s[..e];
        assert '%' !in run && '%' !in s[e..];
        assert s == run + s[e..];
        PercentBytesPlain(run);
        DecodeEncode(run);
        UnquoteRunsIdentity(s[e..]);
      }
    }
  }

  lemma UnquoteIsUnquoteRuns(s: string)
    ensures Unquote(s) == UnquoteRuns(s)
  {
    if '%' !in s {
      UnquoteRunsIdentity(s);
    }
  }

  lemma ReplaceCharConcat(a: string, b: string, x: char, y: char)
    ensures ReplaceChar(a + b, x, y) == ReplaceChar(a, x, y) + ReplaceChar(b, x, y)
  {
    var l := ReplaceChar(a + b, x, y);
    var r := ReplaceChar(a, x, y) + ReplaceChar(b, x, y);
    assert |l| == |r|;
    forall j | 0 <= j < |l| ensures l[j] == r[j] {
      if j >= |a| {
        assert (a + b)[j] == b[j - |a|];
      }
    }
  }

  /** Undoing the `+` of one `quote_plus` byte gives what `quote` would
      write for it with a space allowed through. */
  lemma PercentBytesPlusByte(b: Byte, rest: string)
    requires IsAscii(rest)
    ensures IsAscii(ReplaceChar(QuoteByte(b, FormQuote), '+', ' ') + rest)
    ensures PercentBytes(ReplaceChar(QuoteByte(b, FormQuote), '+', ' ') + rest) == [b] + PercentBytes(rest)
  {
    var q := QuoteByte(b, FormQuote);
    var p := ReplaceChar(q, '+', ' ');
    QuoteByteShape(b, FormQuote);
    assert IsAscii(p);
    AsciiConcat(p, rest);
    var t := p + rest;
    if |q| == 1 {
      assert t[1..] == rest;
    } else {
      HexDigit(b / 16);
      HexDigit(b % 16);
      assert p == q;
      assert t[3..] == rest;
    }
  }

  lemma {:induction false} PercentBytesQuotePlus(bs: seq<Byte>)
    ensures IsAscii(ReplaceChar(QuoteBytes(bs, FormQuote), '+', ' '))
    ensures PercentBytes(ReplaceChar(QuoteBytes(bs, FormQuote), '+', ' ')) == bs
  {
    if |bs| == 0 {
    } else {
      var q := QuoteByte(bs[0], FormQuote);
      var rest := QuoteBytes(bs[1..], FormQuote);
      ReplaceCharConcat(q, rest, '+', ' ');
      PercentBytesQuotePlus(bs[1..]);
      PercentBytesPlusByte(bs[0], ReplaceChar(rest, '+', ' '));
    }
  }

  /** A place name written the way `quote_plus` writes it is read back
      unchanged. */
  lemma DecodePlaceNameQuotePlus(name: string)
    ensures DecodePlaceName(QuotePlus(name)) == name
  {
    var t := ReplaceChar(QuotePlus(name), '+', ' ');
    PercentBytesQuotePlus(Encode(name));
    UnquoteRunsAscii(t);
    UnquoteIsUnquoteRuns(t);
    DecodeEncode(name);
  }
}
