/**
 UTF-8 as Python's `str.encode('utf-8')` and `bytes.decode('utf-8',
 'replace')` use it. Decoding replaces each maximal ill-formed subpart
 (a byte that cannot start a sequence, or the longest prefix of a sequence
 that cannot be completed) with U+FFFD, as recommended in section 3.9 of the
 Unicode Standard.
 */
module Utf8 {

  type Byte = b: int | 0 <= b < 256

  const Replacement: char := '\U{FFFD}'

  /** The UTF-8 encoding of one character. */
  function EncodeChar(c: char): (r: seq<Byte>)
    ensures 1 <= |r| <= 4
    ensures |r| == 1 <==> c as int < 0x80
    ensures |r| == 1 ==> r[0] == c as int
    ensures forall k :: 1 <= k < |r| ==> 0x80 <= r[k] < 0xC0
  {
    var n := c as int;
    if n < 0x80 then [n]
    else if n < 0x800 then [0xC0 + n / 64, 0x80 + n % 64]
    else if n < 0x1_0000 then [0xE0 + n / 4096, 0x80 + (n / 64) % 64, 0x80 + n % 64]
    else [0xF0 + n / 262144, 0x80 + (n / 4096) % 64, 0x80 + (n / 64) % 64, 0x80 + n % 64]
  }

  /** `s.encode('utf-8')` */
  function Encode(s: string): (r: seq<Byte>)
    ensures |r| >= |s|
  {
    if |s| == 0 then [] else EncodeChar(s[0]) + Encode(s[1..])
  }

  predicate IsCont(b: Byte) {
    0x80 <= b < 0xC0
  }

  /** The length of the sequence a byte starts, 0 for a byte that starts none. */
  function SequenceLength(b: Byte): (r: nat) {
    if b < 0x80 then 1
    else if 0xC2 <= b <= 0xDF then 2
    else if 0xE0 <= b <= 0xEF then 3
    else if 0xF0 <= b <= 0xF4 then 4
    else 0
  }

  /** The second byte a lead byte admits: narrower than a continuation byte
      after E0, ED, F0 and F4, which rules out overlong forms, surrogates
      and values past U+10FFFF. */
  predicate SecondOk(b0: Byte, b1: Byte) {
    if b0 == 0xE0 then 0xA0 <= b1 <= 0xBF
    else if b0 == 0xED then 0x80 <= b1 <= 0x9F
    else if b0 == 0xF0 then 0x90 <= b1 <= 0xBF
    else if b0 == 0xF4 then 0x80 <= b1 <= 0x8F
    else IsCont(b1)
  }

  /** How many bytes from the front of `bs` form a well-formed sequence or
      a prefix of one, for a multi-byte lead. */
  function ValidPrefix(bs: seq<Byte>): (k: nat)
    requires |bs| > 0 && SequenceLength(bs[0]) >= 2
    ensures 1 <= k <= SequenceLength(bs[0]) && k <= |bs|
  {
    var n := SequenceLength(bs[0]);
    if |bs| < 2 || !SecondOk(bs[0], bs[1]) then 1
    else if n == 2 || |bs| < 3 || !IsCont(bs[2]) then 2
    else if n == 3 || |bs| < 4 || !IsCont(bs[3]) then 3
    else 4
  }

  /** The value a well-formed multi-byte sequence at the front of `bs`
      encodes: the payload bits of its bytes, most significant first. */
  function Payload(bs: seq<Byte>, n: nat): (r: int)
    requires 2 <= n <= 4 && n <= |bs|
  {
    var b0 := bs[0] as int;
    var b1 := bs[1] as int - 0x80;
    if n == 2 then (b0 - 0xC0) * 64 + b1
    else
      var b2 := bs[2] as int - 0x80;
      if n == 3 then (b0 - 0xE0) * 4096 + b1 * 64 + b2
      else (b0 - 0xF0) * 262144 + b1 * 4096 + b2 * 64 + (bs[3] as int - 0x80)
  }

  /** The first character `bs` decodes to and the number of bytes it takes. */
  function DecodeStep(bs: seq<Byte>): (r: (char, nat))
    requires |bs| > 0
    ensures 1 <= r.1 <= |bs|
    ensures r.1 > 1 ==> SequenceLength(bs[0]) >= 2
  {
    var n := SequenceLength(bs[0]);
    if n == 1 then (bs[0] as char, 1)
    else if n == 0 then (Replacement, 1)
    else
      var k := ValidPrefix(bs);
      if k < n then (Replacement, k)
      else (Payload(bs, n) as char, n)
  }

  /** `bytes(bs).decode('utf-8', 'replace')` */
  function Decode(bs: seq<Byte>): (r: string)
    ensures |r| <= |bs|
    decreases |bs|
  {
    if |bs| == 0 then ""
    else
      var (c, k) := DecodeStep(bs);
      [c] + Decode(bs[k..])
  }

  /** Splitting a value into 6-bit groups and putting them back together. */
  lemma SixBits(n: nat)
    ensures n == (n / 64) * 64 + n % 64
    ensures n / 4096 == (n / 64) / 64
    ensures n / 262144 == (n / 4096) / 64
  {
  }

  lemma DecodeTwo(c: char, rest: seq<Byte>)
    requires 0x80 <= c as int < 0x800
    ensures DecodeStep(EncodeChar(c) + rest) == (c, 2)
  {
    var n := c as int;
    var bs := EncodeChar(c) + rest;
    SixBits(n);
    assert bs[0] == 0xC0 + n / 64 && bs[1] == 0x80 + n % 64;
  }

  lemma DecodeThree(c: char, rest: seq<Byte>)
    requires 0x800 <= c as int < 0x1_0000
    ensures DecodeStep(EncodeChar(c) + rest) == (c, 3)
  {
    var n := c as int;
    var bs := EncodeChar(c) + rest;
    SixBits(n);
    SixBits(n / 64);
    assert bs[0] == 0xE0 + n / 4096 && bs[1] == 0x80 + (n / 64) % 64 && bs[2] == 0x80 + n % 64;
  }

  lemma DecodeFour(c: char, rest: seq<Byte>)
    requires 0x1_0000 <= c as int
    ensures DecodeStep(EncodeChar(c) + rest) == (c, 4)
  {
    var n := c as int;
    var bs := EncodeChar(c) + rest;
    SixBits(n);
    SixBits(n / 64);
    SixBits(n / 4096);
    assert bs[0] == 0xF0 + n / 262144 && bs[1] == 0x80 + (n / 4096) % 64;
    assert bs[2] == 0x80 + (n / 64) % 64 && bs[3] == 0x80 + n % 64;
  }

  /** Decoding the encoding of a character gives the character back and
      consumes exactly its bytes, whatever follows. */
  lemma DecodeStepEncodeChar(c: char, rest: seq<Byte>)
    ensures DecodeStep(EncodeChar(c) + rest) == (c, |EncodeChar(c)|)
  {
    var n := c as int;
    if n < 0x80 {
    } else if n < 0x800 {
      DecodeTwo(c, rest);
    } else if n < 0x1_0000 {
      DecodeThree(c, rest);
    } else {
      DecodeFour(c, rest);
    }
  }

  /** Decoding inverts encoding. */
  lemma {:induction false} DecodeEncode(s: string)
    ensures Decode(Encode(s)) == s
  {
    if |s| > 0 {
      var e := EncodeChar(s[0]);
      DecodeStepEncodeChar(s[0], Encode(s[1..]));
      assert (e + Encode(s[1..]))[|e|..] == Encode(s[1..]);
      DecodeEncode(s[1..]);
    }
  }
}
