/**
 * UTF-8 as RFC 3629 defines it: the encoder behind String.getBytes(UTF_8) and
 * the decoder behind new String(bytes, UTF_8). The decoder never fails; like
 * Java's, it puts U+FFFD in place of each maximal ill-formed subsequence.
 */
module Utf8 {

  type Byte = b: int | 0 <= b < 256

  const Replacement: char := '\U{FFFD}'

  /** The one-to-four byte form of a scalar value (RFC 3629 section 3). */
  function EncodeChar(c: char): (r: seq<Byte>)
    ensures 1 <= |r| <= 4
  {
    var n := c as int;
    if n < 0x80 then [n]
    else if n < 0x800 then [0xC0 + n / 64, 0x80 + n % 64]
    else if n < 0x10000 then [0xE0 + n / 4096, 0x80 + (n / 64) % 64, 0x80 + n % 64]
    else [0xF0 + n / 262144, 0x80 + (n / 4096) % 64, 0x80 + (n / 64) % 64, 0x80 + n % 64]
  }

  function Encode(s: string): seq<Byte>
    decreases |s|
  {
    if s == [] then [] else EncodeChar(s[0]) + Encode(s[1..])
  }

  predicate IsContinuation(b: Byte) {
    0x80 <= b < 0xC0
  }

  /** How many bytes the sequence a lead byte opens has; 0 for a byte that opens none. */
  function SequenceLength(b: Byte): nat {
    if b < 0x80 then 1
    else if 0xC2 <= b <= 0xDF then 2
    else if 0xE0 <= b <= 0xEF then 3
    else if 0xF0 <= b <= 0xF4 then 4
    else 0
  }

  /** The bounds on the second byte after a lead byte (RFC 3629 section 4), which
      exclude overlong forms, surrogates and values beyond U+10FFFF. */
  function SecondLow(b: Byte): Byte {
    if b == 0xE0 then 0xA0 else if b == 0xF0 then 0x90 else 0x80
  }

  function SecondHigh(b: Byte): Byte {
    if b == 0xED then 0x9F else if b == 0xF4 then 0x8F else 0xBF
  }

  /** How many leading bytes of `bs` still form the beginning of a well-formed
      sequence, stopping at the length its lead byte announces. */
  function WellFormedPrefix(bs: seq<Byte>): (k: nat)
    requires |bs| > 0 && SequenceLength(bs[0]) >= 2
    ensures 1 <= k <= SequenceLength(bs[0]) && k <= |bs|
  {
    var len := SequenceLength(bs[0]);
    if |bs| < 2 || !(SecondLow(bs[0]) <= bs[1] <= SecondHigh(bs[0])) then 1
    else if len == 2 || |bs| < 3 || !IsContinuation(bs[2]) then 2
    else if len == 3 || |bs| < 4 || !IsContinuation(bs[3]) then 3
    else 4
  }

  /** The first character of `bs` and how many bytes it takes. */
  function DecodeStep(bs: seq<Byte>): (r: (char, nat))
    requires |bs| > 0
    ensures 1 <= r.1 <= |bs|
  {
    var b0 := bs[0];
    var len := SequenceLength(b0);
    if len == 1 then (b0 as char, 1)
    else if len == 0 then (Replacement, 1)
    else
      var k := WellFormedPrefix(bs);
      if k < len then (Replacement, k)
      else if len == 2 then (((b0 as int - 0xC0) * 64 + (bs[1] as int - 0x80)) as char, 2)
      else if len == 3 then (((b0 as int - 0xE0) * 4096 + (bs[1] as int - 0x80) * 64 + (bs[2] as int - 0x80)) as char, 3)
      else (((b0 as int - 0xF0) * 262144 + (bs[1] as int - 0x80) * 4096 + (bs[2] as int - 0x80) * 64 + (bs[3] as int - 0x80)) as char, 4)
  }

  function Decode(bs: seq<Byte>): (s: string)
    ensures |s| <= |bs|
    ensures |bs| > 0 ==> |s| > 0
    decreases |bs|
  {
    if bs == [] then []
    else
      var step := DecodeStep(bs);
      [step.0] + Decode(bs[step.1..])
  }

  lemma DecodeTwo(n: int, rest: seq<Byte>)
    requires 0x80 <= n < 0x800
    ensures DecodeStep([0xC0 + n / 64, 0x80 + n % 64] + rest) == (n as char, 2)
  {
    var hi, lo := n / 64, n % 64;
    assert n == hi * 64 + lo;
    var bs: seq<Byte> := [0xC0 + hi, 0x80 + lo] + rest;
    assert SequenceLength(bs[0]) == 2;
    assert WellFormedPrefix(bs) == 2;
  }

  lemma DecodeThree(n: int, rest: seq<Byte>)
    requires 0x800 <= n < 0xD800 || 0xE000 <= n < 0x10000
    ensures DecodeStep([0xE0 + n / 4096, 0x80 + (n / 64) % 64, 0x80 + n % 64] + rest) == (n as char, 3)
  {
    var hi, mid, lo := n / 4096, (n / 64) % 64, n % 64;
    assert n / 64 == hi * 64 + mid;
    assert n == hi * 4096 + mid * 64 + lo;
    var bs: seq<Byte> := [0xE0 + hi, 0x80 + mid, 0x80 + lo] + rest;
    assert hi == 0 ==> mid >= 32;
    assert hi == 0xD ==> mid < 32;
    assert SequenceLength(bs[0]) == 3;
    assert SecondLow(bs[0]) <= bs[1] <= SecondHigh(bs[0]);
    assert WellFormedPrefix(bs) == 3;
  }

  lemma DecodeFour(n: int, rest: seq<Byte>)
    requires 0x10000 <= n < 0x110000
    ensures DecodeStep([0xF0 + n / 262144, 0x80 + (n / 4096) % 64, 0x80 + (n / 64) % 64, 0x80 + n % 64] + rest)
         == (n as char, 4)
  {
    var top, hi, mid, lo := n / 262144, (n / 4096) % 64, (n / 64) % 64, n % 64;
    assert n / 4096 == top * 64 + hi;
    assert n / 64 == (n / 4096) * 64 + mid;
    assert n == top * 262144 + hi * 4096 + mid * 64 + lo;
    var bs: seq<Byte> := [0xF0 + top, 0x80 + hi, 0x80 + mid, 0x80 + lo] + rest;
    assert top == 0 ==> hi >= 16;
    assert top == 4 ==> hi < 16;
    assert SequenceLength(bs[0]) == 4;
    assert SecondLow(bs[0]) <= bs[1] <= SecondHigh(bs[0]);
    assert WellFormedPrefix(bs) == 4;
  }

  /** Decoding the bytes of one character, whatever follows, yields that character. */
  lemma DecodeStepOfEncodeChar(c: char, rest: seq<Byte>)
    ensures DecodeStep(EncodeChar(c) + rest) == (c, |EncodeChar(c)|)
  {
    var n := c as int;
    if n < 0x80 {
    } else if n < 0x800 {
      DecodeTwo(n, rest);
    } else if n < 0x10000 {
      DecodeThree(n, rest);
    } else {
      DecodeFour(n, rest);
    }
  }

  /** Text survives a trip through its UTF-8 bytes. */
  lemma {:induction false} DecodeEncode(s: string)
    ensures Decode(Encode(s)) == s
    decreases |s|
  {
    if s != [] {
      var e := EncodeChar(s[0]);
      DecodeStepOfEncodeChar(s[0], Encode(s[1..]));
      assert (e + Encode(s[1..]))[|e|..] == Encode(s[1..]);
      DecodeEncode(s[1..]);
    }
  }

  /** A byte outside every well-formed sequence decodes to U+FFFD. */
  lemma StrayByteIsReplaced(b: Byte, rest: seq<Byte>)
    requires SequenceLength(b) == 0
    ensures Decode([b] + rest) == [Replacement] + Decode(rest)
  {
    assert ([b] + rest)[1..] == rest;
  }
}
