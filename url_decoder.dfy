/**
 * java.net.URLDecoder.decode(value, "utf-8"): percent-decoding as section 2.1
 * of RFC 3986 describes it, with '+' read as a space. Each maximal run of
 * "%xy" escapes is collected into bytes and those bytes are decoded as UTF-8.
 * A '%' that is not followed by two characters, or whose two characters are
 * not a number Integer.parseInt(.., 16) accepts with a non-negative value,
 * makes the decoder throw IllegalArgumentException; that is the None result.
 */
module UrlDecoder {
  import opened Wrappers
  import Utf8

  type Byte = Utf8.Byte

  /** Character.digit(c, 16) on ASCII characters. */
  function HexValue(c: char): (r: Option<nat>)
    ensures r.Some? ==> r.value < 16
  {
    if '0' <= c <= '9' then Some(c as int - '0' as int)
    else if 'a' <= c <= 'f' then Some(c as int - 'a' as int + 10)
    else if 'A' <= c <= 'F' then Some(c as int - 'A' as int + 10)
    else None
  }

  /** The byte an escape "%c1c2" stands for. Integer.parseInt accepts a sign in
      front of one digit: "+d" is the digit d, and "-0" is 0, while every other
      negative value is rejected by the decoder's own check. */
  function EscapeValue(c1: char, c2: char): Option<Byte> {
    var lo := HexValue(c2);
    if c1 == '+' then (if lo.Some? then Some(lo.value) else None)
    else if c1 == '-' then (if lo == Some(0) then Some(0) else None)
    else
      var hi := HexValue(c1);
      if hi.Some? && lo.Some? then Some(hi.value * 16 + lo.value) else None
  }

  /** The bytes of the run of escapes `s` begins with, and the text after the run.
      The run stops at the first position that does not hold a '%'; a '%' with
      fewer than two characters after it is an incomplete escape. */
  function EscapeRun(s: string): (r: Option<(seq<Byte>, string)>)
    ensures r.Some? ==> 3 * |r.value.0| + |r.value.1| == |s|
    ensures r.Some? ==> r.value.1 == s[|s| - |r.value.1|..]
    ensures r.Some? ==> r.value.1 == [] || r.value.1[0] != '%'
    ensures r.Some? && s != [] && s[0] == '%' ==> |r.value.0| > 0
    decreases |s|
  {
    if |s| >= 3 && s[0] == '%' then
      match EscapeValue(s[1], s[2])
      case None => None
      case Some(b) =>
        match EscapeRun(s[3..])
        case None => None
        case Some(run) => Some(([b] + run.0, run.1))
    else if |s| > 0 && s[0] == '%' then None
    else Some(([], s))
  }

  function Prepend(p: string, r: Option<string>): Option<string> {
    if r.Some? then Some(p + r.value) else None
  }

  /** URLDecoder.decode: None when it throws, else the decoded text, which is
      never longer than the input. */
  function Decode(s: string): (r: Option<string>)
    ensures r.Some? ==> |r.value| <= |s|
    decreases |s|
  {
    if s == [] then Some([])
    else if s[0] == '+' then Prepend(" ", Decode(s[1..]))
    else if s[0] == '%' then
      match EscapeRun(s)
      case None => None
      case Some(run) => Prepend(Utf8.Decode(run.0), Decode(run.1))
    else Prepend([s[0]], Decode(s[1..]))
  }

  /** Text with neither '%' nor '+' decodes to itself. */
  lemma {:induction false} DecodePlain(s: string)
    requires forall i :: 0 <= i < |s| ==> s[i] != '%' && s[i] != '+'
    ensures Decode(s) == Some(s)
    decreases |s|
  {
    if s != [] {
      DecodePlain(s[1..]);
      assert [s[0]] + s[1..] == s;
    }
  }

  /** Only an escape can make the decoder throw. */
  lemma {:induction false} DecodeFailsOnlyAtEscape(s: string)
    requires Decode(s).None?
    ensures exists i :: 0 <= i < |s| && s[i] == '%'
    decreases |s|
  {
    if s[0] != '%' {
      DecodeFailsOnlyAtEscape(s[1..]);
      var i :| 0 <= i < |s[1..]| && s[1..][i] == '%';
      assert s[i + 1] == '%';
    }
  }

  // ---- the partner: percent-encoding every byte ----

  function HexDigit(d: int): char
    requires 0 <= d < 16
  {
    "0123456789ABCDEF"[d]
  }

  /** Each byte written as "%XY" with upper-case hexadecimal digits. */
  function PercentEncode(bytes: seq<Byte>): (s: string)
    ensures |s| == 3 * |bytes|
    decreases |bytes|
  {
    if bytes == [] then []
    else ['%', HexDigit(bytes[0] / 16), HexDigit(bytes[0] % 16)] + PercentEncode(bytes[1..])
  }

  lemma HexDigitValue(d: int)
    requires 0 <= d < 16
    ensures HexValue(HexDigit(d)) == Some(d)
  {
  }

  lemma {:induction false} EscapeRunOfEncoded(bytes: seq<Byte>, rest: string)
    requires rest == [] || rest[0] != '%'
    ensures EscapeRun(PercentEncode(bytes) + rest) == Some((bytes, rest))
    decreases |bytes|
  {
    var s := PercentEncode(bytes) + rest;
    if bytes != [] {
      var b := bytes[0];
      HexDigitValue(b / 16);
      HexDigitValue(b % 16);
      assert s[1] == HexDigit(b / 16) && s[2] == HexDigit(b % 16);
      assert EscapeValue(s[1], s[2]) == Some(b);
      assert s[3..] == PercentEncode(bytes[1..]) + rest;
      EscapeRunOfEncoded(bytes[1..], rest);
      assert [b] + bytes[1..] == bytes;
    } else {
      assert s == rest;
    }
  }

  /** Any text, written as the percent escapes of its UTF-8 bytes, decodes back to itself. */
  lemma DecodePercentEncoded(t: string)
    ensures Decode(PercentEncode(Utf8.Encode(t))) == Some(t)
  {
    var bytes := Utf8.Encode(t);
    if bytes != [] {
      EscapeRunOfEncoded(bytes, []);
      assert PercentEncode(bytes) + [] == PercentEncode(bytes);
      Utf8.DecodeEncode(t);
      assert Utf8.Decode(bytes) + [] == t;
    } else {
      Utf8.DecodeEncode(t);
    }
  }

  /** Plain text in front of the rest is copied and the rest decoded on its own. */
  lemma {:induction false} DecodePlainPrefix(p: string, s: string)
    requires forall i :: 0 <= i < |p| ==> p[i] != '%' && p[i] != '+'
    ensures Decode(p + s) == Prepend(p, Decode(s))
    decreases |p|
  {
    if p == [] {
      assert p + s == s;
      if Decode(s).Some? {
        assert p + Decode(s).value == Decode(s).value;
      }
    } else {
      var q := p + s;
      assert q[0] == p[0] && q[1..] == p[1..] + s;
      assert Decode(q) == Prepend([p[0]], Decode(p[1..] + s));
      DecodePlainPrefix(p[1..], s);
      if Decode(s).Some? {
        assert [p[0]] + (p[1..] + Decode(s).value) == p + Decode(s).value;
      }
    }
  }

  /** The escape "%20" in front of plain text is one space byte. */
  lemma EscapeRunOfSpace()
    ensures EscapeRun("%20world") == Some(([32], "world"))
  {
    var e := "%20world";
    assert e[0] == '%' && e[1] == '2' && e[2] == '0' && e[3..] == "world";
    assert EscapeValue('2', '0') == Some(32);
    assert EscapeRun("world") == Some(([], "world"));
    var b: seq<Byte> := [32];
    assert b + [] == b;
  }

  /** "%20" in a query value is a space. */
  lemma DecodeEscapeExample()
    ensures Decode("%20world") == Some(" world")
  {
    EscapeRunOfSpace();
    assert Utf8.Decode([32]) == " ";
    DecodePlain("world");
    assert " " + "world" == " world";
  }

  lemma DecodePlusExample()
    ensures Decode("a+b") == Some("a b")
  {
    assert "a+b" == "a" + "+b";
    DecodePlainPrefix("a", "+b");
    var e := "+b";
    assert e[0] == '+' && e[1..] == "b";
    DecodePlain("b");
    assert " " + "b" == " b";
    assert Decode(e) == Some(" b");
    assert "a" + " b" == "a b";
  }

  /** A '%' at the end of the value is an incomplete escape. */
  lemma DecodeTruncatedExample()
    ensures Decode("100%") == None
  {
    assert "100%" == "100" + "%";
    DecodePlainPrefix("100", "%");
  }
}
