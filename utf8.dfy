/**
 * UTF-8 as RFC 3629 defines it (section 3 for the bit layout, section 4 for
 * the well-formed byte sequences): the encoding Rust uses for every `str`,
 * and the check `String::from_utf8` applies to a byte vector.
 */
module Utf8 {
  import opened Wrappers

  type byte = x: int | 0 <= x < 0x100

  predicate IsTail(b: byte) {
    0x80 <= b < 0xC0
  }

  /** The one to four bytes of a Unicode scalar value (RFC 3629 section 3). */
  function EncodeChar(c: char): (bs: seq<byte>)
    ensures 1 <= |bs| <= 4
    ensures c as int < 0x80 <==> |bs| == 1
    ensures forall i :: 1 <= i < |bs| ==> IsTail(bs[i])
  {
    var n := c as int;
    if n < 0x80 then [n]
    else if n < 0x800 then [0xC0 + n / 64, 0x80 + n % 64]
    else if n < 0x1_0000 then [0xE0 + n / 4096, 0x80 + (n / 64) % 64, 0x80 + n % 64]
    else [0xF0 + n / 262144, 0x80 + (n / 4096) % 64, 0x80 + (n / 64) % 64, 0x80 + n % 64]
  }

  /** The bytes of a string: what `str::as_bytes` gives. */
  function Encode(s: string): (bs: seq<byte>)
    ensures |bs| >= |s|
  {
    if s == [] then [] else EncodeChar(s[0]) + Encode(s[1..])
  }

  /** ASCII text is one byte per character, each byte the character's code. */
  lemma {:induction false} EncodeAscii(s: string)
    requires forall i :: 0 <= i < |s| ==> s[i] as int < 0x80
    ensures |Encode(s)| == |s|
    ensures forall i :: 0 <= i < |s| ==> Encode(s)[i] == s[i] as int
  {
    if s != [] {
      EncodeAscii(s[1..]);
      assert Encode(s) == [s[0] as int] + Encode(s[1..]);
    }
  }

  /**
   * The scalar value at the head of `bs`, if `bs` starts with one of the
   * well-formed sequences of RFC 3629 section 4: no overlong form, no
   * surrogate, nothing above U+10FFFF, no stray continuation byte.
   * When it succeeds, the char's own encoding is exactly the bytes it read.
   */
  function DecodeFirst(bs: seq<byte>): (r: Option<char>)
    requires bs != []
    ensures r.Some? ==> EncodeChar(r.value) <= bs
  {
    var b0 := bs[0];
    if b0 < 0x80 then Some(b0 as char)
    else if 0xC2 <= b0 < 0xE0 then DecodeTwo(bs)
    else if 0xE0 <= b0 < 0xF0 then DecodeThree(bs)
    else if 0xF0 <= b0 < 0xF5 then DecodeFour(bs)
    else None
  }

  function DecodeTwo(bs: seq<byte>): (r: Option<char>)
    requires bs != [] && 0xC2 <= bs[0] < 0xE0
    ensures r.Some? ==> EncodeChar(r.value) <= bs
  {
    if |bs| >= 2 && IsTail(bs[1]) then
      var b0: int, b1: int := bs[0], bs[1];
      var n := (b0 - 0xC0) * 64 + (b1 - 0x80);
      TwoByte(b0 - 0xC0, b1 - 0x80);
      Some(n as char)
    else None
  }

  function DecodeThree(bs: seq<byte>): (r: Option<char>)
    requires bs != [] && 0xE0 <= bs[0] < 0xF0
    ensures r.Some? ==> EncodeChar(r.value) <= bs
  {
    if |bs| >= 3 && IsTail(bs[1]) && IsTail(bs[2]) then
      var b0: int, b1: int, b2: int := bs[0], bs[1], bs[2];
      var n := (b0 - 0xE0) * 4096 + (b1 - 0x80) * 64 + (b2 - 0x80);
      if n < 0x800 || 0xD800 <= n < 0xE000 then None
      else
        ThreeByte(b0 - 0xE0, b1 - 0x80, b2 - 0x80);
        Some(n as char)
    else None
  }

  function DecodeFour(bs: seq<byte>): (r: Option<char>)
    requires bs != [] && 0xF0 <= bs[0] < 0xF5
    ensures r.Some? ==> EncodeChar(r.value) <= bs
  {
    if |bs| >= 4 && IsTail(bs[1]) && IsTail(bs[2]) && IsTail(bs[3]) then
      var b0: int, b1: int, b2: int, b3: int := bs[0], bs[1], bs[2], bs[3];
      var n := (b0 - 0xF0) * 262144 + (b1 - 0x80) * 4096 + (b2 - 0x80) * 64 + (b3 - 0x80);
      if n < 0x1_0000 || n > 0x10_FFFF then None
      else
        FourByte(b0 - 0xF0, b1 - 0x80, b2 - 0x80, b3 - 0x80);
        Some(n as char)
    else None
  }

  lemma TwoByte(a: nat, b: nat)
    requires a < 32 && b < 64
    ensures (a * 64 + b) / 64 == a && (a * 64 + b) % 64 == b
  {
  }

  lemma ThreeByte(a: nat, b: nat, c: nat)
    requires a < 16 && b < 64 && c < 64
    ensures var n := a * 4096 + b * 64 + c;
      n / 4096 == a && (n / 64) % 64 == b && n % 64 == c
  {
    var n := a * 4096 + b * 64 + c;
    assert n / 64 == a * 64 + b;
  }

  lemma FourByte(a: nat, b: nat, c: nat, d: nat)
    requires a < 8 && b < 64 && c < 64 && d < 64
    ensures var n := a * 262144 + b * 4096 + c * 64 + d;
      n / 262144 == a && (n / 4096) % 64 == b && (n / 64) % 64 == c && n % 64 == d
  {
    var n := a * 262144 + b * 4096 + c * 64 + d;
    assert n / 64 == a * 4096 + b * 64 + c;
    assert n / 4096 == a * 64 + b;
  }

  /** `String::from_utf8`: the text the bytes spell, or `None` if they are not well-formed UTF-8. */
  function Decode(bs: seq<byte>): (r: Option<string>)
    ensures r.Some? ==> Encode(r.value) == bs
    decreases |bs|
  {
    if bs == [] then Some([])
    else
      match DecodeFirst(bs)
      case None => None
      case Some(c) =>
        var k := |EncodeChar(c)|;
        assert bs == EncodeChar(c) + bs[k..];
        match Decode(bs[k..])
        case None => None
        case Some(rest) => Some([c] + rest)
  }

  predicate Valid(bs: seq<byte>) {
    Decode(bs).Some?
  }

  /** Every char's encoding is read back as that char, whatever follows it. */
  lemma DecodeFirstEncodeChar(c: char, rest: seq<byte>)
    ensures DecodeFirst(EncodeChar(c) + rest) == Some(c)
  {
    var n := c as int;
    if n < 0x80 {
    } else if n < 0x800 {
      DecodeTwoBytes(c, rest);
    } else if n < 0x1_0000 {
      DecodeThreeBytes(c, rest);
    } else {
      DecodeFourBytes(c, rest);
    }
  }

  lemma DecodeTwoBytes(c: char, rest: seq<byte>)
    requires 0x80 <= c as int < 0x800
    ensures DecodeFirst(EncodeChar(c) + rest) == Some(c)
  {
    var n := c as int;
    var bs := EncodeChar(c) + rest;
    assert bs[0] == 0xC0 + n / 64 && bs[1] == 0x80 + n % 64;
    assert (n / 64) * 64 + n % 64 == n;
  }

  lemma DecodeThreeBytes(c: char, rest: seq<byte>)
    requires 0x800 <= c as int < 0x1_0000
    ensures DecodeFirst(EncodeChar(c) + rest) == Some(c)
  {
    var n := c as int;
    var bs := EncodeChar(c) + rest;
    assert bs[0] == 0xE0 + n / 4096 && bs[1] == 0x80 + (n / 64) % 64 && bs[2] == 0x80 + n % 64;
    assert (n / 4096) * 4096 + ((n / 64) % 64) * 64 + n % 64 == n by {
      assert (n / 64) * 64 + n % 64 == n;
      assert (n / 64) / 64 == n / 4096;
      assert ((n / 64) / 64) * 64 + (n / 64) % 64 == n / 64;
    }
  }

  lemma DecodeFourBytes(c: char, rest: seq<byte>)
    requires 0x1_0000 <= c as int
    ensures DecodeFirst(EncodeChar(c) + rest) == Some(c)
  {
    var n := c as int;
    var bs := EncodeChar(c) + rest;
    assert bs[0] == 0xF0 + n / 262144 && bs[1] == 0x80 + (n / 4096) % 64;
    assert bs[2] == 0x80 + (n / 64) % 64 && bs[3] == 0x80 + n % 64;
    assert (n / 262144) * 262144 + ((n / 4096) % 64) * 4096 + ((n / 64) % 64) * 64 + n % 64 == n by {
      assert (n / 64) * 64 + n % 64 == n;
      assert (n / 64) / 64 == n / 4096;
      assert ((n / 64) / 64) * 64 + (n / 64) % 64 == n / 64;
      assert (n / 4096) / 64 == n / 262144;
      assert ((n / 4096) / 64) * 64 + (n / 4096) % 64 == n / 4096;
    }
  }

  /** Decoding the bytes of any text gives the text back. */
  lemma {:induction false} DecodeEncode(s: string)
    ensures Decode(Encode(s)) == Some(s)
  {
    if s != [] {
      var bs := Encode(s);
      var e := EncodeChar(s[0]);
      DecodeFirstEncodeChar(s[0], Encode(s[1..]));
      assert bs[|e|..] == Encode(s[1..]);
      DecodeEncode(s[1..]);
      assert [s[0]] + s[1..] == s;
    }
  }

  /** Well-formed UTF-8 is exactly the set of byte strings that are the encoding of some text. */
  lemma ValidIffEncoding(bs: seq<byte>)
    ensures Valid(bs) <==> exists s :: Encode(s) == bs
  {
    if exists s :: Encode(s) == bs {
      var s :| Encode(s) == bs;
      DecodeEncode(s);
    }
  }

  /** Byte strings that RFC 3629 rules out: an overlong `/`, an encoded surrogate, a stray continuation byte, 0xFF. */
  lemma InvalidExamples()
    ensures !Valid([0xC0, 0xAF])
    ensures !Valid([0xE0, 0x80, 0xAF])
    ensures !Valid([0xED, 0xA0, 0x80])
    ensures !Valid([0x80])
    ensures !Valid([0xFF])
    ensures !Valid([0xF4, 0x90, 0x80, 0x80])
  {
  }
}
