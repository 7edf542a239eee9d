/**
 * The standard Base64 encoding of section 4 of RFC 4648: alphabet
 * `A-Z a-z 0-9 + /`, output padded with `=` to a multiple of four
 * characters. Decoding is strict: the length must be a multiple of four,
 * `=` may only fill the last one or two places of the last group, and the
 * unused bits before the padding must be zero (section 3.5), so every
 * accepted text is the encoding of what it decodes to.
 */
module Base64Codec {
  import opened Wrappers
  import opened Utf8

  /** The character for a 6-bit value. */
  function IndexChar(i: nat): (c: char)
    requires i < 64
  {
    if i < 26 then ('A' as int + i) as char
    else if i < 52 then ('a' as int + (i - 26)) as char
    else if i < 62 then ('0' as int + (i - 52)) as char
    else if i == 62 then '+'
    else '/'
  }

  /** The 6-bit value of an alphabet character; `None` for `=` and everything outside the alphabet. */
  function CharIndex(c: char): (r: Option<nat>)
    ensures r.Some? ==> r.value < 64 && IndexChar(r.value) == c
  {
    if 'A' <= c <= 'Z' then Some(c as int - 'A' as int)
    else if 'a' <= c <= 'z' then Some(c as int - 'a' as int + 26)
    else if '0' <= c <= '9' then Some(c as int - '0' as int + 52)
    else if c == '+' then Some(62)
    else if c == '/' then Some(63)
    else None
  }

  lemma CharIndexOfIndexChar(i: nat)
    requires i < 64
    ensures CharIndex(IndexChar(i)) == Some(i)
  {
  }

  predicate InAlphabet(c: char) {
    CharIndex(c).Some?
  }

  /** Three bytes as four characters. */
  function EncodeGroup(b0: byte, b1: byte, b2: byte): string {
    [IndexChar(b0 / 4), IndexChar((b0 % 4) * 16 + b1 / 16), IndexChar((b1 % 16) * 4 + b2 / 64), IndexChar(b2 % 64)]
  }

  /** `base64::encode`. */
  function Encode(bs: seq<byte>): (s: string)
  {
    if |bs| == 0 then ""
    else if |bs| == 1 then [IndexChar(bs[0] / 4), IndexChar((bs[0] % 4) * 16), '=', '=']
    else if |bs| == 2 then [IndexChar(bs[0] / 4), IndexChar((bs[0] % 4) * 16 + bs[1] / 16), IndexChar((bs[1] % 16) * 4), '=']
    else EncodeGroup(bs[0], bs[1], bs[2]) + Encode(bs[3..])
  }

  /** Four alphabet characters (no padding) as three bytes. */
  function DecodeGroup(s: string): (r: Option<seq<byte>>)
    requires |s| == 4
    ensures r.Some? ==> |r.value| == 3 && EncodeGroup(r.value[0], r.value[1], r.value[2]) == s
  {
    match (CharIndex(s[0]), CharIndex(s[1]), CharIndex(s[2]), CharIndex(s[3]))
    case (Some(i0), Some(i1), Some(i2), Some(i3)) =>
      var bs := GroupBytes(i0, i1, i2, i3);
      assert EncodeGroup(bs[0], bs[1], bs[2]) == [s[0], s[1], s[2], s[3]];
      Some(bs)
    case _ => None
  }

  /** The three bytes four 6-bit values make up: encoding them gives back the four characters. */
  function GroupBytes(i0: nat, i1: nat, i2: nat, i3: nat): (bs: seq<byte>)
    requires i0 < 64 && i1 < 64 && i2 < 64 && i3 < 64
    ensures |bs| == 3
    ensures EncodeGroup(bs[0], bs[1], bs[2]) == [IndexChar(i0), IndexChar(i1), IndexChar(i2), IndexChar(i3)]
  {
    var b0, b1, b2 := i0 * 4 + i1 / 16, (i1 % 16) * 16 + i2 / 4, (i2 % 4) * 64 + i3;
    DivMod(i0, i1, i2, i3, b0, b1, b2);
    [b0 as byte, b1 as byte, b2 as byte]
  }

  lemma DivMod(i0: nat, i1: nat, i2: nat, i3: nat, b0: int, b1: int, b2: int)
    requires i0 < 64 && i1 < 64 && i2 < 64 && i3 < 64
    requires b0 == i0 * 4 + i1 / 16 && b1 == (i1 % 16) * 16 + i2 / 4 && b2 == (i2 % 4) * 64 + i3
    ensures 0 <= b0 < 256 && 0 <= b1 < 256 && 0 <= b2 < 256
    ensures b0 / 4 == i0 && (b0 % 4) * 16 + b1 / 16 == i1 && (b1 % 16) * 4 + b2 / 64 == i2 && b2 % 64 == i3
  {
  }

  /** A last group `xx==` carries one byte; the four low bits of its second character must be zero. */
  function DecodePadded2(c0: char, c1: char): (r: Option<byte>)
    ensures r.Some? ==> Encode([r.value]) == [c0, c1, '=', '=']
  {
    match (CharIndex(c0), CharIndex(c1))
    case (Some(i0), Some(i1)) =>
      if i1 % 16 != 0 then None
      else
        var b0 := i0 * 4 + i1 / 16;
        DivMod(i0, i1, 0, 0, b0, (i1 % 16) * 16, 0);
        Some(b0)
    case _ => None
  }

  /** A last group `xxx=` carries two bytes; the two low bits of its third character must be zero. */
  function DecodePadded1(c0: char, c1: char, c2: char): (r: Option<seq<byte>>)
    ensures r.Some? ==> |r.value| == 2 && Encode(r.value) == [c0, c1, c2, '=']
  {
    match (CharIndex(c0), CharIndex(c1), CharIndex(c2))
    case (Some(i0), Some(i1), Some(i2)) =>
      if i2 % 4 != 0 then None
      else
        var b0, b1 := i0 * 4 + i1 / 16, (i1 % 16) * 16 + i2 / 4;
        DivMod(i0, i1, i2, 0, b0, b1, (i2 % 4) * 64);
        Some([b0, b1])
    case _ => None
  }

  /** The last group, which may end in one or two `=`. */
  function DecodeLast(s: string): (r: Option<seq<byte>>)
    requires |s| == 4
    ensures r.Some? ==> 1 <= |r.value| <= 3 && Encode(r.value) == s
  {
    if s[2] == '=' && s[3] == '=' then
      match DecodePadded2(s[0], s[1])
      case Some(b) => Some([b])
      case None => None
    else if s[3] == '=' then
      DecodePadded1(s[0], s[1], s[2])
    else
      match DecodeGroup(s)
      case Some(g) =>
        assert Encode(g) == EncodeGroup(g[0], g[1], g[2]) + Encode(g[3..]);
        Some(g)
      case None => None
  }

  /** `base64::decode`: the bytes a padded Base64 text denotes, or `None` if it is malformed. */
  function Decode(s: string): (r: Option<seq<byte>>)
    ensures r.Some? ==> Encode(r.value) == s
  {
    if |s| == 0 then Some([])
    else if |s| < 4 then None
    else if |s| == 4 then DecodeLast(s)
    else
      match (DecodeGroup(s[..4]), Decode(s[4..]))
      case (Some(g), Some(rest)) =>
        assert (g + rest)[3..] == rest;
        assert s == s[..4] + s[4..];
        Some(g + rest)
      case _ => None
  }

  /** Decoding an encoding returns the original bytes. */
  lemma {:induction false} DecodeEncode(bs: seq<byte>)
    ensures Decode(Encode(bs)) == Some(bs)
  {
    if |bs| == 1 {
      DecodePadded2Encode(bs[0]);
      assert [bs[0]] == bs;
    } else if |bs| == 2 {
      DecodePadded1Encode(bs[0], bs[1]);
      assert [bs[0], bs[1]] == bs;
    } else if |bs| == 3 {
      DecodeGroupEncode(bs[0], bs[1], bs[2]);
      assert [bs[0], bs[1], bs[2]] == bs;
      EncodeUnfold(bs);
    } else if |bs| > 3 {
      var head, tail := [bs[0], bs[1], bs[2]], bs[3..];
      assert head + tail == bs by {
        assert head == bs[..3];
      }
      DecodeEncode(tail);
      DecodeGroupEncode(bs[0], bs[1], bs[2]);
      EncodeUnfold(bs);
      DecodeConcat(EncodeGroup(bs[0], bs[1], bs[2]), Encode(tail), head, tail);
    }
  }

  /** A full group followed by a well-formed rest decodes group by group. */
  lemma DecodeConcat(g: string, rest: string, head: seq<byte>, tail: seq<byte>)
    requires |g| == 4 && rest != []
    requires DecodeGroup(g) == Some(head) && Decode(rest) == Some(tail)
    ensures Decode(g + rest) == Some(head + tail)
  {
    var s := g + rest;
    assert s[..4] == g && s[4..] == rest;
  }

  lemma EncodeUnfold(bs: seq<byte>)
    requires |bs| >= 3
    ensures Encode(bs) == EncodeGroup(bs[0], bs[1], bs[2]) + Encode(bs[3..])
    ensures |bs| == 3 ==> Encode(bs) == EncodeGroup(bs[0], bs[1], bs[2])
  {
  }

  lemma DecodeGroupEncode(b0: byte, b1: byte, b2: byte)
    ensures DecodeGroup(EncodeGroup(b0, b1, b2)) == Some([b0, b1, b2])
    ensures DecodeLast(EncodeGroup(b0, b1, b2)) == Some([b0, b1, b2])
    ensures Decode(EncodeGroup(b0, b1, b2)) == Some([b0, b1, b2])
  {
    var s := EncodeGroup(b0, b1, b2);
    GroupDecodes(b0, b1, b2);
    assert s[2] != '=' && s[3] != '=' by {
      CharIndexOfIndexChar((b1 % 16) * 4 + b2 / 64);
      CharIndexOfIndexChar(b2 % 64);
    }
  }

  lemma GroupDecodes(b0: byte, b1: byte, b2: byte)
    ensures DecodeGroup(EncodeGroup(b0, b1, b2)) == Some([b0, b1, b2])
  {
    var i0, i1, i2, i3 := b0 / 4, (b0 % 4) * 16 + b1 / 16, (b1 % 16) * 4 + b2 / 64, b2 % 64;
    CharIndexOfIndexChar(i0);
    CharIndexOfIndexChar(i1);
    CharIndexOfIndexChar(i2);
    CharIndexOfIndexChar(i3);
    assert i1 / 16 == b0 % 4 && i1 % 16 == b1 / 16;
    assert i2 / 4 == b1 % 16 && i2 % 4 == b2 / 64;
  }

  lemma DecodePadded2Encode(b0: byte)
    ensures var s := Encode([b0]); DecodeLast(s) == Some([b0]) && Decode(s) == Some([b0])
  {
    CharIndexOfIndexChar(b0 / 4);
    CharIndexOfIndexChar((b0 % 4) * 16);
    assert ((b0 % 4) * 16) / 16 == b0 % 4;
  }

  lemma DecodePadded1Encode(b0: byte, b1: byte)
    ensures var s := Encode([b0, b1]); DecodeLast(s) == Some([b0, b1]) && Decode(s) == Some([b0, b1])
  {
    var i0, i1, i2 := b0 / 4, (b0 % 4) * 16 + b1 / 16, (b1 % 16) * 4;
    var s := Encode([b0, b1]);
    assert s == [IndexChar(i0), IndexChar(i1), IndexChar(i2), '='];
    assert DecodePadded1(s[0], s[1], s[2]) == Some([b0, b1]) by {
      CharIndexOfIndexChar(i0);
      CharIndexOfIndexChar(i1);
      CharIndexOfIndexChar(i2);
      Pair(b0, b1);
    }
  }

  /** The arithmetic behind a two-byte group: the three six-bit indices give the bytes back. */
  lemma Pair(b0: byte, b1: byte)
    ensures var i0, i1, i2 := b0 / 4, (b0 % 4) * 16 + b1 / 16, (b1 % 16) * 4;
      i2 % 4 == 0 && i0 * 4 + i1 / 16 == b0 && (i1 % 16) * 16 + i2 / 4 == b1
  {
    var i1, i2 := (b0 % 4) * 16 + b1 / 16, (b1 % 16) * 4;
    assert i1 / 16 == b0 % 4 && i1 % 16 == b1 / 16;
    assert i2 / 4 == b1 % 16 && i2 % 4 == 0;
  }

  /** An encoding has four characters for every started group of three bytes. */
  lemma {:induction false} EncodeLength(bs: seq<byte>)
    ensures |Encode(bs)| == 4 * ((|bs| + 2) / 3)
  {
    if |bs| >= 3 {
      EncodeLength(bs[3..]);
      assert (|bs| + 2) / 3 == (|bs[3..]| + 2) / 3 + 1;
    }
  }

  /** Every character of an encoding is in the alphabet, except a trailing `=` or `==`. */
  lemma {:induction false} EncodeAlphabet(bs: seq<byte>)
    ensures var s := Encode(bs);
      forall i :: 0 <= i < |s| ==> InAlphabet(s[i]) || (s[i] == '=' && i >= |s| - 2)
  {
    if |bs| >= 3 {
      EncodeUnfold(bs);
      EncodeAlphabet(bs[3..]);
      GroupAlphabet(bs[0], bs[1], bs[2]);
      AlphabetPrefix(EncodeGroup(bs[0], bs[1], bs[2]), Encode(bs[3..]));
    } else if |bs| > 0 {
      TailAlphabet(bs);
    }
  }

  lemma GroupAlphabet(b0: byte, b1: byte, b2: byte)
    ensures forall i :: 0 <= i < 4 ==> InAlphabet(EncodeGroup(b0, b1, b2)[i])
  {
    CharIndexOfIndexChar(b0 / 4);
    CharIndexOfIndexChar((b0 % 4) * 16 + b1 / 16);
    CharIndexOfIndexChar((b1 % 16) * 4 + b2 / 64);
    CharIndexOfIndexChar(b2 % 64);
  }

  lemma TailAlphabet(bs: seq<byte>)
    requires 1 <= |bs| <= 2
    ensures var s := Encode(bs);
      forall i :: 0 <= i < |s| ==> InAlphabet(s[i]) || (s[i] == '=' && i >= |s| - 2)
  {
    CharIndexOfIndexChar(bs[0] / 4);
    if |bs| == 1 {
      CharIndexOfIndexChar((bs[0] % 4) * 16);
    } else {
      CharIndexOfIndexChar((bs[0] % 4) * 16 + bs[1] / 16);
      CharIndexOfIndexChar((bs[1] % 16) * 4);
    }
  }

  lemma AlphabetPrefix(g: string, rest: string)
    requires |g| == 4 && forall i :: 0 <= i < 4 ==> InAlphabet(g[i])
    requires forall i :: 0 <= i < |rest| ==> InAlphabet(rest[i]) || (rest[i] == '=' && i >= |rest| - 2)
    ensures var s := g + rest;
      forall i :: 0 <= i < |s| ==> InAlphabet(s[i]) || (s[i] == '=' && i >= |s| - 2)
  {
    var s := g + rest;
    forall i | 0 <= i < |s|
      ensures InAlphabet(s[i]) || (s[i] == '=' && i >= |s| - 2)
    {
      if i >= 4 {
        assert s[i] == rest[i - 4];
      }
    }
  }

  /**
   * Decoding accepts only what the encoder can produce: a length that is a
   * multiple of four, and alphabet characters except for a trailing `=` or
   * `==`. So a stray character, excess padding, padding inside the text or a
   * character outside the alphabet is always refused.
   */
  lemma DecodeAcceptsOnlyEncodings(s: string)
    ensures Decode(s).Some? ==> |s| % 4 == 0
    ensures Decode(s).Some? ==> forall i :: 0 <= i < |s| ==> InAlphabet(s[i]) || (s[i] == '=' && i >= |s| - 2)
  {
    if Decode(s).Some? {
      var bs := Decode(s).value;
      EncodeLength(bs);
      FourTimes((|bs| + 2) / 3);
      EncodeAlphabet(bs);
    }
  }

  lemma FourTimes(g: nat)
    ensures (4 * g) % 4 == 0
  {
  }

  /** Encoding is injective, and decoding succeeds exactly on the image of encoding. */
  lemma DecodeIffEncoding(s: string, bs: seq<byte>)
    ensures Decode(s) == Some(bs) <==> Encode(bs) == s
  {
    if Encode(bs) == s {
      DecodeEncode(bs);
    }
  }

  /** The converter's test vectors (ASCII text, so its bytes are its code points). */
  lemma Vectors()
    ensures Encode(Utf8.Encode("hello world!")) == "aGVsbG8gd29ybGQh"
    ensures Encode(Utf8.Encode("Hi$@")) == "SGkkQA=="
    ensures Encode(Utf8.Encode("")) == ""
    ensures Decode("aGVsbG8gd29ybGQh") == Some(Utf8.Encode("hello world!"))
    ensures Decode("SGkkQA==") == Some(Utf8.Encode("Hi$@"))
  {
    HelloVector();
    HiVector();
    DecodeEncode(Utf8.Encode("hello world!"));
    DecodeEncode(Utf8.Encode("Hi$@"));
  }

  lemma HelloVector()
    ensures Encode(Utf8.Encode("hello world!")) == "aGVsbG8gd29ybGQh"
  {
    HelloText("hello world!");
  }

  lemma HelloText(text: string)
    requires text == "hello world!"
    ensures Encode(Utf8.Encode(text)) == "aGVsbG8gd29ybGQh"
  {
    Utf8.EncodeAscii(text);
    EncodeHello(Utf8.Encode(text));
  }

  lemma EncodeHello(hello: seq<byte>)
    requires |hello| == 12
    requires hello[0] == 104 && hello[1] == 101 && hello[2] == 108 && hello[3] == 108 && hello[4] == 111 && hello[5] == 32
    requires hello[6] == 119 && hello[7] == 111 && hello[8] == 114 && hello[9] == 108 && hello[10] == 100 && hello[11] == 33
    ensures Encode(hello) == "aGVsbG8gd29ybGQh"
  {
    HelloGroups();
    EncodeFourGroups(hello, "aGVs", "bG8g", "d29y", "bGQh");
    HelloJoined();
  }

  lemma HelloJoined()
    ensures "aGVs" + ("bG8g" + ("d29y" + "bGQh")) == "aGVsbG8gd29ybGQh"
  {
  }

  lemma HelloGroups()
    ensures EncodeGroup(104, 101, 108) == "aGVs" && EncodeGroup(108, 111, 32) == "bG8g"
    ensures EncodeGroup(119, 111, 114) == "d29y" && EncodeGroup(108, 100, 33) == "bGQh"
  {
  }

  /** Twelve bytes are four groups, encoded in order. */
  lemma EncodeFourGroups(bs: seq<byte>, a: string, b: string, c: string, d: string)
    requires |bs| == 12
    requires EncodeGroup(bs[0], bs[1], bs[2]) == a && EncodeGroup(bs[3], bs[4], bs[5]) == b
    requires EncodeGroup(bs[6], bs[7], bs[8]) == c && EncodeGroup(bs[9], bs[10], bs[11]) == d
    ensures Encode(bs) == a + (b + (c + d))
  {
    EncodeUnfold(bs);
    EncodeUnfold(bs[3..]);
    EncodeUnfold(bs[6..]);
    EncodeUnfold(bs[9..]);
    assert bs[3..][3..] == bs[6..] && bs[6..][3..] == bs[9..];
  }

  lemma HiVector()
    ensures Encode(Utf8.Encode("Hi$@")) == "SGkkQA=="
  {
    var hi: seq<byte> := [72, 105, 36, 64];
    Utf8.EncodeAscii("Hi$@");
    assert Utf8.Encode("Hi$@") == hi;
    EncodeHi(hi);
  }

  lemma EncodeHi(hi: seq<byte>)
    requires hi == [72, 105, 36, 64]
    ensures Encode(hi) == "SGkkQA=="
  {
    assert EncodeGroup(72, 105, 36) == "SGkk";
    assert Encode([64]) == "QA==";
    EncodeUnfold(hi);
    assert hi[3..] == [64];
  }

  /** Rejected test vector: a stray 17th character. */
  lemma StrayCharacterRejected()
    ensures Decode("aGVsbG8gd29ybGQht") == None
  {
    RejectLength("aGVsbG8gd29ybGQht");
  }

  /** Rejected test vector: excess `=` padding. */
  lemma ExcessPaddingRejected()
    ensures Decode("aGVsbG8gd29ybGQh=======") == None
  {
    RejectLength("aGVsbG8gd29ybGQh=======");
  }

  lemma RejectLength(s: string)
    requires |s| % 4 != 0
    ensures Decode(s) == None
  {
    DecodeAcceptsOnlyEncodings(s);
  }

  lemma RejectForeign(s: string, i: nat)
    requires i < |s| && !InAlphabet(s[i]) && s[i] != '='
    ensures Decode(s) == None
  {
    DecodeAcceptsOnlyEncodings(s);
  }

  /** Rejected test vector: `?` is outside the alphabet. */
  lemma QuestionMarkRejected()
    ensures Decode("aGVsbG8gd29ybG?h") == None
  {
    var s := "aGVsbG8gd29ybG?h";
    assert s[14] == '?';
    assert CharIndex('?') == None;
    RejectForeign(s, 14);
  }
}
