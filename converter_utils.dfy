/**
 * Typed lookups in a converter's raw string options (src/converter_utils.rs).
 * Every lookup is total: a missing key or a value that does not parse gives
 * the caller's default, never an error.
 */
module ConverterUtils {
  import opened Wrappers
  import Decimal
  import Ascii

  type u8 = x: int | 0 <= x < 0x100
  type u16 = x: int | 0 <= x < 0x1_0000

  /** The rule shared by `extract_u8` and `extract_u16`: look the key up, parse it as an unsigned number up to `max`. */
  function ExtractUnsigned(name: string, options: map<string, string>, default: nat, max: nat): (r: nat)
    requires default <= max
    ensures r <= max
    ensures name !in options ==> r == default
    ensures r == default || (name in options && Decimal.ParseUnsigned(options[name], max) == Some(r))
  {
    if name !in options then default
    else
      match Decimal.ParseUnsigned(options[name], max)
      case Some(i) => i
      case None => default
  }

  function ExtractU16(name: string, options: map<string, string>, default: u16): (r: u16)
    ensures name !in options ==> r == default
  {
    ExtractUnsigned(name, options, default, 0xFFFF)
  }

  function ExtractU8(name: string, options: map<string, string>, default: u8): (r: u8)
    ensures name !in options ==> r == default
  {
    ExtractUnsigned(name, options, default, 0xFF)
  }

  /** A boolean option's text: `true` or `false` in any ASCII case, nothing else. */
  function ParseBool(s: string): Option<bool> {
    if Ascii.EqIgnoreCase(s, "true") then Some(true)
    else if Ascii.EqIgnoreCase(s, "false") then Some(false)
    else None
  }

  /** `extract_bool`: look the key up and read it as a boolean, falling back to the default. */
  function ExtractBool(name: string, options: map<string, string>, default: bool): (r: bool)
    ensures name !in options ==> r == default
    ensures name in options && Ascii.EqIgnoreCase(options[name], "true") ==> r
    ensures name in options && Ascii.EqIgnoreCase(options[name], "false") ==> !r
    ensures name in options && !Ascii.EqIgnoreCase(options[name], "true") && !Ascii.EqIgnoreCase(options[name], "false")
            ==> r == default
  {
    if name !in options then default
    else
      match ParseBool(options[name])
      case Some(b) => b
      case None => default
  }

  /** Concrete cases: the case of the letters does not matter; `"t"`, `"1"` and `""` fall back. */
  lemma ExtractBoolExamples()
    ensures ExtractBool("color", map["color" := "TRUE"], false)
    ensures !ExtractBool("color", map["color" := "False"], true)
    ensures !ExtractBool("color", map["color" := "t"], false)
    ensures ExtractBool("color", map["color" := "1"], true)
    ensures !ExtractBool("color", map["color" := ""], false)
  {
    assert Ascii.EqIgnoreCase("TRUE", "true");
    assert Ascii.EqIgnoreCase("False", "false");
  }

  /** A present value that is `[+]digits` denoting a number up to `max` is returned as that number. */
  lemma ExtractUnsignedParsed(name: string, options: map<string, string>, default: nat, max: nat, d: string)
    requires default <= max
    requires name in options && (options[name] == d || options[name] == "+" + d)
    requires d != [] && Decimal.AllDigits(d) && Decimal.Value(d) <= max
    ensures ExtractUnsigned(name, options, default, max) == Decimal.Value(d)
  {
    Decimal.ParseUnsignedAccepts(options[name], max, Decimal.Value(d));
  }

  /**
   * A present value that is not `[+]digits` within bounds (empty, a lone sign,
   * a leading `-`, a non-digit, a number above `max`) silently gives the default.
   */
  lemma ExtractUnsignedFallsBack(name: string, options: map<string, string>, default: nat, max: nat)
    requires default <= max
    requires name in options
    requires forall d :: (options[name] == d || options[name] == "+" + d) ==>
      !(d != [] && Decimal.AllDigits(d) && Decimal.Value(d) <= max)
    ensures ExtractUnsigned(name, options, default, max) == default
  {
    var s := options[name];
    if Decimal.ParseUnsigned(s, max).Some? {
      var n := Decimal.ParseUnsigned(s, max).value;
      Decimal.ParseUnsignedAccepts(s, max, n);
      assert false;
    }
  }

  /** Writing a number as decimal text and extracting it gives the number back. */
  lemma ExtractU16RoundTrip(name: string, options: map<string, string>, default: u16, n: u16)
    ensures ExtractU16(name, options[name := Decimal.Text(n)], default) == n
  {
    Decimal.ParseText(n, 0xFFFF);
  }

  lemma ExtractU8RoundTrip(name: string, options: map<string, string>, default: u8, n: u8)
    ensures ExtractU8(name, options[name := Decimal.Text(n)], default) == n
  {
    Decimal.ParseText(n, 0xFF);
  }

  /** Concrete cases: `"2"` parses, `"256"` overflows a `u8`, `"-1"`, `""`, `"+"` and `"abc"` fall back. */
  lemma ExtractU8Examples()
    ensures ExtractU8("indent", map["indent" := "2"], 4) == 2
    ensures ExtractU8("indent", map["indent" := "+2"], 4) == 2
    ensures ExtractU8("indent", map["indent" := "256"], 4) == 4
    ensures ExtractU8("indent", map["indent" := "-1"], 4) == 4
    ensures ExtractU8("indent", map["indent" := ""], 4) == 4
    ensures ExtractU8("indent", map["indent" := "+"], 4) == 4
    ensures ExtractU8("indent", map["indent" := "abc"], 4) == 4
  {
    assert Decimal.Value("2") == 2;
    assert ("+2")[1..] == "2";
    U8Overflow();
    assert !Decimal.IsDigit("-1"[0]);
    assert !Decimal.IsDigit("abc"[0]);
    assert "+"[1..] == [];
  }

  lemma U8Overflow()
    ensures ExtractU8("indent", map["indent" := "256"], 4) == 4
  {
    Overflows("256", 255);
  }

  lemma ExtractU16Examples()
    ensures ExtractU16("indent", map["indent" := "65535"], 4) == 65535
    ensures ExtractU16("indent", map["indent" := "65536"], 4) == 4
  {
    Largest("65535");
    Overflows("65536", 65535);
  }

  lemma Overflows(s: string, max: nat)
    requires (s == "256" && max == 255) || (s == "65536" && max == 65535)
    ensures Decimal.ParseUnsigned(s, max) == None
  {
    if |s| == 3 {
      Decimal.ThreeDigits(s);
    } else {
      Decimal.FiveDigits(s);
    }
    Decimal.ParseRejectsOverflow(s, max);
  }

  lemma Largest(s: string)
    requires s == "65535"
    ensures Decimal.ParseUnsigned(s, 65535) == Some(65535)
  {
    Decimal.FiveDigits(s);
  }

}
