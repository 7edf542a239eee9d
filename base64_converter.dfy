/** The Base64 converter (src/converters/base64_converter.rs). */
module Base64Converter {
  import opened Wrappers
  import opened Options
  import Ascii
  import Utf8
  import Base64Codec

  const Name: string := "Base64"
  /** The converter reads no converter-specific options. */
  const OptionNames: seq<string> := []

  /** `u8s_to_string`: the bytes as text when they are well-formed UTF-8, otherwise `CannotConvert`. */
  function U8sToString(bytes: seq<Utf8.byte>): (r: Result<string, Error>)
    ensures r.Ok? <==> Utf8.Valid(bytes)
    ensures r.Ok? ==> Utf8.Encode(r.value) == bytes
  {
    match Utf8.Decode(bytes)
    case Some(text) => Ok(text)
    case None => Err(CannotConvert)
  }

  /**
   * `Base64Converter::prettify`. Forward: the input decoded as Base64 and then
   * read as UTF-8. Reverse: the UTF-8 bytes of the input encoded as Base64,
   * but only when the format hint names this converter.
   */
  function Prettify(input: string, options: Options): (r: Result<string, Error>)
    ensures r.Ok? && !options.reverse ==> Base64Codec.Encode(Utf8.Encode(r.value)) == input
    ensures r.Ok? && options.reverse ==> Base64Codec.Decode(r.value) == Some(Utf8.Encode(input))
    ensures options.reverse ==> (r.Ok? <==> Ascii.EqIgnoreCase(options.inputType, Name))
  {
    if options.reverse then
      if Ascii.EqIgnoreCase(options.inputType, Name) then
        var encoded := Base64Codec.Encode(Utf8.Encode(input));
        Base64Codec.DecodeEncode(Utf8.Encode(input));
        Ok(encoded)
      else
        Err(CannotConvert)
    else
      match Base64Codec.Decode(input)
      case Some(decoded) => U8sToString(decoded)
      case None => Err(CannotConvert)
  }

  /** The forward direction never looks at the format hint. */
  lemma ForwardIgnoresInputType(input: string, options: Options, hint: string)
    requires !options.reverse
    ensures Prettify(input, options) == Prettify(input, options.(inputType := hint))
  {
  }

  /** Forward failures: text that is not Base64, or Base64 whose bytes are not UTF-8. */
  lemma ForwardFailures(input: string, options: Options)
    requires !options.reverse
    ensures Base64Codec.Decode(input) == None ==> Prettify(input, options) == Err(CannotConvert)
    ensures Base64Codec.Decode(input).Some? && !Utf8.Valid(Base64Codec.Decode(input).value) ==>
      Prettify(input, options) == Err(CannotConvert)
  {
  }

  /** Forward conversion succeeds with `text` exactly when the input is the Base64 encoding of `text`. */
  lemma ForwardIffEncoding(input: string, options: Options, text: string)
    requires !options.reverse
    ensures Prettify(input, options) == Ok(text) <==> input == Base64Codec.Encode(Utf8.Encode(text))
  {
    if input == Base64Codec.Encode(Utf8.Encode(text)) {
      Base64Codec.DecodeEncode(Utf8.Encode(text));
      Utf8.DecodeEncode(text);
    }
  }

  /** Encoding with the Base64 hint and then decoding gives the text back. */
  lemma EncodeThenDecode(text: string, hint: string, options: Options)
    requires options.reverse && Ascii.EqIgnoreCase(hint, Name) && options.inputType == hint
    ensures Prettify(text, options).Ok?
    ensures Prettify(Prettify(text, options).value, options.(reverse := false)) == Ok(text)
  {
    ForwardIffEncoding(Prettify(text, options).value, options.(reverse := false), text);
  }

  /** Decoding and then encoding with the Base64 hint gives the Base64 text back. */
  lemma DecodeThenEncode(input: string, options: Options, hint: string)
    requires !options.reverse && Prettify(input, options).Ok? && Ascii.EqIgnoreCase(hint, Name)
    ensures Prettify(Prettify(input, options).value, options.(reverse := true, inputType := hint)) == Ok(input)
  {
  }

  /** The encoded output is four characters per started group of three input bytes. */
  lemma EncodedLength(input: string, options: Options)
    requires options.reverse && Ascii.EqIgnoreCase(options.inputType, Name)
    ensures |Prettify(input, options).value| == 4 * ((|Utf8.Encode(input)| + 2) / 3)
  {
    var bytes := Utf8.Encode(input);
    assert Prettify(input, options) == Ok(Base64Codec.Encode(bytes));
    Base64Codec.EncodeLength(bytes);
  }

  /** `test_decode_valid`. */
  lemma DecodeValidVectors()
    ensures Prettify("aGVsbG8gd29ybGQh", Options("all", false, false, map[])) == Ok("hello world!")
    ensures Prettify("SGkkQA==", Options("all", false, false, map[])) == Ok("Hi$@")
  {
    Base64Codec.Vectors();
    Utf8.DecodeEncode("hello world!");
    Utf8.DecodeEncode("Hi$@");
  }

  /** `test_decode_invalid`. */
  lemma DecodeInvalidVectors()
    ensures Prettify("aGVsbG8gd29ybGQht", Options("all", false, false, map[])) == Err(CannotConvert)
    ensures Prettify("aGVsbG8gd29ybGQh=======", Options("all", false, false, map[])) == Err(CannotConvert)
    ensures Prettify("aGVsbG8gd29ybG?h", Options("all", false, false, map[])) == Err(CannotConvert)
  {
    Base64Codec.StrayCharacterRejected();
    Base64Codec.ExcessPaddingRejected();
    Base64Codec.QuestionMarkRejected();
  }

  /** `test_encode_valid_input_type`: the hint matches in any ASCII case. */
  lemma EncodeValidHintVectors()
    ensures Prettify("hello world!", Options("base64", false, true, map[])) == Ok("aGVsbG8gd29ybGQh")
    ensures Prettify("", Options("base64", false, true, map[])) == Ok("")
    ensures Prettify("Hi$@", Options("BASE64", false, true, map[])) == Ok("SGkkQA==")
  {
    EncodeWithHint("hello world!", "base64");
    EncodeWithHint("", "base64");
    EncodeWithHint("Hi$@", "BASE64");
    Base64Codec.HelloVector();
    Base64Codec.HiVector();
  }

  lemma EncodeWithHint(text: string, hint: string)
    requires hint == "base64" || hint == "BASE64"
    ensures Prettify(text, Options(hint, false, true, map[])) == Ok(Base64Codec.Encode(Utf8.Encode(text)))
  {
    assert Ascii.EqIgnoreCase(hint, Name);
  }

  /** `test_encode_invalid_input_type`: neither `"all"` nor another converter's name allows encoding. */
  lemma EncodeInvalidHintVectors()
    ensures Prettify("hello world!", Options("all", false, true, map[])) == Err(CannotConvert)
    ensures Prettify("", Options("JSON", false, true, map[])) == Err(CannotConvert)
  {
    assert !Ascii.EqIgnoreCase("all", Name);
    assert !Ascii.EqIgnoreCase("JSON", Name) by {
      assert Ascii.ToLower("JSON"[0]) != Ascii.ToLower(Name[0]);
    }
  }
}
