/**
 * The JSON converter (src/converters/json_converter.rs): parse the input,
 * then write the value back pretty (or compact when reversing), coloured
 * unless the `color` option turns colour off.
 */
module JsonConverter {
  import opened Wrappers
  import opened Options
  import opened JsonValue
  import ColoredJson
  import ConverterUtils
  import Decimal
  import Utf8
  import JsonWhitespace

  const Name := "JSON"
  const IndentOption := "indent"
  const ColorOption := "color"
  const OptionNames := [IndentOption, ColorOption]

  /** The converter's own settings: spaces per indent level, and whether to colour. */
  datatype JsonOptions = JsonOptions(indent: ConverterUtils.u8, color: bool)

  function DefaultOptions(): (o: JsonOptions)
    ensures o.indent == 4 && o.color
  {
    JsonOptions(4, true)
  }

  /** Each setting read from the raw options, falling back to its default when absent or unreadable. */
  function FromOptions(raw: map<string, string>): (o: JsonOptions)
    ensures IndentOption !in raw ==> o.indent == DefaultOptions().indent
    ensures ColorOption !in raw ==> o.color == DefaultOptions().color
    ensures ColorOption in raw && raw[ColorOption] == "false" ==> !o.color
    ensures ColorOption in raw && raw[ColorOption] == "true" ==> o.color
    ensures o.indent == DefaultOptions().indent
         || (IndentOption in raw && Decimal.ParseUnsigned(raw[IndentOption], 0xFF) == Some(o.indent as nat))
  {
    JsonOptions(
      ConverterUtils.ExtractU8(IndentOption, raw, DefaultOptions().indent),
      ConverterUtils.ExtractBool(ColorOption, raw, DefaultOptions().color))
  }

  /**
   * With the default options the converter-specific map is empty, so the JSON
   * converter writes with four spaces of indent, in colour.
   */
  lemma DefaultsResolve()
    ensures FromOptions(Default().converterSpecific) == JsonOptions(4, true)
    ensures IndentStr(FromOptions(Default().converterSpecific).indent) == "    "
  {
  }

  /** `get_indent_str`: `n` spaces. */
  function IndentStr(n: nat): (s: string)
    ensures |s| == n
    ensures forall i :: 0 <= i < |s| ==> s[i] == ' '
  {
    if n == 0 then "" else " " + IndentStr(n - 1)
  }

  /** Compact when reversing, otherwise pretty with `indent` spaces per level. */
  function LayoutFor(reverse: bool, indent: nat): (layout: Layout)
    ensures layout.Compact? <==> reverse
    ensures layout.Pretty? ==> layout.indent == IndentStr(indent)
  {
    if reverse then Compact else Pretty(IndentStr(indent))
  }

  /**
   * `format`: the four colour/reverse branches. None of them fails: the
   * uncoloured pretty branch goes through bytes and `String::from_utf8`,
   * which accepts what the serializer wrote.
   */
  function Format(parsed: Value, options: Options, json: JsonOptions): (r: Result<string, Error>)
    ensures r.Ok?
    ensures ColoredJson.StripAnsi(r.value) == Text(parsed, LayoutFor(options.reverse, json.indent), 0)
    ensures !json.color ==> r.value == Text(parsed, LayoutFor(options.reverse, json.indent), 0)
  {
    var layout := LayoutFor(options.reverse, json.indent);
    if json.color then
      ColoredJson.StripColored(parsed, layout);
      Ok(ColoredJson.Colored(parsed, layout))
    else if options.reverse then
      ColoredJson.TextClean(parsed, Compact, 0);
      ColoredJson.StripClean(Text(parsed, Compact, 0));
      Ok(Text(parsed, Compact, 0))
    else
      var text := Text(parsed, layout, 0);
      Utf8.DecodeEncode(text);
      ColoredJson.TextClean(parsed, layout, 0);
      ColoredJson.StripClean(text);
      match Utf8.Decode(Utf8.Encode(text))
      case Some(formatted) => Ok(formatted)
      case None => Err(CannotConvert)
  }

  /**
   * `prettify`: settings from the converter-specific options, then the
   * input is parsed (`parse` stands for `serde_json::from_str`) and formatted;
   * input that does not parse cannot be converted, whatever the settings.
   */
  function Prettify(input: string, options: Options, parse: string -> Option<Value>): (r: Result<string, Error>)
    ensures parse(input).None? <==> r == Err(CannotConvert)
    ensures parse(input).Some? ==>
      r.Ok? && ColoredJson.StripAnsi(r.value) == Text(parse(input).value, LayoutFor(options.reverse, FromOptions(options.converterSpecific).indent), 0)
  {
    var json := FromOptions(options.converterSpecific);
    match parse(input)
    case Some(parsed) => Format(parsed, options, json)
    case None => Err(CannotConvert)
  }

  /** Formatting depends only on the parsed value: inputs that parse alike print alike. */
  lemma SameValueSameOutput(a: string, b: string, options: Options, parse: string -> Option<Value>)
    requires parse(a) == parse(b)
    ensures Prettify(a, options, parse) == Prettify(b, options, parse)
  {
  }

  /** Setting `color` leaves the indent setting as it was. */
  lemma ColorKeepsIndent(raw: map<string, string>, c: string)
    ensures FromOptions(raw[ColorOption := c]).indent == FromOptions(raw).indent
  {
    var raw' := raw[ColorOption := c];
    assert IndentOption in raw' <==> IndentOption in raw;
    assert IndentOption in raw ==> raw'[IndentOption] == raw[IndentOption];
  }

  /**
   * Turning colour on and stripping the escapes again gives exactly what the
   * converter writes with colour off, in both directions.
   */
  lemma StripColorGivesPlain(input: string, options: Options, parse: string -> Option<Value>)
    requires parse(input).Some?
    ensures
      var on := options.(converterSpecific := options.converterSpecific[ColorOption := "true"]);
      var off := options.(converterSpecific := options.converterSpecific[ColorOption := "false"]);
      Prettify(input, off, parse).Ok?
      && ColoredJson.StripAnsi(Prettify(input, on, parse).value) == Prettify(input, off, parse).value
  {
    ColorKeepsIndent(options.converterSpecific, "true");
    ColorKeepsIndent(options.converterSpecific, "false");
  }

  /** Reversing writes the value on one line: no line break and no other control character. */
  lemma ReverseIsOneLine(input: string, options: Options, parse: string -> Option<Value>)
    requires parse(input).Some? && options.reverse
    ensures Printable(ColoredJson.StripAnsi(Prettify(input, options, parse).value))
    ensures !FromOptions(options.converterSpecific).color ==> Printable(Prettify(input, options, parse).value)
  {
    CompactIsPrintable(parse(input).value, 0);
  }

  /**
   * `--reverse` undoes the pretty layout and nothing else: the reversed text
   * is the pretty text with the whitespace between its tokens removed, and
   * it has no such whitespace left (colours set aside).
   */
  lemma ReverseIsMinified(input: string, options: Options, parse: string -> Option<Value>)
    requires parse(input).Some?
    ensures JsonWhitespace.Minify(ColoredJson.StripAnsi(Prettify(input, options.(reverse := false), parse).value))
            == ColoredJson.StripAnsi(Prettify(input, options.(reverse := true), parse).value)
    ensures JsonWhitespace.Minify(ColoredJson.StripAnsi(Prettify(input, options.(reverse := true), parse).value))
            == ColoredJson.StripAnsi(Prettify(input, options.(reverse := true), parse).value)
  {
    var indent := IndentStr(FromOptions(options.converterSpecific).indent);
    JsonWhitespace.CompactIsMinified(parse(input).value, indent, 0);
  }

  /** The options the tests build: `color` and `indent` given as text. */
  function TestOptions(reverse: bool, color: string, indent: string): Options {
    Options("all", false, reverse, map[ColorOption := color, IndentOption := indent])
  }

  lemma TestSettings(color: string, indent: string, n: ConverterUtils.u8)
    requires color == "true" || color == "false"
    requires indent == Decimal.Text(n)
    ensures FromOptions(map[ColorOption := color, IndentOption := indent]) == JsonOptions(n, color == "true")
  {
    Decimal.ParseText(n, 0xFF);
  }

  /** `{"json": true}` as `serde_json` parses it. */
  const JsonTrue := Object([Member("json", Bool(true))])
  /** `{"json":"string"}` as `serde_json` parses it. */
  const JsonString := Object([Member("json", Str("string"))])

  lemma JsonTrueText()
    ensures Text(JsonTrue, Pretty("    "), 0) == "{\n    \"json\": true\n}"
  {
    JsonTrueSteps("json", "    ");
  }

  lemma JsonTrueSteps(key: string, indent: string)
    requires key == "json" && indent == "    "
    ensures Text(Object([Member(key, Bool(true))]), Pretty(indent), 0) == "{\n    \"json\": true\n}"
  {
    QuotedJson(key);
    FirstSep(indent, "\n    ");
    OneMemberPretty(key, Bool(true), indent, "\"json\"", "\n    ", "true");
    JsonTrueJoined();
  }

  lemma JsonTrueJoined()
    ensures "{" + ("\n    " + "\"json\"" + ": " + "true") + "\n" + "}" == "{\n    \"json\": true\n}"
  {
  }

  lemma JsonStringText()
    ensures Text(JsonString, Pretty("  "), 0) == "{\n  \"json\": \"string\"\n}"
    ensures Text(JsonString, Compact, 0) == "{\"json\":\"string\"}"
  {
    JsonStringSteps("json", "string", "  ");
  }

  lemma JsonStringSteps(key: string, value: string, indent: string)
    requires key == "json" && value == "string" && indent == "  "
    ensures Text(Object([Member(key, Str(value))]), Pretty(indent), 0) == "{\n  \"json\": \"string\"\n}"
    ensures Text(Object([Member(key, Str(value))]), Compact, 0) == "{\"json\":\"string\"}"
  {
    QuotedJson(key);
    QuotedString(value);
    FirstSep(indent, "\n  ");
    OneMemberPretty(key, Str(value), indent, "\"json\"", "\n  ", "\"string\"");
    OneMemberCompact(key, Str(value), "\"json\"", "\"string\"");
    JsonStringJoined();
  }

  lemma JsonStringJoined()
    ensures "{" + ("\n  " + "\"json\"" + ": " + "\"string\"") + "\n" + "}" == "{\n  \"json\": \"string\"\n}"
    ensures "{" + ("" + "\"json\"" + ":" + "\"string\"") + "" + "}" == "{\"json\":\"string\"}"
  {
  }

  lemma QuotedJson(key: string)
    requires key == "json"
    ensures Quote(key) == "\"json\""
  {
    EscapeKeepsPlain(key);
  }

  lemma QuotedString(value: string)
    requires value == "string"
    ensures Quote(value) == "\"string\""
  {
    EscapeKeepsPlain(value);
  }

  lemma FirstSep(indent: string, sep: string)
    requires sep == "\n" + indent
    ensures Sep(Pretty(indent), 1, true) == sep
  {
    assert Repeat(indent, 1) == indent;
  }

  lemma OneMemberPretty(key: string, v: Value, indent: string, quoted: string, sep: string, value: string)
    requires Quote(key) == quoted && Sep(Pretty(indent), 1, true) == sep && Text(v, Pretty(indent), 1) == value
    ensures Text(Object([Member(key, v)]), Pretty(indent), 0) == "{" + (sep + quoted + ": " + value) + "\n" + "}"
  {
    SingleMemberText(key, v, Pretty(indent), 0);
  }

  lemma OneMemberCompact(key: string, v: Value, quoted: string, value: string)
    requires Quote(key) == quoted && Text(v, Compact, 1) == value
    ensures Text(Object([Member(key, v)]), Compact, 0) == "{" + ("" + quoted + ":" + value) + "" + "}"
  {
    SingleMemberText(key, v, Compact, 0);
  }

  /** Uncoloured, indent 4: the input's own whitespace does not matter. */
  lemma PrettyVector(parse: string -> Option<Value>)
    requires parse("{\"json\": true}") == Some(JsonTrue)
    ensures Prettify("{\"json\": true}", TestOptions(false, "false", "4"), parse) == Ok("{\n    \"json\": true\n}")
  {
    TestSettings("false", "4", 4);
    assert IndentStr(4) == "    ";
    JsonTrueText();
  }

  /** Uncoloured, indent 2. */
  lemma IndentTwoVector(parse: string -> Option<Value>)
    requires parse("{\"json\":\"string\"}") == Some(JsonString)
    ensures Prettify("{\"json\":\"string\"}", TestOptions(false, "false", "2"), parse) == Ok("{\n  \"json\": \"string\"\n}")
  {
    TestSettings("false", "2", 2);
    assert IndentStr(2) == "  ";
    JsonStringText();
  }

  /** Uncoloured and reversed: compact output with no whitespace. */
  lemma CompactVector(parse: string -> Option<Value>)
    requires parse("{\n    \"json\":\"string\"\n}") == Some(JsonString)
    ensures Prettify("{\n    \"json\":\"string\"\n}", TestOptions(true, "false", "4"), parse) == Ok("{\"json\":\"string\"}")
  {
    TestSettings("false", "4", 4);
    JsonStringText();
  }

  /** The pieces `colored_json` writes for `{"json": true}` at indent 4. */
  lemma JsonTrueTokens()
    ensures ColoredJson.Tokens(JsonTrue, Pretty("    "), 0) == [
      ColoredJson.Piece(ColoredJson.Bracket, "{"),
      ColoredJson.Piece(ColoredJson.Plain, "\n    "),
      ColoredJson.Piece(ColoredJson.Key, "\""),
      ColoredJson.Piece(ColoredJson.Key, "json"),
      ColoredJson.Piece(ColoredJson.Key, "\""),
      ColoredJson.Piece(ColoredJson.Plain, ": "),
      ColoredJson.Piece(ColoredJson.Plain, "true"),
      ColoredJson.Piece(ColoredJson.Bracket, "\n}")]
  {
    JsonTrueTokenSteps("json", "    ");
  }

  lemma JsonTrueTokenSteps(key: string, indent: string)
    requires key == "json" && indent == "    "
    ensures ColoredJson.Tokens(Object([Member(key, Bool(true))]), Pretty(indent), 0) == [
      ColoredJson.Piece(ColoredJson.Bracket, "{"),
      ColoredJson.Piece(ColoredJson.Plain, "\n    "),
      ColoredJson.Piece(ColoredJson.Key, "\""),
      ColoredJson.Piece(ColoredJson.Key, "json"),
      ColoredJson.Piece(ColoredJson.Key, "\""),
      ColoredJson.Piece(ColoredJson.Plain, ": "),
      ColoredJson.Piece(ColoredJson.Plain, "true"),
      ColoredJson.Piece(ColoredJson.Bracket, "\n}")]
  {
    var keyPieces := [ColoredJson.Piece(ColoredJson.Key, "\""), ColoredJson.Piece(ColoredJson.Key, "json"),
                      ColoredJson.Piece(ColoredJson.Key, "\"")];
    PlainPieces(ColoredJson.Key, key);
    FirstSep(indent, "\n    ");
    assert Close(Pretty(indent), 0) + "}" == "\n}";
    OneMemberTokens(key, Bool(true), Pretty(indent), "\n    ", keyPieces, [ColoredJson.Piece(ColoredJson.Plain, "true")], "\n}");
  }

  /** A string with nothing to escape is coloured as quote, text, quote. */
  lemma PlainPieces(style: ColoredJson.Style, s: string)
    requires s != [] && forall i :: 0 <= i < |s| ==> Unescaped(s[i])
    ensures ColoredJson.StringPieces(style, s)
         == [ColoredJson.Piece(style, "\""), ColoredJson.Piece(style, s), ColoredJson.Piece(style, "\"")]
  {
    EscapeKeepsPlain(s);
  }

  lemma OneMemberTokens(key: string, v: Value, layout: Layout, sep: string, keyPieces: seq<ColoredJson.Piece>,
                        valuePieces: seq<ColoredJson.Piece>, close: string)
    requires Sep(layout, 1, true) == sep && ColoredJson.StringPieces(ColoredJson.Key, key) == keyPieces
    requires ColoredJson.Tokens(v, layout, 1) == valuePieces && Close(layout, 0) + "}" == close
    ensures ColoredJson.Tokens(Object([Member(key, v)]), layout, 0)
         == [ColoredJson.Piece(ColoredJson.Bracket, "{"), ColoredJson.Piece(ColoredJson.Plain, sep)]
          + keyPieces + [ColoredJson.Piece(ColoredJson.Plain, Colon(layout))]
          + valuePieces + [ColoredJson.Piece(ColoredJson.Bracket, close)]
  {
    SingleMemberTokens(key, v, layout, 1);
  }

  lemma SingleMemberTokens(key: string, v: Value, layout: Layout, level: nat)
    ensures ColoredJson.MemberTokens([Member(key, v)], layout, level, true)
         == [ColoredJson.Piece(ColoredJson.Plain, Sep(layout, level, true))]
          + ColoredJson.StringPieces(ColoredJson.Key, key) + [ColoredJson.Piece(ColoredJson.Plain, Colon(layout))]
          + ColoredJson.Tokens(v, layout, level)
  {
    var members := [Member(key, v)];
    assert members[1..] == [];
  }

  /** `{"json":"string"}` pretty at indent 2, and compact. */
  lemma JsonStringTokens()
    ensures ColoredJson.Tokens(JsonString, Pretty("  "), 0) == [
      ColoredJson.Piece(ColoredJson.Bracket, "{"),
      ColoredJson.Piece(ColoredJson.Plain, "\n  "),
      ColoredJson.Piece(ColoredJson.Key, "\""),
      ColoredJson.Piece(ColoredJson.Key, "json"),
      ColoredJson.Piece(ColoredJson.Key, "\""),
      ColoredJson.Piece(ColoredJson.Plain, ": "),
      ColoredJson.Piece(ColoredJson.StringValue, "\""),
      ColoredJson.Piece(ColoredJson.StringValue, "string"),
      ColoredJson.Piece(ColoredJson.StringValue, "\""),
      ColoredJson.Piece(ColoredJson.Bracket, "\n}")]
    ensures ColoredJson.Tokens(JsonString, Compact, 0) == [
      ColoredJson.Piece(ColoredJson.Bracket, "{"),
      ColoredJson.Piece(ColoredJson.Plain, ""),
      ColoredJson.Piece(ColoredJson.Key, "\""),
      ColoredJson.Piece(ColoredJson.Key, "json"),
      ColoredJson.Piece(ColoredJson.Key, "\""),
      ColoredJson.Piece(ColoredJson.Plain, ":"),
      ColoredJson.Piece(ColoredJson.StringValue, "\""),
      ColoredJson.Piece(ColoredJson.StringValue, "string"),
      ColoredJson.Piece(ColoredJson.StringValue, "\""),
      ColoredJson.Piece(ColoredJson.Bracket, "}")]
  {
    JsonStringTokenSteps("json", "string", "  ");
  }

  lemma JsonStringTokenSteps(key: string, value: string, indent: string)
    requires key == "json" && value == "string" && indent == "  "
    ensures ColoredJson.Tokens(Object([Member(key, Str(value))]), Pretty(indent), 0) == [
      ColoredJson.Piece(ColoredJson.Bracket, "{"),
      ColoredJson.Piece(ColoredJson.Plain, "\n  "),
      ColoredJson.Piece(ColoredJson.Key, "\""),
      ColoredJson.Piece(ColoredJson.Key, "json"),
      ColoredJson.Piece(ColoredJson.Key, "\""),
      ColoredJson.Piece(ColoredJson.Plain, ": "),
      ColoredJson.Piece(ColoredJson.StringValue, "\""),
      ColoredJson.Piece(ColoredJson.StringValue, "string"),
      ColoredJson.Piece(ColoredJson.StringValue, "\""),
      ColoredJson.Piece(ColoredJson.Bracket, "\n}")]
    ensures ColoredJson.Tokens(Object([Member(key, Str(value))]), Compact, 0) == [
      ColoredJson.Piece(ColoredJson.Bracket, "{"),
      ColoredJson.Piece(ColoredJson.Plain, ""),
      ColoredJson.Piece(ColoredJson.Key, "\""),
      ColoredJson.Piece(ColoredJson.Key, "json"),
      ColoredJson.Piece(ColoredJson.Key, "\""),
      ColoredJson.Piece(ColoredJson.Plain, ":"),
      ColoredJson.Piece(ColoredJson.StringValue, "\""),
      ColoredJson.Piece(ColoredJson.StringValue, "string"),
      ColoredJson.Piece(ColoredJson.StringValue, "\""),
      ColoredJson.Piece(ColoredJson.Bracket, "}")]
  {
    var keyPieces := [ColoredJson.Piece(ColoredJson.Key, "\""), ColoredJson.Piece(ColoredJson.Key, "json"),
                      ColoredJson.Piece(ColoredJson.Key, "\"")];
    var valuePieces := [ColoredJson.Piece(ColoredJson.StringValue, "\""), ColoredJson.Piece(ColoredJson.StringValue, "string"),
                        ColoredJson.Piece(ColoredJson.StringValue, "\"")];
    KeyValuePieces(key, value, keyPieces, valuePieces);
    PrettyStringTokens(key, value, indent, keyPieces, valuePieces);
    CompactStringTokens(key, value, keyPieces, valuePieces);
    StringPiecesJoined(keyPieces, valuePieces, "\n  ", ": ", "\n}");
    StringPiecesJoined(keyPieces, valuePieces, "", ":", "}");
  }

  lemma StringPiecesJoined(keyPieces: seq<ColoredJson.Piece>, valuePieces: seq<ColoredJson.Piece>,
                           sep: string, colon: string, close: string)
    requires |keyPieces| == 3 && |valuePieces| == 3
    ensures [ColoredJson.Piece(ColoredJson.Bracket, "{"), ColoredJson.Piece(ColoredJson.Plain, sep)]
          + keyPieces + [ColoredJson.Piece(ColoredJson.Plain, colon)]
          + valuePieces + [ColoredJson.Piece(ColoredJson.Bracket, close)]
         == [ColoredJson.Piece(ColoredJson.Bracket, "{"), ColoredJson.Piece(ColoredJson.Plain, sep),
             keyPieces[0], keyPieces[1], keyPieces[2], ColoredJson.Piece(ColoredJson.Plain, colon),
             valuePieces[0], valuePieces[1], valuePieces[2], ColoredJson.Piece(ColoredJson.Bracket, close)]
  {
  }

  lemma KeyValuePieces(key: string, value: string, keyPieces: seq<ColoredJson.Piece>, valuePieces: seq<ColoredJson.Piece>)
    requires key == "json" && value == "string"
    requires keyPieces == [ColoredJson.Piece(ColoredJson.Key, "\""), ColoredJson.Piece(ColoredJson.Key, "json"),
                           ColoredJson.Piece(ColoredJson.Key, "\"")]
    requires valuePieces == [ColoredJson.Piece(ColoredJson.StringValue, "\""), ColoredJson.Piece(ColoredJson.StringValue, "string"),
                             ColoredJson.Piece(ColoredJson.StringValue, "\"")]
    ensures ColoredJson.StringPieces(ColoredJson.Key, key) == keyPieces
    ensures ColoredJson.StringPieces(ColoredJson.StringValue, value) == valuePieces
  {
    PlainPieces(ColoredJson.Key, key);
    PlainPieces(ColoredJson.StringValue, value);
  }

  lemma PrettyStringTokens(key: string, value: string, indent: string, keyPieces: seq<ColoredJson.Piece>,
                           valuePieces: seq<ColoredJson.Piece>)
    requires indent == "  "
    requires ColoredJson.StringPieces(ColoredJson.Key, key) == keyPieces
    requires ColoredJson.StringPieces(ColoredJson.StringValue, value) == valuePieces
    ensures ColoredJson.Tokens(Object([Member(key, Str(value))]), Pretty(indent), 0)
         == [ColoredJson.Piece(ColoredJson.Bracket, "{"), ColoredJson.Piece(ColoredJson.Plain, "\n  ")]
          + keyPieces + [ColoredJson.Piece(ColoredJson.Plain, ": ")]
          + valuePieces + [ColoredJson.Piece(ColoredJson.Bracket, "\n}")]
  {
    FirstSep(indent, "\n  ");
    assert Close(Pretty(indent), 0) + "}" == "\n}";
    OneMemberTokens(key, Str(value), Pretty(indent), "\n  ", keyPieces, valuePieces, "\n}");
  }

  lemma CompactStringTokens(key: string, value: string, keyPieces: seq<ColoredJson.Piece>, valuePieces: seq<ColoredJson.Piece>)
    requires ColoredJson.StringPieces(ColoredJson.Key, key) == keyPieces
    requires ColoredJson.StringPieces(ColoredJson.StringValue, value) == valuePieces
    ensures ColoredJson.Tokens(Object([Member(key, Str(value))]), Compact, 0)
         == [ColoredJson.Piece(ColoredJson.Bracket, "{"), ColoredJson.Piece(ColoredJson.Plain, "")]
          + keyPieces + [ColoredJson.Piece(ColoredJson.Plain, ":")]
          + valuePieces + [ColoredJson.Piece(ColoredJson.Bracket, "}")]
  {
    assert Close(Compact, 0) + "}" == "}";
    OneMemberTokens(key, Str(value), Compact, "", keyPieces, valuePieces, "}");
  }

  /** Coloured, indent 4 (and the same output whatever whitespace the input had). */
  lemma ColorVector(parse: string -> Option<Value>)
    requires parse("{\"json\": true}") == Some(JsonTrue)
    ensures Prettify("{\"json\": true}", TestOptions(false, "true", "4"), parse)
         == Ok(ColoredJson.Render(ColoredJson.Tokens(JsonTrue, Pretty("    "), 0)))
  {
    TestSettings("true", "4", 4);
    assert IndentStr(4) == "    ";
  }

  /** Coloured, indent 2. */
  lemma ColorIndentTwoVector(parse: string -> Option<Value>)
    requires parse("{\"json\":\"string\"}") == Some(JsonString)
    ensures Prettify("{\"json\":\"string\"}", TestOptions(false, "true", "2"), parse)
         == Ok(ColoredJson.Render(ColoredJson.Tokens(JsonString, Pretty("  "), 0)))
  {
    TestSettings("true", "2", 2);
    assert IndentStr(2) == "  ";
  }

  /** Coloured and reversed, with no `indent` key at all. */
  lemma ColorCompactVector(parse: string -> Option<Value>)
    requires parse("{\n    \"json\":\"string\"\n}") == Some(JsonString)
    ensures Prettify("{\n    \"json\":\"string\"\n}", Options("all", false, true, map[ColorOption := "true"]), parse)
         == Ok(ColoredJson.Render(ColoredJson.Tokens(JsonString, Compact, 0)))
  {
  }
}
