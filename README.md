# Prettify, modelled in Dafny

Prettify takes a piece of text and tries to make it readable. It keeps an
ordered registry of converters: JSON first, then Base64. Each converter is
tried in turn, and the first one that succeeds supplies the output. When none
succeeds, the input itself comes back as the error.

- The JSON converter parses the text and writes it back. It uses the
  converter-specific options `indent` (spaces per level, default 4) and
  `color` (default on).
- Without `reverse` the output is pretty: one member per line, each nesting
  level indented once more. With `reverse` it is compact, on one line.
- With colour on, brackets, keys and string values are wrapped in ANSI escape
  sequences. Removing those sequences gives exactly the uncoloured text.
- The Base64 converter decodes standard padded Base64 (section 4 of RFC 4648)
  and requires the bytes to be UTF-8 (RFC 3629).
- In reverse, Base64 encodes the text, but only when the format hint names
  Base64 in any ASCII case.
- Option values arrive as strings. `extract_u16`/`extract_u8` read them as
  Rust reads unsigned integers, and fall back to the default when the key is
  missing or the value does not parse.

Modules:

- `Options`: the options record and its defaults.
- `ConverterUtils` and `Decimal`: typed option lookup and the decimal syntax
  it accepts.
- `Utf8`: RFC 3629 encoding and strict decoding.
- `Base64Codec`: RFC 4648 encoding and strict decoding.
- `Base64Converter`: the Base64 converter.
- `JsonValue`: JSON values and the compact and pretty text `serde_json`
  writes.
- `JsonWhitespace`: the whitespace between JSON tokens (section 2 of RFC
  8259) and its removal.
- `ColoredJson`: the coloured text `colored_json` writes.
- `JsonConverter`: the JSON converter.
- `Converters`: the registry.
- `Dispatch`: `prettify` and `prettify_default`.
- `Wrappers` and `Ascii`: small utilities.

All of it is functions and lemmas, except `prettify` and `prettify_default`.
These are the methods `Dispatch.Prettify` and `Dispatch.PrettifyDefault`. The
loop over the registry is the method `Dispatch.Search`, proved against the
functions `FirstSuccess`, `Tried` and `Log`.

The JSON parser (`serde_json::from_str`) is a parameter `parse` of every
operation that needs it. Only its outcome (a value, or nothing) matters.

## Model

| member | source | states |
|---|---|---|
| Options.Default | src/options.rs:11-18 | the default hint is `"all"`; verbose and reverse are off; no converter-specific options |
| ConverterUtils.ExtractUnsigned | src/converter_utils.rs:3-14 | total lookup: the result never exceeds the bound; an absent key gives the default; otherwise the result is the default or the parsed value of the key's text |
| ConverterUtils.ExtractU16 | src/converter_utils.rs:3-14 | an absent key gives the default; the result is a `u16` |
| ConverterUtils.ExtractU8 | src/converters/json_converter.rs:100-104 | the same rule as `extract_u16` with bound 255; an absent key gives the default |
| ConverterUtils.ExtractBool | src/converters/json_converter.rs:105-109 | an absent key gives the default; `true` in any ASCII case gives true and `false` in any ASCII case gives false; any other text gives the default |
| ConverterUtils.ExtractBoolExamples | src/converters/json_converter.rs:105-109 | `"TRUE"` gives true and `"False"` gives false; `"t"`, `"1"` and `""` give the default |
| ConverterUtils.ExtractUnsignedParsed | src/converter_utils.rs:9-10 | a present value `[+]digits` denoting a number within the bound returns that number |
| ConverterUtils.ExtractUnsignedFallsBack | src/converter_utils.rs:9-11 | a present value that is not `[+]digits` within the bound gives the default |
| ConverterUtils.ExtractU16RoundTrip | src/converter_utils.rs:9-10 | storing a `u16`'s decimal text under the key and extracting it gives the number back |
| ConverterUtils.ExtractU8RoundTrip | src/converters/json_converter.rs:100-104 | the same for `u8` |
| ConverterUtils.ExtractU8Examples | src/converter_utils.rs:9-11 | `"2"` and `"+2"` give 2; `"256"`, `"-1"`, `""`, `"+"` and `"abc"` give the default |
| ConverterUtils.ExtractU16Examples | src/converter_utils.rs:9-11 | `"65535"` is accepted; `"65536"` gives the default |
| Decimal.ParseUnsigned | src/converter_utils.rs:9 | a parsed value never exceeds the bound |
| Decimal.ParseUnsignedAccepts | src/converter_utils.rs:9 | parsing gives `n` if and only if the text is `d` or `+d` with `d` a non-empty digit string denoting `n`, and `n` is within the bound |
| Decimal.ParseText | src/converter_utils.rs:9-10 | the decimal text of a number within the bound parses back to it, with or without a leading `+` |
| Decimal.ParseRejects | src/converter_utils.rs:9-11 | empty text, a lone sign, a leading `-` and any non-digit are refused |
| Decimal.ParseRejectsOverflow | src/converter_utils.rs:9-11 | digits denoting a value above the bound are refused, with or without `+` |
| Utf8.EncodeChar | src/converters/base64_converter.rs:27 | a char takes 1 to 4 bytes; it takes one byte exactly when it is ASCII; every later byte is a continuation byte |
| Utf8.DecodeFirst | src/converters/base64_converter.rs:44 | a successful read of one char consumed exactly that char's encoding |
| Utf8.Decode | src/converters/base64_converter.rs:44 | `String::from_utf8`: decoded text encodes back to the same bytes |
| Utf8.DecodeFirstEncodeChar | src/converters/base64_converter.rs:44 | every char's encoding is read back as that char, whatever follows |
| Utf8.DecodeEncode | src/converters/base64_converter.rs:44-45 | the bytes of any text decode to that text |
| Utf8.ValidIffEncoding | src/converters/base64_converter.rs:43-47 | bytes are accepted exactly when they are the encoding of some text |
| Utf8.InvalidExamples | src/converters/base64_converter.rs:43-47 | an overlong form, encoded surrogates, stray continuation bytes, 0xFF and values above U+10FFFF are refused |
| Base64Codec.CharIndex | src/converters/base64_converter.rs:4 | an alphabet character's 6-bit value maps back to the character |
| Base64Codec.DecodeGroup | src/converters/base64_converter.rs:35 | four alphabet characters decode to three bytes that encode back to them |
| Base64Codec.DecodePadded2 | src/converters/base64_converter.rs:35 | an `xx==` group decodes to one byte that encodes back to it |
| Base64Codec.DecodePadded1 | src/converters/base64_converter.rs:35 | an `xxx=` group decodes to two bytes that encode back to it |
| Base64Codec.DecodeLast | src/converters/base64_converter.rs:35 | the last group decodes to 1 to 3 bytes that encode back to it |
| Base64Codec.Decode | src/converters/base64_converter.rs:35 | `base64::decode`: decoded bytes encode back to the input text |
| Base64Codec.DecodeEncode | src/converters/base64_converter.rs:27 | decoding an encoding gives the original bytes |
| Base64Codec.DecodeIffEncoding | src/converters/base64_converter.rs:35 | decoding gives `bs` exactly when `bs` encodes to the text |
| Base64Codec.EncodeLength | src/converters/base64_converter.rs:27 | an encoding has 4·⌈n/3⌉ characters |
| Base64Codec.EncodeAlphabet | src/converters/base64_converter.rs:27 | every encoded character is in the alphabet, except a trailing `=` or `==` |
| Base64Codec.DecodeAcceptsOnlyEncodings | src/converters/base64_converter.rs:35-37 | accepted text has a length that is a multiple of four; its characters are alphabet characters except a trailing `=` or `==` |
| Base64Codec.RejectLength | src/converters/base64_converter.rs:35-37 | text whose length is not a multiple of four is refused |
| Base64Codec.RejectForeign | src/converters/base64_converter.rs:35-37 | text holding a character outside the alphabet and not `=` is refused |
| Base64Codec.Vectors | src/converters/base64_converter.rs:65-72 | `"hello world!"` ↔ `"aGVsbG8gd29ybGQh"`, `"Hi$@"` ↔ `"SGkkQA=="`, `""` ↔ `""` |
| Base64Codec.HelloVector | src/converters/base64_converter.rs:109-112 | `"hello world!"` encodes to `"aGVsbG8gd29ybGQh"` |
| Base64Codec.HiVector | src/converters/base64_converter.rs:118-121 | `"Hi$@"` encodes to `"SGkkQA=="` |
| Base64Codec.StrayCharacterRejected | src/converters/base64_converter.rs:85-88 | a stray 17th character is refused |
| Base64Codec.ExcessPaddingRejected | src/converters/base64_converter.rs:89-92 | excess `=` padding is refused |
| Base64Codec.QuestionMarkRejected | src/converters/base64_converter.rs:93-96 | `?` inside the text is refused |
| Base64Converter.U8sToString | src/converters/base64_converter.rs:43-48 | succeeds exactly on valid UTF-8, and the text's bytes are the input |
| Base64Converter.Prettify | src/converters/base64_converter.rs:24-40 | forward output is text whose Base64 encoding is the input; reverse output decodes to the input's bytes; reverse succeeds exactly when the hint equals `"Base64"` ignoring ASCII case |
| Base64Converter.ForwardIgnoresInputType | src/converters/base64_converter.rs:34-38 | the forward direction gives the same result for every hint |
| Base64Converter.ForwardFailures | src/converters/base64_converter.rs:35-37 | malformed Base64, or bytes that are not UTF-8, give `CannotConvert` |
| Base64Converter.ForwardIffEncoding | src/converters/base64_converter.rs:35-36 | forward conversion gives `text` exactly when the input is the encoding of `text`'s bytes |
| Base64Converter.EncodeThenDecode | src/converters/base64_converter.rs:25-27 | encoding with the Base64 hint succeeds, and decoding the result gives the text back |
| Base64Converter.DecodeThenEncode | src/converters/base64_converter.rs:35-36 | decoding and then encoding with the Base64 hint gives the input back |
| Base64Converter.EncodedLength | src/converters/base64_converter.rs:27 | the encoded output has 4·⌈n/3⌉ characters for n input bytes |
| Base64Converter.DecodeValidVectors | src/converters/base64_converter.rs:56-73 | `test_decode_valid` |
| Base64Converter.DecodeInvalidVectors | src/converters/base64_converter.rs:76-97 | `test_decode_invalid` |
| Base64Converter.EncodeValidHintVectors | src/converters/base64_converter.rs:100-122 | `test_encode_valid_input_type`, with hints `base64` and `BASE64` and the empty input |
| Base64Converter.EncodeWithHint | src/converters/base64_converter.rs:26-27 | with hint `base64` or `BASE64`, any text is encoded |
| Base64Converter.EncodeInvalidHintVectors | src/converters/base64_converter.rs:125-143 | `test_encode_invalid_input_type`: hints `all` and `JSON` refuse, even for empty input |
| JsonValue.Repeat | src/converters/json_converter.rs:68-70 | the indent repeated `level` times has `level` times its length |
| JsonValue.EscapeChar | src/converters/json_converter.rs:66 | an escaped character is non-empty and holds no control character |
| JsonValue.Escape | src/converters/json_converter.rs:66 | escaped string contents hold no control character |
| JsonValue.EscapeKeepsPlain | src/converters/json_converter.rs:66 | text with nothing to escape is written unchanged |
| JsonValue.UnescapeChar | src/converters/json_converter.rs:34 | reading an escaped character back gives the character, whatever follows |
| JsonValue.UnescapeEscape | src/converters/json_converter.rs:34 | reading escaped string contents back gives the original string |
| JsonValue.SingleMemberText | src/converters/json_converter.rs:177-183 | a one-member object is `{`, separator, key, colon, value, closing line, `}` |
| JsonValue.ItemsTextAppend | src/converters/json_converter.rs:200-227 | array elements are written in order: the text of `a + b` is the text of `a` followed by the text of `b` |
| JsonValue.CompactIsPrintable | src/converters/json_converter.rs:65-66 | compact text holds no line break or other control character |
| JsonValue.ReindentConcat | src/converters/json_converter.rs:200-227 | adding one indent after every line break distributes over concatenation |
| JsonValue.PrettyNesting | src/converters/json_converter.rs:200-227 | one nesting level deeper is the same text with one more indent after every line break |
| JsonValue.ItemsNesting | src/converters/json_converter.rs:200-227 | the same for the elements of an array |
| JsonValue.MembersNesting | src/converters/json_converter.rs:200-227 | the same for the members of an object |
| ColoredJson.Sgr | src/converters/json_converter.rs:48 | plain pieces have no SGR code; every code is made of parameter characters |
| ColoredJson.StyleCodes | src/converters/json_converter.rs:243-246 | brackets `ESC[1m`, keys `ESC[1;34m`, string values `ESC[32m`, each reset by `ESC[0m`; plain pieces unwrapped |
| ColoredJson.StripPrefix | src/converters/json_converter.rs:46-63 | text without an escape character passes through escape stripping unchanged |
| ColoredJson.StripStyled | src/converters/json_converter.rs:46-63 | a styled piece loses its opening sequence and its reset and keeps its text |
| ColoredJson.StripRender | src/converters/json_converter.rs:46-63 | stripping escapes from rendered pieces leaves exactly their plain text |
| ColoredJson.TokensText | src/converters/json_converter.rs:46-63 | the coloured pieces of a value, laid end to end, are its uncoloured text |
| ColoredJson.TokensClean | src/converters/json_converter.rs:46-63 | no piece text holds an escape character of its own |
| ColoredJson.StripColored | src/converters/json_converter.rs:46-63 | stripping the escapes from coloured text gives the uncoloured text in the same layout |
| JsonConverter.DefaultOptions | src/converters/json_converter.rs:91-96 | default indent 4, colour on |
| JsonConverter.FromOptions | src/converters/json_converter.rs:98-111 | missing keys give indent 4 and colour on; `color` `"true"`/`"false"` are obeyed; the indent is the default or the parsed `indent` value |
| JsonConverter.DefaultsResolve | src/converters/json_converter.rs:91-111 | with `Options::default` the converter writes four-space indents in colour |
| JsonConverter.ColorKeepsIndent | src/converters/json_converter.rs:98-111 | setting `color` never changes the indent |
| JsonConverter.IndentStr | src/converters/json_converter.rs:81-83 | `get_indent_str(n)` is exactly `n` spaces |
| JsonConverter.Format | src/converters/json_converter.rs:41-79 | all four branches succeed; with the escapes stripped the output is the serde_json text for the layout; without colour it is that text |
| JsonConverter.Prettify | src/converters/json_converter.rs:31-38 | input that does not parse gives `CannotConvert` whatever the settings, and only such input does; parsed input is formatted |
| JsonConverter.SameValueSameOutput | src/converters/json_converter.rs:34-35 | inputs that parse to the same value give the same output |
| JsonConverter.StripColorGivesPlain | src/converters/json_converter.rs:46-78 | the coloured output with its escapes stripped equals the uncoloured output, in both directions |
| JsonConverter.ReverseIsOneLine | src/converters/json_converter.rs:65-66 | reversed output is one printable line |
| JsonConverter.ReverseIsMinified | src/converters/json_converter.rs:46-78 | the reversed output is the pretty output with the whitespace between tokens removed, and has no such whitespace left (colours stripped) |
| JsonWhitespace.StripConcat | src/converters/json_converter.rs:65-66 | removing whitespace from a concatenation is removing it from each part, the second read from where the first left off |
| JsonWhitespace.SeparatorsReduce | src/converters/json_converter.rs:65-66 | a pretty separator, colon or closing line minifies to its compact form |
| JsonWhitespace.EscapeInString | src/converters/json_converter.rs:65-66 | the escaped contents of a string are kept whole and the reader stays inside the string |
| JsonWhitespace.QuoteReduces | src/converters/json_converter.rs:65-66 | a string literal is kept whole, whitespace inside it included |
| JsonWhitespace.TextReduces | src/converters/json_converter.rs:65-66 | for any value and any layout whose indent is whitespace, minifying its text gives its compact text |
| JsonWhitespace.CompactIsMinified | src/converters/json_converter.rs:65-66 | the pretty text minifies to the compact text, and the compact text has no whitespace between tokens |
| JsonConverter.JsonTrueText | src/converters/json_converter.rs:177-183 | `{"json": true}` at indent 4 is `{\n    "json": true\n}` |
| JsonConverter.JsonStringText | src/converters/json_converter.rs:282-289 | `{"json":"string"}` at indent 2, and compact |
| JsonConverter.PrettyVector | src/converters/json_converter.rs:177-183 | `test_convert_no_color`, first case |
| JsonConverter.IndentTwoVector | src/converters/json_converter.rs:282-289 | `test_convert_different_indent_size_no_color` |
| JsonConverter.CompactVector | src/converters/json_converter.rs:324-334 | `test_convert_reverse_no_color` |
| JsonConverter.JsonTrueTokens | src/converters/json_converter.rs:243-246 | the coloured pieces of `{"json": true}` at indent 4, with their styles |
| JsonConverter.JsonStringTokens | src/converters/json_converter.rs:305-308 | the coloured pieces of `{"json":"string"}` at indent 2, and compact |
| JsonConverter.ColorVector | src/converters/json_converter.rs:243-246 | `test_convert_color`, first case, as rendered pieces |
| JsonConverter.ColorIndentTwoVector | src/converters/json_converter.rs:305-308 | `test_convert_different_indent_size_color`, as rendered pieces |
| JsonConverter.ColorCompactVector | src/converters/json_converter.rs:349-361 | `test_convert_reverse_color`, with no `indent` key, as rendered pieces |
| Converters.Registry | src/converters.rs:13-18 | exactly two converters, JSON then Base64 |
| Converters.RegistryNames | src/converters.rs:13-18 | the names are distinct; JSON reads `indent` and `color`, Base64 reads nothing |
| Converters.RunIgnoresVerbose | src/converters.rs:10 | no converter's result depends on `verbose` |
| Dispatch.Search | src/lib.rs:12-29 | the loop returns the first success or the input; it logs each attempt when verbose and nothing otherwise; it invokes exactly the converters up to the first success |
| Dispatch.Prettify | src/lib.rs:11-32 | `prettify` is that search over the registry, with the real converters |
| Dispatch.PrettifyDefault | src/lib.rs:7-9 | `prettify_default(s)` is `prettify(s, Options::default())` |
| Dispatch.FirstSuccessIsFirstWinner | src/lib.rs:12-31 | the result is the output of the first converter that succeeds; it fails exactly when all fail, and then carries the input unchanged |
| Dispatch.StopsAtFirstWinner | src/lib.rs:16-21 | no later converter is invoked once one succeeds; the log ends with that converter's two lines |
| Dispatch.AllTriedOnFailure | src/lib.rs:12-31 | when nothing converts, every converter is tried in order and logged twice |
| Dispatch.SameOutcomesSameResult | src/lib.rs:12-29 | the result depends only on the converters' outcomes |
| Dispatch.VerboseIrrelevant | src/lib.rs:13-27 | `verbose` never changes the result |
| Dispatch.JsonWins | src/lib.rs:12-21 | input that parses as JSON comes out of the JSON converter, whatever Base64 would do |
| Dispatch.NotJsonReachesBase64 | src/lib.rs:11-31 | dispatch does not filter by hint: non-JSON input always reaches Base64, even with hint `"JSON"` |
| Dispatch.Base64Decides | src/lib.rs:12-31 | for non-JSON input the result is Base64's output, or the input when Base64 fails |
| Dispatch.DecodesBase64ByDefault | src/lib.rs:7-9 | with default options, `aGVsbG8gd29ybGQh` becomes `hello world!` |
| Dispatch.RejectsOtherText | src/lib.rs:31 | with default options, `not json` comes back as the error |

## Left out

- `src/main.rs` (command-line parsing and printing) and `src/converters/json.rs` (an unused stub written against an older converter interface) are not part of this model.
- `src/error.rs` is not part of this model. Only its `CannotConvert` case is used.
- The `Options` record follows the snapshot that `lib.rs`, `converters.rs` and both converters use: `input_type`, `verbose`, `reverse` and `converter_specific`. The `indent_size` field at `src/options.rs:5` belongs to an older snapshot. Its default of 4 is the JSON converter's default indent (`JsonConverter.DefaultsResolve`).
- `extract_u8` and `extract_bool` are called at `src/converters/json_converter.rs:100-109` but are not defined in this repository snapshot (`src/converter_utils.rs` defines only `extract_u16`). `extract_u8` is modelled by the `extract_u16` rule with bound 255.
- ConverterUtils.ExtractBool: modelled as `true` or `false` in any ASCII case (so `"TRUE"` is true), falling back to the default for any other text.
- Dispatch does not filter converters by the format hint. Every converter is tried, as `src/lib.rs:12-29` does.
- Dispatch.Prettify: the `println!` lines are returned as a sequence of strings instead of being printed.
- Base64Converter.Prettify: the diagnostic printed when the hint does not allow encoding is not modelled.
- `serde_json::from_str` is a parameter `parse`. The JSON grammar is not modelled, only its outcome.
- JSON numbers are integers. Floating-point numbers are not modelled.
- Object key order is the order of the `Member` sequence. Duplicate keys and `serde_json::Map`'s own ordering are not modelled.
- `JsonValue.Unescape` reads string contents back per section 7 of RFC 8259, except surrogate pairs written as two `\u` escapes.
- The `base64` crate is external. It is modelled as strict standard Base64 with `=` padding (section 4 of RFC 4648). Non-zero unused bits before the padding are refused (section 3.5).
- `to_colored_json_auto` switches colour off when standard output is not a terminal. The model always colours when `color` is on.
- The style of `null`, numbers and booleans is taken to be plain. When a string holds escapes, `colored_json` may cut its contents into more pieces than the model does. These pieces do not change the text once the escapes are stripped.
- JsonConverter.ColorVector: the coloured test outputs are stated as the rendering of the pieces in `JsonTrueTokens`/`JsonStringTokens` with the codes of `ColoredJson.StyleCodes`, not as one literal string.
- JsonConverter.PrettyVector: the nested `hello` vectors at `src/converters/json_converter.rs:200-227` and `258-266` are not stated literally. The rule they show (one indent per level, elements in order) is `JsonValue.PrettyNesting` with `JsonValue.ItemsTextAppend`.
- The registry is a function with no state, so every call yields the same converters (`Converters.Registry`).
