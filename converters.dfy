/**
 * The converter registry (src/converters.rs). A converter has a name, the
 * names of the options it reads, and a `prettify` operation; neither
 * converter holds any state, so each is a plain value here.
 */
module Converters {
  import opened Wrappers
  import opened Options
  import JsonValue
  import JsonConverter
  import Base64Converter

  datatype Converter = Json | Base64

  function Name(c: Converter): string {
    match c
    case Json => JsonConverter.Name
    case Base64 => Base64Converter.Name
  }

  function OptionNames(c: Converter): seq<string> {
    match c
    case Json => JsonConverter.OptionNames
    case Base64 => Base64Converter.OptionNames
  }

  /** `Converter::prettify`; `parse` is the JSON parser the JSON converter uses. */
  function Run(c: Converter, input: string, options: Options, parse: string -> Option<JsonValue.Value>): Result<string, Error> {
    match c
    case Json => JsonConverter.Prettify(input, options, parse)
    case Base64 => Base64Converter.Prettify(input, options)
  }

  /** `get_converters`: JSON first, then Base64, each exactly once. */
  function Registry(): (cs: seq<Converter>)
    ensures |cs| == 2
    ensures Name(cs[0]) == "JSON" && Name(cs[1]) == "Base64"
    ensures cs[0] == Json && cs[1] == Base64
  {
    [Json, Base64]
  }

  /** The registered converters have distinct names, and only JSON reads options. */
  lemma RegistryNames()
    ensures forall i, j :: 0 <= i < j < |Registry()| ==> Name(Registry()[i]) != Name(Registry()[j])
    ensures OptionNames(Registry()[0]) == ["indent", "color"]
    ensures OptionNames(Registry()[1]) == []
  {
    assert Name(Registry()[0])[0] != Name(Registry()[1])[0];
  }

  /** No converter reads the `verbose` flag: it only controls printing. */
  lemma RunIgnoresVerbose(c: Converter, input: string, options: Options, parse: string -> Option<JsonValue.Value>, verbose: bool)
    ensures Run(c, input, options.(verbose := verbose), parse) == Run(c, input, options, parse)
  {
  }
}
