/**
 * The library entry points (src/lib.rs): try every registered converter in
 * order and keep the first output; when none converts, hand the input back
 * as the error. With `verbose` set, each attempt and its outcome is printed;
 * the printed lines are returned here instead of being written.
 *
 * The search is specified over `run`, the outcome of each converter on the
 * one input; `Attempt` is that outcome for the real converters.
 */
module Dispatch {
  import opened Wrappers
  import opened Options
  import JsonValue
  import JsonConverter
  import Base64Converter
  import Base64Codec
  import opened Converters

  /** What each converter makes of the input at hand. */
  function Attempt(input: string, options: Options, parse: string -> Option<JsonValue.Value>)
    : Converter -> Result<string, Error>
  {
    (c: Converter) => Run(c, input, options, parse)
  }

  /** What trying `cs` in order gives: the first converter's output that succeeds, else the input itself. */
  function FirstSuccess(cs: seq<Converter>, input: string, run: Converter -> Result<string, Error>): Result<string, string> {
    if cs == [] then Err(input)
    else
      match run(cs[0])
      case Ok(output) => Ok(output)
      case Err(_) => FirstSuccess(cs[1..], input, run)
  }

  /** The converters actually invoked: all up to and including the first that succeeds. */
  function Tried(cs: seq<Converter>, run: Converter -> Result<string, Error>): seq<Converter> {
    if cs == [] then []
    else if run(cs[0]).Ok? then [cs[0]]
    else [cs[0]] + Tried(cs[1..], run)
  }

  /** The lines printed in verbose mode while trying `cs`. */
  function Log(cs: seq<Converter>, run: Converter -> Result<string, Error>): seq<string> {
    if cs == [] then []
    else if run(cs[0]).Ok? then
      ["Trying to convert as " + Name(cs[0]), "Conversion successful!"]
    else
      ["Trying to convert as " + Name(cs[0]), "Conversion failed."] + Log(cs[1..], run)
  }

  /** Index `k` is the first position in `cs` whose converter succeeds. */
  predicate FirstWinner(cs: seq<Converter>, k: nat, run: Converter -> Result<string, Error>) {
    k < |cs| && run(cs[k]).Ok? && forall j :: 0 <= j < k ==> run(cs[j]).Err?
  }

  /**
   * `prettify`: the result is what `FirstSuccess` describes, the printed
   * lines are the log when `verbose` is set and nothing otherwise, and the
   * converters invoked stop at the first one that succeeds.
   */
  method Prettify(input: string, options: Options, parse: string -> Option<JsonValue.Value>)
    returns (r: Result<string, string>, printed: seq<string>, ghost tried: seq<Converter>)
    ensures r == FirstSuccess(Registry(), input, Attempt(input, options, parse))
    ensures r.Err? ==> r.error == input
    ensures printed == (if options.verbose then Log(Registry(), Attempt(input, options, parse)) else [])
    ensures tried == Tried(Registry(), Attempt(input, options, parse))
  {
    r, printed, tried := Search(Registry(), input, options.verbose, Attempt(input, options, parse));
  }

  /**
   * The loop of `prettify` over the converters `cs`, each invoked through
   * `run`: it stops at the first success and logs every attempt when `verbose`.
   */
  method Search(cs: seq<Converter>, input: string, verbose: bool, run: Converter -> Result<string, Error>)
    returns (r: Result<string, string>, printed: seq<string>, ghost tried: seq<Converter>)
    ensures r == FirstSuccess(cs, input, run)
    ensures r.Err? ==> r.error == input
    ensures printed == (if verbose then Log(cs, run) else [])
    ensures tried == Tried(cs, run)
  {
    printed, tried := [], [];
    var i := 0;
    while i < |cs|
      invariant 0 <= i <= |cs|
      invariant FirstSuccess(cs[i..], input, run) == FirstSuccess(cs, input, run)
      invariant tried + Tried(cs[i..], run) == Tried(cs, run)
      invariant verbose ==> printed + Log(cs[i..], run) == Log(cs, run)
      invariant !verbose ==> printed == []
    {
      ghost var printed0, tried0 := printed, tried;
      if verbose {
        printed := printed + ["Trying to convert as " + Name(cs[i])];
      }
      tried := tried + [cs[i]];
      var attempt := run(cs[i]);
      SearchStep(cs, i, input, run, printed0, tried0);
      if attempt.Ok? {
        if verbose {
          printed := printed + ["Conversion successful!"];
        }
        r := Ok(attempt.value);
        return;
      }
      if verbose {
        printed := printed + ["Conversion failed."];
      }
      i := i + 1;
    }
    r := Err(input);
  }

  /** One round of `Search`: how the specification of `cs[i..]` splits into `cs[i]` and the rest. */
  lemma SearchStep(cs: seq<Converter>, i: nat, input: string, run: Converter -> Result<string, Error>,
                   printed: seq<string>, tried: seq<Converter>)
    requires i < |cs|
    ensures run(cs[i]).Ok? ==> FirstSuccess(cs[i..], input, run) == Ok(run(cs[i]).value)
    ensures run(cs[i]).Ok? ==> tried + Tried(cs[i..], run) == tried + [cs[i]]
    ensures run(cs[i]).Ok? ==>
              printed + Log(cs[i..], run)
              == printed + ["Trying to convert as " + Name(cs[i])] + ["Conversion successful!"]
    ensures run(cs[i]).Err? ==> FirstSuccess(cs[i..], input, run) == FirstSuccess(cs[i + 1..], input, run)
    ensures run(cs[i]).Err? ==> tried + Tried(cs[i..], run) == tried + [cs[i]] + Tried(cs[i + 1..], run)
    ensures run(cs[i]).Err? ==>
              printed + Log(cs[i..], run)
              == printed + ["Trying to convert as " + Name(cs[i])] + ["Conversion failed."] + Log(cs[i + 1..], run)
  {
    assert cs[i..][0] == cs[i] && cs[i..][1..] == cs[i + 1..];
  }

  /** `prettify_default`: `prettify` with the default options. */
  method PrettifyDefault(input: string, parse: string -> Option<JsonValue.Value>) returns (r: Result<string, string>)
    ensures r == FirstSuccess(Registry(), input, Attempt(input, Default(), parse))
  {
    var printed;
    ghost var tried;
    r, printed, tried := Prettify(input, Default(), parse);
  }

  /**
   * First success: the result is the output of the first converter that
   * succeeds; when every converter fails the input comes back unchanged.
   */
  lemma {:induction false} FirstSuccessIsFirstWinner(cs: seq<Converter>, input: string, run: Converter -> Result<string, Error>)
    ensures FirstSuccess(cs, input, run).Err? <==> forall j :: 0 <= j < |cs| ==> run(cs[j]).Err?
    ensures FirstSuccess(cs, input, run).Err? ==> FirstSuccess(cs, input, run) == Err(input)
    ensures forall k: nat :: FirstWinner(cs, k, run) ==> FirstSuccess(cs, input, run) == Ok(run(cs[k]).value)
  {
    if cs != [] {
      FirstSuccessIsFirstWinner(cs[1..], input, run);
      forall k: nat | FirstWinner(cs, k, run)
        ensures FirstSuccess(cs, input, run) == Ok(run(cs[k]).value)
      {
        if k > 0 {
          assert FirstWinner(cs[1..], k - 1, run);
        }
      }
      if run(cs[0]).Err? && FirstSuccess(cs[1..], input, run).Err? {
        forall j | 0 <= j < |cs|
          ensures run(cs[j]).Err?
        {
          if j > 0 {
            assert cs[j] == cs[1..][j - 1];
          }
        }
      }
    }
  }

  /**
   * No later converter is invoked once one succeeds: exactly the converters
   * up to the first winner are tried, and the log has two lines for each.
   */
  lemma StopsAtFirstWinner(cs: seq<Converter>, k: nat, run: Converter -> Result<string, Error>)
    requires FirstWinner(cs, k, run)
    ensures Tried(cs, run) == cs[..k + 1]
    ensures |Log(cs, run)| == 2 * (k + 1)
    ensures Log(cs, run)[2 * k] == "Trying to convert as " + Name(cs[k])
    ensures Log(cs, run)[2 * k + 1] == "Conversion successful!"
  {
    TriedStops(cs, k, run);
    LogStops(cs, k, run);
  }

  lemma {:induction false} TriedStops(cs: seq<Converter>, k: nat, run: Converter -> Result<string, Error>)
    requires FirstWinner(cs, k, run)
    ensures Tried(cs, run) == cs[..k + 1]
  {
    if k > 0 {
      assert FirstWinner(cs[1..], k - 1, run);
      TriedStops(cs[1..], k - 1, run);
      assert cs[..k + 1] == [cs[0]] + cs[1..][..k];
    }
  }

  lemma {:induction false} LogStops(cs: seq<Converter>, k: nat, run: Converter -> Result<string, Error>)
    requires FirstWinner(cs, k, run)
    ensures |Log(cs, run)| == 2 * (k + 1)
    ensures Log(cs, run)[2 * k] == "Trying to convert as " + Name(cs[k])
    ensures Log(cs, run)[2 * k + 1] == "Conversion successful!"
  {
    if k > 0 {
      var log, rest := Log(cs, run), Log(cs[1..], run);
      assert FirstWinner(cs[1..], k - 1, run);
      LogStops(cs[1..], k - 1, run);
      assert log == ["Trying to convert as " + Name(cs[0]), "Conversion failed."] + rest;
      assert log[2 * k] == rest[2 * (k - 1)] && log[2 * k + 1] == rest[2 * (k - 1) + 1];
    }
  }

  /** When nothing converts, every converter is tried, in registry order. */
  lemma {:induction false} AllTriedOnFailure(cs: seq<Converter>, run: Converter -> Result<string, Error>)
    requires forall j :: 0 <= j < |cs| ==> run(cs[j]).Err?
    ensures Tried(cs, run) == cs
    ensures |Log(cs, run)| == 2 * |cs|
  {
    if cs != [] {
      assert forall j :: 0 <= j < |cs[1..]| ==> cs[1..][j] == cs[j + 1];
      AllTriedOnFailure(cs[1..], run);
    }
  }

  /** The search depends only on the converters' outcomes. */
  lemma {:induction false} SameOutcomesSameResult(cs: seq<Converter>, input: string,
                                                  run: Converter -> Result<string, Error>,
                                                  run': Converter -> Result<string, Error>)
    requires forall j :: 0 <= j < |cs| ==> run(cs[j]) == run'(cs[j])
    ensures FirstSuccess(cs, input, run) == FirstSuccess(cs, input, run')
  {
    if cs != [] {
      assert forall j :: 0 <= j < |cs[1..]| ==> cs[1..][j] == cs[j + 1];
      SameOutcomesSameResult(cs[1..], input, run, run');
    }
  }

  /** The `verbose` flag changes what is printed, never the result. */
  lemma VerboseIrrelevant(input: string, options: Options, parse: string -> Option<JsonValue.Value>, verbose: bool)
    ensures FirstSuccess(Registry(), input, Attempt(input, options.(verbose := verbose), parse))
         == FirstSuccess(Registry(), input, Attempt(input, options, parse))
  {
    forall c: Converter
      ensures Attempt(input, options.(verbose := verbose), parse)(c) == Attempt(input, options, parse)(c)
    {
      RunIgnoresVerbose(c, input, options, parse, verbose);
    }
    SameOutcomesSameResult(Registry(), input, Attempt(input, options.(verbose := verbose), parse),
                           Attempt(input, options, parse));
  }

  /** Input that parses as JSON always comes out of the JSON converter, whatever Base64 would do with it. */
  lemma JsonWins(input: string, options: Options, parse: string -> Option<JsonValue.Value>)
    requires parse(input).Some?
    ensures FirstSuccess(Registry(), input, Attempt(input, options, parse))
         == Ok(JsonConverter.Prettify(input, options, parse).value)
  {
    var run := Attempt(input, options, parse);
    assert FirstWinner(Registry(), 0, run);
    FirstSuccessIsFirstWinner(Registry(), input, run);
  }

  /**
   * Dispatch does not filter by the format hint: input that is not JSON
   * always reaches the Base64 converter, even with the hint `"JSON"`, and in
   * the forward direction the hint changes nothing.
   */
  lemma NotJsonReachesBase64(input: string, options: Options, parse: string -> Option<JsonValue.Value>)
    requires parse(input).None?
    ensures FirstSuccess(Registry(), input, Attempt(input, options, parse))
         == match Base64Converter.Prettify(input, options)
            case Ok(output) => Ok(output)
            case Err(_) => Err(input)
    ensures !options.reverse ==>
      FirstSuccess(Registry(), input, Attempt(input, options.(inputType := "JSON"), parse))
      == FirstSuccess(Registry(), input, Attempt(input, options, parse))
  {
    Base64Decides(input, options, parse);
    if !options.reverse {
      Base64Decides(input, options.(inputType := "JSON"), parse);
      Base64Converter.ForwardIgnoresInputType(input, options, "JSON");
    }
  }

  lemma Base64Decides(input: string, options: Options, parse: string -> Option<JsonValue.Value>)
    requires parse(input).None?
    ensures FirstSuccess(Registry(), input, Attempt(input, options, parse))
         == match Base64Converter.Prettify(input, options)
            case Ok(output) => Ok(output)
            case Err(_) => Err(input)
  {
    var cs, run := Registry(), Attempt(input, options, parse);
    assert cs[1..] == [Base64] && cs[1..][1..] == [];
    assert run(Json).Err?;
    assert run(Base64) == Base64Converter.Prettify(input, options);
    assert FirstSuccess(cs, input, run) == FirstSuccess([Base64], input, run);
  }

  /** End to end with default options: Base64 text that is not JSON is decoded. */
  lemma DecodesBase64ByDefault(parse: string -> Option<JsonValue.Value>)
    requires parse("aGVsbG8gd29ybGQh").None?
    ensures FirstSuccess(Registry(), "aGVsbG8gd29ybGQh", Attempt("aGVsbG8gd29ybGQh", Default(), parse)) == Ok("hello world!")
  {
    Base64Converter.DecodeValidVectors();
    NotJsonReachesBase64("aGVsbG8gd29ybGQh", Default(), parse);
  }

  /** End to end with default options: text that neither converter accepts is returned as the error. */
  lemma RejectsOtherText(parse: string -> Option<JsonValue.Value>)
    requires parse("not json").None?
    ensures FirstSuccess(Registry(), "not json", Attempt("not json", Default(), parse)) == Err("not json")
  {
    Base64Codec.RejectForeign("not json", 3);
    NotJsonReachesBase64("not json", Default(), parse);
  }
}
