/** The per-call configuration handed to every converter (src/options.rs). */
module Options {

  datatype Options = Options(
    inputType: string,                      // format hint; "all" means no hint
    verbose: bool,                          // diagnostic tracing only
    reverse: bool,                          // compact / encode instead of expand / decode
    converterSpecific: map<string, string>  // raw per-converter overrides such as "indent" and "color"
  )

  /** `Options::default()`. */
  function Default(): (o: Options)
    ensures o.inputType == "all"
    ensures !o.verbose && !o.reverse
    ensures o.converterSpecific == map[]
  {
    Options("all", false, false, map[])
  }
}
