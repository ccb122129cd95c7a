/**
 * config.py: `Config()` builds a `SafetyFile` from `./.safety`, and that is its
 * only field. Reading the file is left to the caller: the model takes the
 * text that text-mode `f.read()` returns, in which every line end is already "\n".
 */
module RootConfig {
  import opened Wrappers
  import opened Text
  import opened Safety

  datatype Config = Config(safety: SafetyFile)

  /** `Config()`: fails with the unpacking error when the safety file does not parse. */
  function Load(safetyText: string): (r: Result<Config, UnpackError>)
    ensures r.Ok? <==> Count(Strip(safetyText), '\n') == 1
    ensures r.Ok? ==> r.value.safety.num + "\n" + r.value.safety.name == Strip(safetyText)
    ensures r.Err? ==> r.error.pieces == Count(Strip(safetyText), '\n') + 1
  {
    ParseSucceedsIff(safetyText);
    match Parse(safetyText)
    case Ok(f) =>
      ParseRoundTrip(safetyText);
      Ok(Config(f))
    case Err(e) => Err(e)
  }

  /** `Config().safety` is exactly the pair `SafetyFile` parsed. */
  lemma LoadHoldsParsedPair(safetyText: string)
    ensures Load(safetyText).Ok? ==> Parse(safetyText) == Ok(Load(safetyText).value.safety)
  {
  }
}
