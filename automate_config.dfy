/**
 * automate/config.py: `Config(path)` first builds a `SafetyFile` from
 * `./safety.txt`, then reads the YAML settings at `path` into `records`
 * (by default `./settings.yaml`). Both files are read by the caller here, as
 * text-mode `f.read()` returns them (so every line end is already "\n"); YAML
 * decoding is not part of the model, so `records` is kept as the settings text.
 */
module AutomateConfig {
  import opened Wrappers
  import opened Text
  import opened Safety

  datatype Config = Config(safety: SafetyFile, records: string)

  /** `Config()`: the safety file is parsed before the settings are read, so a
      safety file that does not parse fails the whole construction whatever the settings hold. */
  function Load(safetyText: string, settingsText: string): (r: Result<Config, UnpackError>)
    ensures r.Ok? <==> Count(Strip(safetyText), '\n') == 1
    ensures r.Ok? ==> r.value.safety.num + "\n" + r.value.safety.name == Strip(safetyText)
    ensures r.Ok? ==> r.value.records == settingsText
    ensures r.Err? ==> r.error.pieces == Count(Strip(safetyText), '\n') + 1
  {
    ParseSucceedsIff(safetyText);
    match Parse(safetyText)
    case Ok(f) =>
      ParseRoundTrip(safetyText);
      Ok(Config(f, settingsText))
    case Err(e) => Err(e)
  }

  /** Whether construction succeeds, and the error it fails with, do not depend on the settings. */
  lemma LoadSafetyFirst(safetyText: string, settings1: string, settings2: string)
    ensures Load(safetyText, settings1).Ok? == Load(safetyText, settings2).Ok?
    ensures Load(safetyText, settings1).Err? ==> Load(safetyText, settings1) == Load(safetyText, settings2)
    ensures Load(safetyText, settings1).Ok? ==>
              Load(safetyText, settings1).value.safety == Load(safetyText, settings2).value.safety
  {
  }
}
