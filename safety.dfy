/**
 * The safety file: two lines, a phone number and a profile name, that redirect
 * every outgoing message to a test identity. `SafetyFile.__init__` reads the
 * file, strips it and unpacks `split("\n")` into exactly two fields; any other
 * number of lines makes the unpacking raise `ValueError`.
 */
module Safety {
  import opened Wrappers
  import opened Text

  datatype SafetyFile = SafetyFile(num: string, name: string)

  /** The `ValueError` of a failed two-way unpacking, with the number of pieces found. */
  datatype UnpackError = UnpackError(pieces: nat)

  /** `num, name = content.strip().split("\n")`. */
  function Parse(content: string): (r: Result<SafetyFile, UnpackError>)
    ensures r.Err? ==> r.error.pieces != 2
  {
    var parts := SplitLines(Strip(content));
    if |parts| == 2 then Ok(SafetyFile(parts[0], parts[1])) else Err(UnpackError(|parts|))
  }

  /** The unpacking succeeds exactly when the stripped content holds one newline;
      otherwise the error reports how many pieces there were (one more than the newlines). */
  lemma ParseSucceedsIff(content: string)
    ensures Parse(content).Ok? <==> Count(Strip(content), '\n') == 1
    ensures Parse(content).Err? ==> Parse(content).error.pieces == Count(Strip(content), '\n') + 1
  {
    SplitLinesCount(Strip(content));
  }

  /** On success the two fields, joined by a newline, are the stripped content,
      and neither field holds a newline. */
  lemma ParseRoundTrip(content: string)
    requires Parse(content).Ok?
    ensures Parse(content).value.num + "\n" + Parse(content).value.name == Strip(content)
    ensures '\n' !in Parse(content).value.num && '\n' !in Parse(content).value.name
  {
    var parts := SplitLines(Strip(content));
    SplitLinesJoin(Strip(content));
    SplitLinesNoNewline(Strip(content));
    assert parts[1..] == [parts[1]];
  }

  /** On success both fields are non-empty; only the outer whitespace was removed,
      so `num` does not start and `name` does not end with whitespace. */
  lemma ParseFieldsBounded(content: string)
    requires Parse(content).Ok?
    ensures |Parse(content).value.num| > 0 && !IsSpace(Parse(content).value.num[0])
    ensures |Parse(content).value.name| > 0
    ensures !IsSpace(Parse(content).value.name[|Parse(content).value.name| - 1])
  {
    var f := Parse(content).value;
    var t := Strip(content);
    ParseRoundTrip(content);
    StripSpec(content);
    assert |t| > 0;
    assert t[0] != '\n' && t[|t| - 1] != '\n';
    assert t[0] == f.num[0];
    assert t[|t| - 1] == f.name[|f.name| - 1];
  }

  /** Blank space around the content, such as a trailing newline, does not change the result. */
  lemma ParseIgnoresOuterSpace(w1: string, content: string, w2: string)
    requires AllSpace(w1) && AllSpace(w2)
    ensures Parse(w1 + content + w2) == Parse(content)
  {
    StripIgnoresOuterSpace(w1, content, w2);
  }

  /** Writing a number and a name on two lines and parsing gives them back,
      when the number has no leading and the name no trailing whitespace. */
  lemma ParseOfWritten(num: string, name: string)
    requires '\n' !in num && '\n' !in name
    requires |num| > 0 && !IsSpace(num[0])
    requires |name| > 0 && !IsSpace(name[|name| - 1])
    ensures Parse(num + "\n" + name) == Ok(SafetyFile(num, name))
  {
    var t := num + "\n" + name;
    assert t[0] == num[0] && t[|t| - 1] == name[|name| - 1];
    assert Trimmed(t);
    StripIdempotent(t);
    StripSpec(t);
    SplitLinesOfJoin(num, name);
  }
}
