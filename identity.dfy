/**
 * `Automator.duplicate_score` (main.py): how alike two candidate identities are.
 * The score is 2·ratio(names) + 3·ratio(registration numbers) + 1 if the
 * phone numbers are equal. `difflib.SequenceMatcher(None, a, b).ratio()` is a
 * library routine and enters the model as the parameter `ratio`; all the model
 * takes for granted about it is what difflib documents (ValidRatio).
 */
module Identity {
  import opened Wrappers

  /** One spreadsheet row as `iter_rows(named=True)` yields it: column name to cell text. */
  type Row = map<string, string>

  /** What a table calls its name, registration and phone columns. */
  datatype Columns = Columns(name: string, reg: string, phone: string)

  /** A candidate identity as read from one row. Phones are compared as sheet text. */
  datatype Candidate = Candidate(name: string, reg: string, phone: string)

  /** A similarity ratio as difflib documents it: within [0, 1], and 1 for two
      equal strings, two empty strings included. Symmetry is not promised. */
  ghost predicate ValidRatio(ratio: (string, string) -> real)
  {
    && (forall a, b :: 0.0 <= ratio(a, b) <= 1.0)
    && (forall a :: ratio(a, a) == 1.0)
  }

  predicate HasColumns(row: Row, cols: Columns)
  {
    cols.name in row && cols.reg in row && cols.phone in row
  }

  /** The candidate a row holds, for a row that has the identity columns. */
  function CandidateOf(row: Row, cols: Columns): Candidate
    requires HasColumns(row, cols)
  {
    Candidate(row[cols.name], row[cols.reg], row[cols.phone])
  }

  /** The three arguments of one side of `duplicate_score`, looked up in
      argument order: the first missing column is the one reported. */
  function Identify(row: Row, cols: Columns): (r: Result<Candidate, string>)
  {
    if cols.name !in row then Err(cols.name)
    else if cols.reg !in row then Err(cols.reg)
    else if cols.phone !in row then Err(cols.phone)
    else Ok(Candidate(row[cols.name], row[cols.reg], row[cols.phone]))
  }

  /** A row yields a candidate exactly when it has the three columns, and then the
      candidate of its cells; otherwise the error is one of the three names, and a
      column the row lacks. */
  lemma IdentifySpec(row: Row, cols: Columns)
    ensures Identify(row, cols).Ok? <==> HasColumns(row, cols)
    ensures Identify(row, cols).Ok? ==> Identify(row, cols).value == CandidateOf(row, cols)
    ensures Identify(row, cols).Err? ==>
              && Identify(row, cols).error !in row
              && (Identify(row, cols).error == cols.name || Identify(row, cols).error == cols.reg
                  || Identify(row, cols).error == cols.phone)
  {
  }

  /** `duplicate_score(A_name, A_reg, A_ph, B_name, B_reg, B_ph)`. */
  function Score(ratio: (string, string) -> real, a: Candidate, b: Candidate): real
  {
    2.0 * ratio(a.name, b.name) + 3.0 * ratio(a.reg, b.reg) + (if a.phone == b.phone then 1.0 else 0.0)
  }

  /** The score of two rows, or the `KeyError` raised while gathering the
      arguments (row a's three cells first, then row b's). */
  function RowScore(ratio: (string, string) -> real, a: Row, aCols: Columns, b: Row, bCols: Columns)
    : Result<real, string>
  {
    match Identify(a, aCols)
    case Err(c) => Err(c)
    case Ok(x) =>
      match Identify(b, bCols)
      case Err(c) => Err(c)
      case Ok(y) => Ok(Score(ratio, x, y))
  }

  /** Two rows score the weighted sum of their cells when both have the identity
      columns; otherwise the error is the first missing column in argument order. */
  lemma RowScoreSpec(ratio: (string, string) -> real, a: Row, aCols: Columns, b: Row, bCols: Columns)
    ensures RowScore(ratio, a, aCols, b, bCols).Ok? <==> HasColumns(a, aCols) && HasColumns(b, bCols)
    ensures RowScore(ratio, a, aCols, b, bCols).Ok? ==>
              RowScore(ratio, a, aCols, b, bCols).value == Score(ratio, CandidateOf(a, aCols), CandidateOf(b, bCols))
    ensures !HasColumns(a, aCols) ==> RowScore(ratio, a, aCols, b, bCols) == Err(Identify(a, aCols).error)
    ensures HasColumns(a, aCols) && !HasColumns(b, bCols) ==>
              RowScore(ratio, a, aCols, b, bCols) == Err(Identify(b, bCols).error)
  {
  }

  /** The score is the weighted sum, so it lies between 0 and 6; the phone term
      alone is worth 1. */
  lemma ScoreBounds(ratio: (string, string) -> real, a: Candidate, b: Candidate)
    requires ValidRatio(ratio)
    ensures 0.0 <= Score(ratio, a, b) <= 6.0
    ensures a.phone == b.phone ==> Score(ratio, a, b) >= 1.0
    ensures a.phone != b.phone ==> Score(ratio, a, b) <= 5.0
  {
    assert 0.0 <= ratio(a.name, b.name) <= 1.0;
    assert 0.0 <= ratio(a.reg, b.reg) <= 1.0;
  }

  /** A candidate compared with itself scores the maximum, 6, empty fields included. */
  lemma ScoreSelf(ratio: (string, string) -> real, a: Candidate)
    requires ValidRatio(ratio)
    ensures Score(ratio, a, a) == 6.0
  {
    assert ratio(a.name, a.name) == 1.0;
    assert ratio(a.reg, a.reg) == 1.0;
  }

  /** The score reaches 6 only when both ratios are 1 and the phones are equal. */
  lemma ScoreMaximal(ratio: (string, string) -> real, a: Candidate, b: Candidate)
    requires ValidRatio(ratio)
    ensures Score(ratio, a, b) == 6.0 <==>
              ratio(a.name, b.name) == 1.0 && ratio(a.reg, b.reg) == 1.0 && a.phone == b.phone
  {
    assert 0.0 <= ratio(a.name, b.name) <= 1.0;
    assert 0.0 <= ratio(a.reg, b.reg) <= 1.0;
  }

  /** Swapping the two sides leaves the score unchanged whenever the ratio is
      symmetric on the two pairs; difflib does not promise that in general. */
  lemma ScoreSwap(ratio: (string, string) -> real, a: Candidate, b: Candidate)
    requires ratio(a.name, b.name) == ratio(b.name, a.name)
    requires ratio(a.reg, b.reg) == ratio(b.reg, a.reg)
    ensures Score(ratio, a, b) == Score(ratio, b, a)
  {
  }
}
