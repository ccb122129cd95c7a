/**
 * `Automator.__prune_duplicates_df` (main.py): for every row n of a table it
 * scans the rows before it, `df.head(n)`, in order, and records the first
 * earlier row whose duplicate score with row n is above 0.75·5, then stops
 * that scan. The Python method computes the list `indices` and discards it;
 * here it is the result.
 */
module Prune {
  import opened Wrappers
  import opened Identity

  /** The columns every table passed to `__prune_duplicates_df` is read through. */
  const PruneColumns: Columns := Columns("Full Name", "Registration No.", "WhatsApp Number")

  /** `0.75 * 5`, taken as an exact real. */
  const DuplicateThreshold: real := 3.75

  predicate WellFormed(rows: seq<Row>)
  {
    forall i :: 0 <= i < |rows| ==> HasColumns(rows[i], PruneColumns)
  }

  /** The duplicate score of rows n and j of a table whose rows all have the identity columns. */
  function PairScore(ratio: (string, string) -> real, rows: seq<Row>, n: nat, j: nat): real
    requires WellFormed(rows) && n < |rows| && j < |rows|
  {
    Score(ratio, CandidateOf(rows[n], PruneColumns), CandidateOf(rows[j], PruneColumns))
  }

  /** Row j is an earlier duplicate of row n. */
  predicate IsDuplicateOf(ratio: (string, string) -> real, rows: seq<Row>, n: nat, j: nat)
    requires WellFormed(rows) && n < |rows| && j < |rows|
  {
    j < n && PairScore(ratio, rows, n, j) > DuplicateThreshold
  }

  /** The inner loop from index `check` on: the first earlier row above the
      threshold, none, or the `KeyError` of a missing column. */
  function EarlierMatch(ratio: (string, string) -> real, rows: seq<Row>, n: nat, check: nat)
    : Result<Option<nat>, string>
    requires n < |rows| && check <= n
    decreases n - check
  {
    if check == n then Ok(None)
    else
      match RowScore(ratio, rows[n], PruneColumns, rows[check], PruneColumns)
      case Err(c) => Err(c)
      case Ok(x) =>
        if x > DuplicateThreshold then Ok(Some(check)) else EarlierMatch(ratio, rows, n, check + 1)
  }

  /** `indices` after the outer loop has handled rows 0 .. n-1. */
  function Indices(ratio: (string, string) -> real, rows: seq<Row>, n: nat): Result<seq<nat>, string>
    requires n <= |rows|
  {
    if n == 0 then Ok([])
    else
      match Indices(ratio, rows, n - 1)
      case Err(c) => Err(c)
      case Ok(ix) =>
        match EarlierMatch(ratio, rows, n - 1, 0)
        case Err(c) => Err(c)
        case Ok(None) => Ok(ix)
        case Ok(Some(k)) => Ok(ix + [k])
  }

  /** The nested scan, with its early `break`; a missing column raises `KeyError`. */
  method PruneDuplicates(ratio: (string, string) -> real, rows: seq<Row>)
    returns (r: Result<seq<nat>, string>)
    ensures r == Indices(ratio, rows, |rows|)
  {
    var indices: seq<nat> := [];
    var n := 0;
    while n < |rows|
      invariant n <= |rows|
      invariant Indices(ratio, rows, n) == Ok(indices)
    {
      var check := 0;
      while check < n
        invariant check <= n
        invariant EarlierMatch(ratio, rows, n, 0) == EarlierMatch(ratio, rows, n, check)
        invariant Indices(ratio, rows, n) == Ok(indices)
      {
        var x := RowScore(ratio, rows[n], PruneColumns, rows[check], PruneColumns);
        if x.Err? {
          assert Indices(ratio, rows, n + 1) == Err(x.error);
          IndicesErrorPersists(ratio, rows, n + 1, |rows|);
          return Err(x.error);
        }
        if x.value > DuplicateThreshold {
          indices := indices + [check];
          assert Indices(ratio, rows, n + 1) == Ok(indices);
          break;
        }
        check := check + 1;
      }
      n := n + 1;
    }
    return Ok(indices);
  }

  /** Once a row raises, the scan ends with that error. */
  lemma {:induction false} IndicesErrorPersists(ratio: (string, string) -> real, rows: seq<Row>, n: nat, m: nat)
    requires n <= m <= |rows| && Indices(ratio, rows, n).Err?
    ensures Indices(ratio, rows, m) == Indices(ratio, rows, n)
    decreases m - n
  {
    if n < m {
      IndicesErrorPersists(ratio, rows, n, m - 1);
    }
  }

  /** From index `check` on the inner scan finds exactly the lowest earlier
      duplicate at or after `check`, and none when there is none. */
  lemma {:induction false} EarlierMatchFrom(ratio: (string, string) -> real, rows: seq<Row>, n: nat, check: nat)
    requires WellFormed(rows) && n < |rows| && check <= n
    ensures EarlierMatch(ratio, rows, n, check).Ok?
    ensures EarlierMatch(ratio, rows, n, check) == Ok(None) <==>
              forall j :: check <= j < n ==> !IsDuplicateOf(ratio, rows, n, j)
    ensures forall k :: EarlierMatch(ratio, rows, n, check) == Ok(Some(k)) <==>
              check <= k < n && IsDuplicateOf(ratio, rows, n, k)
              && forall j :: check <= j < k ==> !IsDuplicateOf(ratio, rows, n, j)
    decreases n - check
  {
    if check < n {
      EarlierMatchFrom(ratio, rows, n, check + 1);
      assert RowScore(ratio, rows[n], PruneColumns, rows[check], PruneColumns)
          == Ok(PairScore(ratio, rows, n, check));
      if IsDuplicateOf(ratio, rows, n, check) {
        EarlierMatchHere(ratio, rows, n, check);
      } else {
        EarlierMatchSkip(ratio, rows, n, check);
      }
    }
  }

  /** The inner scan stops at `check` when that row is a duplicate. */
  lemma EarlierMatchHere(ratio: (string, string) -> real, rows: seq<Row>, n: nat, check: nat)
    requires WellFormed(rows) && check < n < |rows| && IsDuplicateOf(ratio, rows, n, check)
    requires RowScore(ratio, rows[n], PruneColumns, rows[check], PruneColumns) == Ok(PairScore(ratio, rows, n, check))
    ensures EarlierMatch(ratio, rows, n, check) == Ok(Some(check))
    ensures forall k :: EarlierMatch(ratio, rows, n, check) == Ok(Some(k)) <==>
              check <= k < n && IsDuplicateOf(ratio, rows, n, k)
              && forall j :: check <= j < k ==> !IsDuplicateOf(ratio, rows, n, j)
  {
  }

  /** The inner scan moves past `check` when that row is not a duplicate. */
  lemma EarlierMatchSkip(ratio: (string, string) -> real, rows: seq<Row>, n: nat, check: nat)
    requires WellFormed(rows) && check < n < |rows| && !IsDuplicateOf(ratio, rows, n, check)
    requires RowScore(ratio, rows[n], PruneColumns, rows[check], PruneColumns) == Ok(PairScore(ratio, rows, n, check))
    requires EarlierMatch(ratio, rows, n, check + 1).Ok?
    requires EarlierMatch(ratio, rows, n, check + 1) == Ok(None) <==>
              forall j :: check + 1 <= j < n ==> !IsDuplicateOf(ratio, rows, n, j)
    requires forall k :: EarlierMatch(ratio, rows, n, check + 1) == Ok(Some(k)) <==>
              check + 1 <= k < n && IsDuplicateOf(ratio, rows, n, k)
              && forall j :: check + 1 <= j < k ==> !IsDuplicateOf(ratio, rows, n, j)
    ensures EarlierMatch(ratio, rows, n, check) == EarlierMatch(ratio, rows, n, check + 1)
    ensures EarlierMatch(ratio, rows, n, check) == Ok(None) <==>
              forall j :: check <= j < n ==> !IsDuplicateOf(ratio, rows, n, j)
    ensures forall k :: EarlierMatch(ratio, rows, n, check) == Ok(Some(k)) <==>
              check <= k < n && IsDuplicateOf(ratio, rows, n, k)
              && forall j :: check <= j < k ==> !IsDuplicateOf(ratio, rows, n, j)
  {
    assert EarlierMatch(ratio, rows, n, check) == EarlierMatch(ratio, rows, n, check + 1);
    assert (forall j :: check <= j < n ==> !IsDuplicateOf(ratio, rows, n, j))
       <==> (forall j :: check + 1 <= j < n ==> !IsDuplicateOf(ratio, rows, n, j));
    forall k
      ensures EarlierMatch(ratio, rows, n, check + 1) == Ok(Some(k)) <==>
                check <= k < n && IsDuplicateOf(ratio, rows, n, k)
                && forall j :: check <= j < k ==> !IsDuplicateOf(ratio, rows, n, j)
    {
      if check <= k < n && IsDuplicateOf(ratio, rows, n, k) {
        assert (forall j :: check <= j < k ==> !IsDuplicateOf(ratio, rows, n, j))
           <==> (forall j :: check + 1 <= j < k ==> !IsDuplicateOf(ratio, rows, n, j));
      }
    }
  }

  /** Row n adds no index when no earlier row scores above the threshold with it. */
  lemma IndicesStepNone(ratio: (string, string) -> real, rows: seq<Row>, n: nat)
    requires WellFormed(rows) && n < |rows| && Indices(ratio, rows, n).Ok?
    requires forall j :: 0 <= j < n ==> !IsDuplicateOf(ratio, rows, n, j)
    ensures Indices(ratio, rows, n + 1) == Indices(ratio, rows, n)
  {
    EarlierMatchFrom(ratio, rows, n, 0);
    assert EarlierMatch(ratio, rows, n, 0) == Ok(None);
  }

  /** Otherwise row n adds exactly the lowest earlier row whose score with it is above
      the threshold. */
  lemma IndicesStepLowest(ratio: (string, string) -> real, rows: seq<Row>, n: nat, k: nat)
    requires WellFormed(rows) && n < |rows| && Indices(ratio, rows, n).Ok?
    requires k < n && IsDuplicateOf(ratio, rows, n, k)
    requires forall j :: 0 <= j < k ==> !IsDuplicateOf(ratio, rows, n, j)
    ensures Indices(ratio, rows, n + 1) == Ok(Indices(ratio, rows, n).value + [k])
  {
    EarlierMatchFrom(ratio, rows, n, 0);
    assert EarlierMatch(ratio, rows, n, 0) == Ok(Some(k));
  }

  /** Row k is an earlier duplicate of some row before row n. */
  predicate DuplicateTarget(ratio: (string, string) -> real, rows: seq<Row>, n: nat, k: nat)
    requires WellFormed(rows) && n <= |rows|
  {
    exists m :: k < m < n && PairScore(ratio, rows, m, k) > DuplicateThreshold
  }

  /** On a table whose rows all have the identity columns the scan succeeds;
      it records fewer indices than there are rows (row 0 has nothing before it),
      and each recorded index is an earlier duplicate of some later row. */
  lemma {:induction false} IndicesBounds(ratio: (string, string) -> real, rows: seq<Row>, n: nat)
    requires WellFormed(rows) && n <= |rows|
    ensures Indices(ratio, rows, n).Ok?
    ensures |Indices(ratio, rows, n).value| <= if n == 0 then 0 else n - 1
    ensures forall i :: 0 <= i < |Indices(ratio, rows, n).value| ==>
              DuplicateTarget(ratio, rows, n, Indices(ratio, rows, n).value[i])
  {
    if n > 0 {
      IndicesBounds(ratio, rows, n - 1);
      EarlierMatchFrom(ratio, rows, n - 1, 0);
      var ix := Indices(ratio, rows, n - 1).value;
      var r := Indices(ratio, rows, n).value;
      forall i | 0 <= i < |ix|
        ensures DuplicateTarget(ratio, rows, n, ix[i])
      {
        var m :| ix[i] < m < n - 1 && PairScore(ratio, rows, m, ix[i]) > DuplicateThreshold;
      }
      match EarlierMatch(ratio, rows, n - 1, 0)
      case Ok(None) =>
        assert r == ix;
      case Ok(Some(k)) =>
        assert r == ix + [k];
        assert DuplicateTarget(ratio, rows, n, k) by {
          assert IsDuplicateOf(ratio, rows, n - 1, k);
        }
        assert forall i :: 0 <= i < |r| ==> r[i] == if i < |ix| then ix[i] else k;
    }
  }

  /** A failed scan names a column that some row lacks. */
  lemma {:induction false} IndicesErrorIsMissingColumn(ratio: (string, string) -> real, rows: seq<Row>, n: nat)
    requires n <= |rows| && Indices(ratio, rows, n).Err?
    ensures exists i :: 0 <= i < n && Indices(ratio, rows, n).error !in rows[i]
  {
    if Indices(ratio, rows, n - 1).Err? {
      IndicesErrorIsMissingColumn(ratio, rows, n - 1);
    } else {
      EarlierMatchErrorIsMissingColumn(ratio, rows, n - 1, 0);
    }
  }

  lemma {:induction false} EarlierMatchErrorIsMissingColumn(ratio: (string, string) -> real, rows: seq<Row>, n: nat, check: nat)
    requires n < |rows| && check <= n && EarlierMatch(ratio, rows, n, check).Err?
    ensures EarlierMatch(ratio, rows, n, check).error !in rows[n]
            || exists i :: check <= i < n && EarlierMatch(ratio, rows, n, check).error !in rows[i]
    decreases n - check
  {
    if RowScore(ratio, rows[n], PruneColumns, rows[check], PruneColumns).Ok? {
      EarlierMatchErrorIsMissingColumn(ratio, rows, n, check + 1);
    }
  }
}
