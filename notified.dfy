/**
 * `Automator.sync_notified` (main.py): carries the notification times of the
 * old automator's sheet over to the interview schedule. Every legacy row is
 * compared with every schedule row; for each pair scoring above 0.85·6 the
 * stripped `Notified_<subsystem>` cell of the legacy row is written into the
 * schedule row's "Interview Date/Time", its "MemberNotifier" is written into
 * "WS Sender" under the rule of `SenderRule`, and `count` goes up by one.
 * The writes go through `self.schedules.update()`, which is not part of this
 * model: its effect is the ordered list of cell writes issued.
 */
module Notified {
  import opened Wrappers
  import opened Text
  import opened Identity

  const LegacyColumns: Columns := Columns("Full Name", "Registration No. ", "WhatsApp Number")
  const ScheduleColumns: Columns := Columns("Full Name", "Registration No.", "WhatsApp Number")
  const TimeColumn: string := "Interview Date/Time"
  const SenderColumn: string := "WS Sender"
  const NotifierColumn: string := "MemberNotifier"

  /** `0.85 * 6`, taken as an exact real. */
  const NotifiedThreshold: real := 5.1

  /** `f"Notified_{subsystem}"`. */
  function NotifiedColumn(subsystem: string): string
  {
    "Notified_" + subsystem
  }

  /** One `update.cell(column, row, value)` call. */
  datatype Cell = Cell(column: string, row: nat, value: string)

  /** The effect of part of the scan: the writes issued, the value of `count`,
      and the `KeyError` that ended it, if one did. */
  datatype Run = Run(writes: seq<Cell>, count: nat, error: Option<string>)

  const Idle: Run := Run([], 0, None)

  /** Run a, then b, unless a raised. */
  function Then(a: Run, b: Run): (r: Run)
  {
    if a.error.Some? then a else Run(a.writes + b.writes, a.count + b.count, b.error)
  }

  /** main.py:104: the sender is written when the schedule row has no sender yet
      and there is a time to record, or when the legacy row names no notifier. */
  predicate SenderRule(schedSender: string, schedTime: string, notifier: string)
  {
    (Strip(schedSender) == "" && schedTime != "") || notifier == ""
  }

  /** The body of the inner loop for legacy row `lrow` and schedule row m. */
  function Pair(ratio: (string, string) -> real, subsystem: string, lrow: Row, m: nat, srow: Row): Run
  {
    match RowScore(ratio, lrow, LegacyColumns, srow, ScheduleColumns)
    case Err(c) => Run([], 0, Some(c))
    case Ok(x) =>
      if x <= NotifiedThreshold then Idle
      else if NotifiedColumn(subsystem) !in lrow then Run([], 0, Some(NotifiedColumn(subsystem)))
      else
        var schedTime := Strip(lrow[NotifiedColumn(subsystem)]);
        var timeWrite := [Cell(TimeColumn, m, schedTime)];
        if SenderColumn !in srow then Run(timeWrite, 0, Some(SenderColumn))
        else if NotifierColumn !in lrow then Run(timeWrite, 0, Some(NotifierColumn))
        else if SenderRule(srow[SenderColumn], schedTime, lrow[NotifierColumn]) then
          Run(timeWrite + [Cell(SenderColumn, m, lrow[NotifierColumn])], 1, None)
        else Run(timeWrite, 1, None)
  }

  /** The inner loop over schedule rows 0 .. k-1. */
  function RowRun(ratio: (string, string) -> real, subsystem: string, lrow: Row, sched: seq<Row>, k: nat): Run
    requires k <= |sched|
  {
    if k == 0 then Idle
    else Then(RowRun(ratio, subsystem, lrow, sched, k - 1), Pair(ratio, subsystem, lrow, k - 1, sched[k - 1]))
  }

  /** The outer loop over legacy rows 0 .. n-1. */
  function SyncUpTo(ratio: (string, string) -> real, subsystem: string, legacy: seq<Row>, sched: seq<Row>, n: nat): Run
    requires n <= |legacy|
  {
    if n == 0 then Idle
    else Then(SyncUpTo(ratio, subsystem, legacy, sched, n - 1), RowRun(ratio, subsystem, legacy[n - 1], sched, |sched|))
  }

  function Sync(ratio: (string, string) -> real, subsystem: string, legacy: seq<Row>, sched: seq<Row>): Run
  {
    SyncUpTo(ratio, subsystem, legacy, sched, |legacy|)
  }

  /** `sync_notified`: the outer loop over legacy rows, issuing the cell writes in order
      and counting the matches. A missing column raises `KeyError`, which ends the scan;
      the writes already issued are returned with it. */
  method SyncNotified(ratio: (string, string) -> real, subsystem: string, legacy: seq<Row>, sched: seq<Row>)
    returns (writes: seq<Cell>, count: nat, error: Option<string>)
    ensures Run(writes, count, error) == Sync(ratio, subsystem, legacy, sched)
  {
    writes, count, error := [], 0, None;
    var n := 0;
    while n < |legacy|
      invariant n <= |legacy|
      invariant SyncUpTo(ratio, subsystem, legacy, sched, n) == Run(writes, count, error) && error.None?
    {
      var rowWrites, rowCount, rowError := ScanSchedule(ratio, subsystem, legacy[n], sched);
      writes, count, error := writes + rowWrites, count + rowCount, rowError;
      if error.Some? {
        SyncErrorPersists(ratio, subsystem, legacy, sched, n + 1, |legacy|);
        return;
      }
      n := n + 1;
    }
  }

  /** The inner loop of `sync_notified` for one legacy row: the writes it issues,
      the matches it counts, and the `KeyError` that stopped it, if any. */
  method ScanSchedule(ratio: (string, string) -> real, subsystem: string, row: Row, sched: seq<Row>)
    returns (writes: seq<Cell>, count: nat, error: Option<string>)
    ensures Run(writes, count, error) == RowRun(ratio, subsystem, row, sched, |sched|)
  {
    writes, count, error := [], 0, None;
    var m := 0;
    while m < |sched|
      invariant m <= |sched|
      invariant RowRun(ratio, subsystem, row, sched, m) == Run(writes, count, error) && error.None?
    {
      // main.py:92-108 for schedule row m.
      var cells: seq<Cell>, matched, pairError: Option<string> := [], false, None;
      var x := RowScore(ratio, row, LegacyColumns, sched[m], ScheduleColumns);
      if x.Err? {
        pairError := Some(x.error);
      } else if x.value > NotifiedThreshold {
        if NotifiedColumn(subsystem) !in row {
          pairError := Some(NotifiedColumn(subsystem));
        } else {
          var schedTime := Strip(row[NotifiedColumn(subsystem)]);
          cells := [Cell(TimeColumn, m, schedTime)];
          if SenderColumn !in sched[m] {
            pairError := Some(SenderColumn);
          } else if NotifierColumn !in row {
            pairError := Some(NotifierColumn);
          } else {
            if (Strip(sched[m][SenderColumn]) == "" && schedTime != "") || row[NotifierColumn] == "" {
              cells := cells + [Cell(SenderColumn, m, row[NotifierColumn])];
            }
            matched := true;
          }
        }
      }
      RowRunStep(ratio, subsystem, row, sched, m, Run(writes, count, error), Run(cells, if matched then 1 else 0, pairError));
      writes, error := writes + cells, pairError;
      if matched {
        count := count + 1;
      }
      if error.Some? {
        RowRunErrorPersists(ratio, subsystem, row, sched, m + 1, |sched|);
        return;
      }
      m := m + 1;
    }
  }

  /** One more schedule row: the run so far followed by that row's pair. */
  lemma RowRunStep(ratio: (string, string) -> real, subsystem: string, lrow: Row, sched: seq<Row>, m: nat, acc: Run, step: Run)
    requires m < |sched| && RowRun(ratio, subsystem, lrow, sched, m) == acc && acc.error.None?
    requires step == Pair(ratio, subsystem, lrow, m, sched[m])
    ensures RowRun(ratio, subsystem, lrow, sched, m + 1) == Run(acc.writes + step.writes, acc.count + step.count, step.error)
  {
  }

  lemma {:induction false} RowRunErrorPersists(ratio: (string, string) -> real, subsystem: string, lrow: Row, sched: seq<Row>, k: nat, j: nat)
    requires k <= j <= |sched| && RowRun(ratio, subsystem, lrow, sched, k).error.Some?
    ensures RowRun(ratio, subsystem, lrow, sched, j) == RowRun(ratio, subsystem, lrow, sched, k)
    decreases j - k
  {
    if k < j {
      RowRunErrorPersists(ratio, subsystem, lrow, sched, k, j - 1);
    }
  }

  lemma {:induction false} SyncErrorPersists(ratio: (string, string) -> real, subsystem: string, legacy: seq<Row>, sched: seq<Row>, n: nat, j: nat)
    requires n <= j <= |legacy| && SyncUpTo(ratio, subsystem, legacy, sched, n).error.Some?
    ensures SyncUpTo(ratio, subsystem, legacy, sched, j) == SyncUpTo(ratio, subsystem, legacy, sched, n)
    decreases j - n
  {
    if n < j {
      SyncErrorPersists(ratio, subsystem, legacy, sched, n, j - 1);
    }
  }

  // ---------------------------------------------------------------------------
  // What the scan writes, stated against the list of matching pairs.

  predicate LegacyRowOk(subsystem: string, lrow: Row)
  {
    HasColumns(lrow, LegacyColumns) && NotifiedColumn(subsystem) in lrow && NotifierColumn in lrow
  }

  predicate ScheduleRowOk(srow: Row)
  {
    HasColumns(srow, ScheduleColumns) && SenderColumn in srow
  }

  /** Every row has every column the scan may read. */
  predicate WellFormed(subsystem: string, legacy: seq<Row>, sched: seq<Row>)
  {
    && (forall i :: 0 <= i < |legacy| ==> LegacyRowOk(subsystem, legacy[i]))
    && (forall j :: 0 <= j < |sched| ==> ScheduleRowOk(sched[j]))
  }

  /** Legacy row n and schedule row m exist, hold the identity columns, and score above 0.85·6. */
  predicate IsMatch(ratio: (string, string) -> real, legacy: seq<Row>, sched: seq<Row>, n: nat, m: nat)
  {
    && n < |legacy| && m < |sched|
    && HasColumns(legacy[n], LegacyColumns) && HasColumns(sched[m], ScheduleColumns)
    && Score(ratio, CandidateOf(legacy[n], LegacyColumns), CandidateOf(sched[m], ScheduleColumns)) > NotifiedThreshold
  }

  /** `IsMatch` as a relation on index pairs; the list lemmas below are stated over
      an arbitrary such relation `hit`. */
  function MatchOf(ratio: (string, string) -> real, legacy: seq<Row>, sched: seq<Row>): (g: seq<seq<bool>>)
    ensures |g| == |legacy|
    ensures forall n, m :: Hit(g, n, m) <==> IsMatch(ratio, legacy, sched, n, m)
  {
    seq(|legacy|, n requires 0 <= n < |legacy| => seq(|sched|, m requires 0 <= m < |sched| => IsMatch(ratio, legacy, sched, n, m)))
  }

  predicate Hit(g: seq<seq<bool>>, n: nat, m: nat)
  {
    n < |g| && m < |g[n]| && g[n][m]
  }

  /** The pairs (n, m) with m < k that `hit` relates, for one legacy row n, in order of m. */
  function RowMatches(hit: seq<seq<bool>>, n: nat, k: nat): seq<(nat, nat)>
  {
    if k == 0 then []
    else RowMatches(hit, n, k - 1) + (if Hit(hit, n, k - 1) then [(n, k - 1)] else [])
  }

  /** The related pairs with legacy index below n and schedule index below `width`, in (n, m) order. */
  function MatchesUpTo(hit: seq<seq<bool>>, width: nat, n: nat): seq<(nat, nat)>
  {
    if n == 0 then []
    else MatchesUpTo(hit, width, n - 1) + RowMatches(hit, n - 1, width)
  }

  /** The matching pairs of the two sheets, in the order the nested loops reach them. */
  function Matches(ratio: (string, string) -> real, legacy: seq<Row>, sched: seq<Row>): seq<(nat, nat)>
  {
    MatchesUpTo(MatchOf(ratio, legacy, sched), |sched|, |legacy|)
  }

  /** The stripped notification time of legacy row n (empty if there is no such cell,
      a case in which the scan raises instead of writing). */
  function NotifiedTime(subsystem: string, legacy: seq<Row>, n: nat): string
  {
    if n < |legacy| && NotifiedColumn(subsystem) in legacy[n] then Strip(legacy[n][NotifiedColumn(subsystem)]) else ""
  }

  /** One "Interview Date/Time" write per pair: the legacy row's notification time into schedule row m. */
  function TimeCells(subsystem: string, legacy: seq<Row>, ps: seq<(nat, nat)>): seq<Cell>
  {
    if ps == [] then []
    else [Cell(TimeColumn, ps[0].1, NotifiedTime(subsystem, legacy, ps[0].0))] + TimeCells(subsystem, legacy, ps[1..])
  }

  /** main.py:104 holds for legacy row n and schedule row m. */
  predicate SenderWritten(subsystem: string, legacy: seq<Row>, sched: seq<Row>, n: nat, m: nat)
  {
    && n < |legacy| && m < |sched| && NotifierColumn in legacy[n] && SenderColumn in sched[m]
    && SenderRule(sched[m][SenderColumn], NotifiedTime(subsystem, legacy, n), legacy[n][NotifierColumn])
  }

  /** One "WS Sender" write for each pair that satisfies the sender rule: the legacy row's notifier. */
  function SenderCells(subsystem: string, legacy: seq<Row>, sched: seq<Row>, ps: seq<(nat, nat)>): seq<Cell>
  {
    if ps == [] then []
    else
      (if SenderWritten(subsystem, legacy, sched, ps[0].0, ps[0].1)
       then [Cell(SenderColumn, ps[0].1, legacy[ps[0].0][NotifierColumn])] else [])
      + SenderCells(subsystem, legacy, sched, ps[1..])
  }

  /** The writes to one column, in the order they were issued. */
  function ColumnWrites(writes: seq<Cell>, column: string): seq<Cell>
  {
    if writes == [] then []
    else (if writes[0].column == column then [writes[0]] else []) + ColumnWrites(writes[1..], column)
  }

  lemma {:induction false} ColumnWritesConcat(a: seq<Cell>, b: seq<Cell>, column: string)
    ensures ColumnWrites(a + b, column) == ColumnWrites(a, column) + ColumnWrites(b, column)
  {
    if a != [] {
      assert (a + b)[1..] == a[1..] + b;
      ColumnWritesConcat(a[1..], b, column);
    } else {
      assert a + b == b;
    }
  }

  lemma {:induction false} TimeCellsConcat(subsystem: string, legacy: seq<Row>, ps: seq<(nat, nat)>, qs: seq<(nat, nat)>)
    ensures TimeCells(subsystem, legacy, ps + qs) == TimeCells(subsystem, legacy, ps) + TimeCells(subsystem, legacy, qs)
  {
    if ps != [] {
      assert (ps + qs)[1..] == ps[1..] + qs;
      assert (ps + qs)[0] == ps[0];
      TimeCellsConcat(subsystem, legacy, ps[1..], qs);
    } else {
      assert ps + qs == qs;
    }
  }

  /** The writes `sync_notified` issues for one matching pair (n, m): the time, then the
      sender when main.py:104 holds. */
  function PairCells(subsystem: string, legacy: seq<Row>, sched: seq<Row>, p: (nat, nat)): seq<Cell>
  {
    [Cell(TimeColumn, p.1, NotifiedTime(subsystem, legacy, p.0))]
    + (if SenderWritten(subsystem, legacy, sched, p.0, p.1)
       then [Cell(SenderColumn, p.1, legacy[p.0][NotifierColumn])] else [])
  }

  lemma PairCellsColumns(subsystem: string, legacy: seq<Row>, sched: seq<Row>, p: (nat, nat))
    ensures ColumnWrites(PairCells(subsystem, legacy, sched, p), TimeColumn)
            == [Cell(TimeColumn, p.1, NotifiedTime(subsystem, legacy, p.0))]
    ensures ColumnWrites(PairCells(subsystem, legacy, sched, p), SenderColumn)
            == if SenderWritten(subsystem, legacy, sched, p.0, p.1)
               then [Cell(SenderColumn, p.1, legacy[p.0][NotifierColumn])] else []
  {
    var timeCell := [Cell(TimeColumn, p.1, NotifiedTime(subsystem, legacy, p.0))];
    var senderCell: seq<Cell> := if SenderWritten(subsystem, legacy, sched, p.0, p.1)
                                 then [Cell(SenderColumn, p.1, legacy[p.0][NotifierColumn])] else [];
    ColumnWritesConcat(timeCell, senderCell, TimeColumn);
    ColumnWritesConcat(timeCell, senderCell, SenderColumn);
    assert timeCell[1..] == [];
    if senderCell != [] {
      assert senderCell[1..] == [];
    }
  }

  /** A table of cell lists indexed by (legacy row, schedule row); the fold lemmas
      below are stated over an arbitrary such table `cg`. */
  function CellsAt(cg: seq<seq<seq<Cell>>>, n: nat, m: nat): seq<Cell>
  {
    if n < |cg| && m < |cg[n]| then cg[n][m] else []
  }

  /** The writes of every pair of the two sheets. */
  function CellGrid(subsystem: string, legacy: seq<Row>, sched: seq<Row>): (cg: seq<seq<seq<Cell>>>)
    ensures forall n: nat, m: nat :: n < |legacy| && m < |sched| ==> CellsAt(cg, n, m) == PairCells(subsystem, legacy, sched, (n, m))
  {
    seq(|legacy|, n requires 0 <= n < |legacy| =>
      seq(|sched|, m requires 0 <= m < |sched| => PairCells(subsystem, legacy, sched, (n, m))))
  }

  /** The cells of the pairs ps, pair after pair. */
  function GridCells(cg: seq<seq<seq<Cell>>>, ps: seq<(nat, nat)>): seq<Cell>
  {
    if ps == [] then [] else CellsAt(cg, ps[0].0, ps[0].1) + GridCells(cg, ps[1..])
  }

  lemma {:induction false} GridCellsConcat(cg: seq<seq<seq<Cell>>>, ps: seq<(nat, nat)>, qs: seq<(nat, nat)>)
    ensures GridCells(cg, ps + qs) == GridCells(cg, ps) + GridCells(cg, qs)
  {
    if ps != [] {
      assert (ps + qs)[1..] == ps[1..] + qs;
      assert (ps + qs)[0] == ps[0];
      GridCellsConcat(cg, ps[1..], qs);
    } else {
      assert ps + qs == qs;
    }
  }

  /** Two quiet runs in a row write the cells of both lists and count both. */
  lemma ThenCells(cg: seq<seq<seq<Cell>>>, x: Run, y: Run, ps: seq<(nat, nat)>, qs: seq<(nat, nat)>)
    requires x == Run(GridCells(cg, ps), |ps|, None) && y == Run(GridCells(cg, qs), |qs|, None)
    ensures Then(x, y) == Run(GridCells(cg, ps + qs), |ps + qs|, None)
  {
    GridCellsConcat(cg, ps, qs);
  }

  /** A quiet run followed by a body that writes the cells of p and counts one when b
      holds, and does nothing otherwise. */
  lemma ThenCellsIf(cg: seq<seq<seq<Cell>>>, x: Run, y: Run, ps: seq<(nat, nat)>, b: bool, p: (nat, nat))
    requires x == Run(GridCells(cg, ps), |ps|, None)
    requires y == if b then Run(CellsAt(cg, p.0, p.1), 1, None) else Idle
    ensures Then(x, y) == Run(GridCells(cg, ps + (if b then [p] else [])), |ps + (if b then [p] else [])|, None)
  {
    if b {
      assert GridCells(cg, [p]) == CellsAt(cg, p.0, p.1) + GridCells(cg, []);
      ThenCells(cg, x, Run(GridCells(cg, [p]), 1, None), ps, [p]);
    } else {
      assert ps + [] == ps;
    }
  }

  /** A loop whose bodies, in order, have the effects rs: after k of them, the writes
      and counts so far, or the first `KeyError` and everything issued before it. */
  function Seqn(rs: seq<Run>, k: nat): Run
    requires k <= |rs|
  {
    if k == 0 then Idle else Then(Seqn(rs, k - 1), rs[k - 1])
  }

  /** The body of the inner loop on each schedule row, for legacy row `lrow`. */
  function PairRuns(ratio: (string, string) -> real, subsystem: string, lrow: Row, sched: seq<Row>): seq<Run>
  {
    seq(|sched|, m requires 0 <= m < |sched| => Pair(ratio, subsystem, lrow, m, sched[m]))
  }

  /** The whole inner loop, for each legacy row. */
  function RowScans(ratio: (string, string) -> real, subsystem: string, legacy: seq<Row>, sched: seq<Row>): seq<Run>
  {
    seq(|legacy|, n requires 0 <= n < |legacy| => RowRun(ratio, subsystem, legacy[n], sched, |sched|))
  }

  /** The inner loop is the loop whose bodies are the pair bodies. */
  lemma {:induction false} RowRunSeqn(ratio: (string, string) -> real, subsystem: string, lrow: Row, sched: seq<Row>, k: nat)
    requires k <= |sched|
    ensures RowRun(ratio, subsystem, lrow, sched, k) == Seqn(PairRuns(ratio, subsystem, lrow, sched), k)
  {
    if k > 0 {
      RowRunSeqn(ratio, subsystem, lrow, sched, k - 1);
      assert PairRuns(ratio, subsystem, lrow, sched)[k - 1] == Pair(ratio, subsystem, lrow, k - 1, sched[k - 1]);
    }
  }

  /** The outer loop is the loop whose bodies are the inner loops. */
  lemma {:induction false} SyncUpToSeqn(ratio: (string, string) -> real, subsystem: string, legacy: seq<Row>, sched: seq<Row>, n: nat)
    requires n <= |legacy|
    ensures SyncUpTo(ratio, subsystem, legacy, sched, n) == Seqn(RowScans(ratio, subsystem, legacy, sched), n)
  {
    if n > 0 {
      SyncUpToSeqn(ratio, subsystem, legacy, sched, n - 1);
      assert RowScans(ratio, subsystem, legacy, sched)[n - 1] == RowRun(ratio, subsystem, legacy[n - 1], sched, |sched|);
    }
  }

  /** The inner loop, when its body on schedule row m writes the cells of (n, m) and counts
      one exactly when `hit` relates n and m, and does nothing otherwise: it raises nothing,
      writes the cells of the related pairs below k in order, and counts them. */
  lemma {:induction false} SeqnRow(rs: seq<Run>, hit: seq<seq<bool>>, cg: seq<seq<seq<Cell>>>, n: nat, k: nat)
    requires k <= |rs|
    requires forall m :: 0 <= m < |rs| ==> rs[m] == if Hit(hit, n, m) then Run(CellsAt(cg, n, m), 1, None) else Idle
    ensures Seqn(rs, k) == Run(GridCells(cg, RowMatches(hit, n, k)), |RowMatches(hit, n, k)|, None)
  {
    if k > 0 {
      SeqnRow(rs, hit, cg, n, k - 1);
      ThenCellsIf(cg, Seqn(rs, k - 1), rs[k - 1], RowMatches(hit, n, k - 1), Hit(hit, n, k - 1), (n, k - 1));
    }
  }

  /** The outer loop, when its body on legacy row n writes the cells of the pairs of row n
      that `hit` relates and counts them: it raises nothing, writes the cells of all related
      pairs below n in loop order, and counts them. */
  lemma {:induction false} SeqnRows(rs: seq<Run>, hit: seq<seq<bool>>, cg: seq<seq<seq<Cell>>>, width: nat, n: nat)
    requires n <= |rs|
    requires forall i :: 0 <= i < |rs| ==>
               rs[i] == Run(GridCells(cg, RowMatches(hit, i, width)), |RowMatches(hit, i, width)|, None)
    ensures Seqn(rs, n) == Run(GridCells(cg, MatchesUpTo(hit, width, n)), |MatchesUpTo(hit, width, n)|, None)
  {
    if n > 0 {
      SeqnRows(rs, hit, cg, width, n - 1);
      ThenCells(cg, Seqn(rs, n - 1), rs[n - 1], MatchesUpTo(hit, width, n - 1), RowMatches(hit, n - 1, width));
    }
  }

  /** Of the writes for in-range pairs ps, those to "Interview Date/Time" are one per pair. */
  lemma {:induction false} GridTimeCells(subsystem: string, legacy: seq<Row>, sched: seq<Row>, ps: seq<(nat, nat)>)
    requires forall i :: 0 <= i < |ps| ==> ps[i].0 < |legacy| && ps[i].1 < |sched|
    ensures ColumnWrites(GridCells(CellGrid(subsystem, legacy, sched), ps), TimeColumn) == TimeCells(subsystem, legacy, ps)
  {
    if ps != [] {
      var cg := CellGrid(subsystem, legacy, sched);
      var head, tail := CellsAt(cg, ps[0].0, ps[0].1), GridCells(cg, ps[1..]);
      GridTimeCells(subsystem, legacy, sched, ps[1..]);
      assert head == PairCells(subsystem, legacy, sched, ps[0]);
      PairCellsColumns(subsystem, legacy, sched, ps[0]);
      ColumnWritesConcat(head, tail, TimeColumn);
    }
  }

  /** Of the writes for in-range pairs ps, those to "WS Sender" are one per pair that meets
      the sender rule. */
  lemma {:induction false} GridSenderCells(subsystem: string, legacy: seq<Row>, sched: seq<Row>, ps: seq<(nat, nat)>)
    requires forall i :: 0 <= i < |ps| ==> ps[i].0 < |legacy| && ps[i].1 < |sched|
    ensures ColumnWrites(GridCells(CellGrid(subsystem, legacy, sched), ps), SenderColumn)
            == SenderCells(subsystem, legacy, sched, ps)
  {
    if ps != [] {
      var cg := CellGrid(subsystem, legacy, sched);
      var head, tail := CellsAt(cg, ps[0].0, ps[0].1), GridCells(cg, ps[1..]);
      GridSenderCells(subsystem, legacy, sched, ps[1..]);
      assert head == PairCells(subsystem, legacy, sched, ps[0]);
      PairCellsColumns(subsystem, legacy, sched, ps[0]);
      ColumnWritesConcat(head, tail, SenderColumn);
    }
  }

  /** On well-formed sheets one pair raises nothing; it writes the pair's cells and counts
      one when the rows match, and does nothing otherwise. */
  lemma PairWrites(ratio: (string, string) -> real, subsystem: string, legacy: seq<Row>, sched: seq<Row>, n: nat, m: nat)
    requires WellFormed(subsystem, legacy, sched) && n < |legacy| && m < |sched|
    ensures Pair(ratio, subsystem, legacy[n], m, sched[m])
            == if IsMatch(ratio, legacy, sched, n, m)
               then Run(PairCells(subsystem, legacy, sched, (n, m)), 1, None) else Idle
  {
    var lrow, srow := legacy[n], sched[m];
    assert LegacyRowOk(subsystem, lrow) && ScheduleRowOk(srow);
    assert RowScore(ratio, lrow, LegacyColumns, srow, ScheduleColumns)
        == Ok(Score(ratio, CandidateOf(lrow, LegacyColumns), CandidateOf(srow, ScheduleColumns)));
    assert NotifiedTime(subsystem, legacy, n) == Strip(lrow[NotifiedColumn(subsystem)]);
  }

  /** The inner loop for legacy row n of well-formed sheets writes the cells of that row's
      matching pairs and counts them. */
  lemma RowRunWrites(ratio: (string, string) -> real, subsystem: string, legacy: seq<Row>, sched: seq<Row>, n: nat)
    requires WellFormed(subsystem, legacy, sched) && n < |legacy|
    ensures RowRun(ratio, subsystem, legacy[n], sched, |sched|)
            == Run(GridCells(CellGrid(subsystem, legacy, sched), RowMatches(MatchOf(ratio, legacy, sched), n, |sched|)),
                   |RowMatches(MatchOf(ratio, legacy, sched), n, |sched|)|, None)
  {
    var rs := PairRuns(ratio, subsystem, legacy[n], sched);
    var hit, cg := MatchOf(ratio, legacy, sched), CellGrid(subsystem, legacy, sched);
    forall m | 0 <= m < |rs|
      ensures rs[m] == if Hit(hit, n, m) then Run(CellsAt(cg, n, m), 1, None) else Idle
    {
      PairWrites(ratio, subsystem, legacy, sched, n, m);
    }
    SeqnRow(rs, hit, cg, n, |sched|);
    RowRunSeqn(ratio, subsystem, legacy[n], sched, |sched|);
  }

  /** The scan of well-formed sheets raises nothing, writes the cells of every matching
      pair in loop order, and counts the matching pairs. */
  lemma SyncWrites(ratio: (string, string) -> real, subsystem: string, legacy: seq<Row>, sched: seq<Row>)
    requires WellFormed(subsystem, legacy, sched)
    ensures Sync(ratio, subsystem, legacy, sched)
            == Run(GridCells(CellGrid(subsystem, legacy, sched), Matches(ratio, legacy, sched)),
                   |Matches(ratio, legacy, sched)|, None)
  {
    var rs := RowScans(ratio, subsystem, legacy, sched);
    var hit, cg := MatchOf(ratio, legacy, sched), CellGrid(subsystem, legacy, sched);
    forall i | 0 <= i < |rs|
      ensures rs[i] == Run(GridCells(cg, RowMatches(hit, i, |sched|)), |RowMatches(hit, i, |sched|)|, None)
    {
      RowRunWrites(ratio, subsystem, legacy, sched, i);
    }
    SeqnRows(rs, hit, cg, |sched|, |legacy|);
    SyncUpToSeqn(ratio, subsystem, legacy, sched, |legacy|);
  }

  /** When every row has the columns the scan reads, it raises nothing; its
      "Interview Date/Time" writes are exactly one per matching pair, in (n, m)
      order, each the stripped notification time of the legacy row; its
      "WS Sender" writes are exactly those of the matching pairs that meet the
      sender rule; and `count` is the number of matching pairs. */
  lemma SyncWritesMatches(ratio: (string, string) -> real, subsystem: string, legacy: seq<Row>, sched: seq<Row>)
    requires WellFormed(subsystem, legacy, sched)
    ensures Sync(ratio, subsystem, legacy, sched).error.None?
    ensures ColumnWrites(Sync(ratio, subsystem, legacy, sched).writes, TimeColumn)
            == TimeCells(subsystem, legacy, Matches(ratio, legacy, sched))
    ensures ColumnWrites(Sync(ratio, subsystem, legacy, sched).writes, SenderColumn)
            == SenderCells(subsystem, legacy, sched, Matches(ratio, legacy, sched))
    ensures Sync(ratio, subsystem, legacy, sched).count == |Matches(ratio, legacy, sched)|
  {
    var ps := Matches(ratio, legacy, sched);
    SyncWrites(ratio, subsystem, legacy, sched);
    MatchesSpec(ratio, legacy, sched);
    forall i | 0 <= i < |ps|
      ensures ps[i].0 < |legacy| && ps[i].1 < |sched|
    {
      assert ps[i] in ps;
    }
    GridTimeCells(subsystem, legacy, sched, ps);
    GridSenderCells(subsystem, legacy, sched, ps);
  }

  /** (n, m) comes before (n', m') in the order of the nested loops. */
  predicate LoopOrder(p: (nat, nat), q: (nat, nat))
  {
    p.0 < q.0 || (p.0 == q.0 && p.1 < q.1)
  }

  predicate InLoopOrder(ps: seq<(nat, nat)>)
  {
    forall i, j :: 0 <= i < j < |ps| ==> LoopOrder(ps[i], ps[j])
  }

  lemma {:induction false} RowMatchesMembers(hit: seq<seq<bool>>, n: nat, k: nat)
    ensures forall p :: p in RowMatches(hit, n, k) <==> p.0 == n && p.1 < k && Hit(hit, n, p.1)
  {
    if k > 0 {
      var a := RowMatches(hit, n, k - 1);
      var b: seq<(nat, nat)> := if Hit(hit, n, k - 1) then [(n, k - 1)] else [];
      assert RowMatches(hit, n, k) == a + b;
      RowMatchesMembers(hit, n, k - 1);
      forall p: (nat, nat)
        ensures p in a + b <==> p.0 == n && p.1 < k && Hit(hit, n, p.1)
      {
        assert p in a <==> p.0 == n && p.1 < k - 1 && Hit(hit, n, p.1);
        assert p in b <==> p == (n, k - 1) && Hit(hit, n, k - 1);
        assert p in a + b <==> p in a || p in b;
      }
    }
  }

  /** The pairs for row n, all with first component n, in increasing order of m. */
  lemma {:induction false} RowMatchesOrder(hit: seq<seq<bool>>, n: nat, k: nat)
    ensures InLoopOrder(RowMatches(hit, n, k))
    ensures forall i :: 0 <= i < |RowMatches(hit, n, k)| ==>
              RowMatches(hit, n, k)[i].0 == n && RowMatches(hit, n, k)[i].1 < k
  {
    if k > 0 {
      var a := RowMatches(hit, n, k - 1);
      RowMatchesOrder(hit, n, k - 1);
      if Hit(hit, n, k - 1) {
        var r := a + [(n, k - 1)];
        assert RowMatches(hit, n, k) == r;
        forall i | 0 <= i < |r|
          ensures r[i].0 == n && r[i].1 < k
        {
          if i < |a| {
            assert r[i] == a[i];
          }
        }
        forall i, j | 0 <= i < j < |r|
          ensures LoopOrder(r[i], r[j])
        {
          assert r[i] == a[i];
          if j < |a| {
            assert r[j] == a[j];
          }
        }
      } else {
        assert RowMatches(hit, n, k) == a + [];
        assert a + [] == a;
      }
    }
  }

  /** Two lists in loop order, every pair of the first before every pair of the second. */
  lemma InLoopOrderConcat(a: seq<(nat, nat)>, b: seq<(nat, nat)>, n: nat)
    requires InLoopOrder(a) && InLoopOrder(b)
    requires forall i :: 0 <= i < |a| ==> a[i].0 < n
    requires forall i :: 0 <= i < |b| ==> b[i].0 == n
    ensures InLoopOrder(a + b)
  {
    forall i, j | 0 <= i < j < |a + b|
      ensures LoopOrder((a + b)[i], (a + b)[j])
    {
      if j < |a| {
        assert (a + b)[i] == a[i] && (a + b)[j] == a[j];
      } else if i < |a| {
        assert (a + b)[i] == a[i] && (a + b)[j] == b[j - |a|];
      } else {
        assert (a + b)[i] == b[i - |a|] && (a + b)[j] == b[j - |a|];
      }
    }
  }

  lemma {:induction false} MatchesUpToMembers(hit: seq<seq<bool>>, width: nat, n: nat)
    ensures forall p :: p in MatchesUpTo(hit, width, n) <==> p.0 < n && p.1 < width && Hit(hit, p.0, p.1)
  {
    if n > 0 {
      var a := MatchesUpTo(hit, width, n - 1);
      var b := RowMatches(hit, n - 1, width);
      assert MatchesUpTo(hit, width, n) == a + b;
      MatchesUpToMembers(hit, width, n - 1);
      RowMatchesMembers(hit, n - 1, width);
      forall p: (nat, nat)
        ensures p in a + b <==> p.0 < n && p.1 < width && Hit(hit, p.0, p.1)
      {
        assert p in a <==> p.0 < n - 1 && p.1 < width && Hit(hit, p.0, p.1);
        assert p in b <==> p.0 == n - 1 && p.1 < width && Hit(hit, n - 1, p.1);
        assert p in a + b <==> p in a || p in b;
      }
    }
  }

  lemma {:induction false} MatchesUpToOrder(hit: seq<seq<bool>>, width: nat, n: nat)
    ensures InLoopOrder(MatchesUpTo(hit, width, n))
    ensures forall i :: 0 <= i < |MatchesUpTo(hit, width, n)| ==> MatchesUpTo(hit, width, n)[i].0 < n
  {
    if n > 0 {
      var a := MatchesUpTo(hit, width, n - 1);
      var b := RowMatches(hit, n - 1, width);
      assert MatchesUpTo(hit, width, n) == a + b;
      MatchesUpToOrder(hit, width, n - 1);
      RowMatchesOrder(hit, n - 1, width);
      InLoopOrderConcat(a, b, n - 1);
      forall i | 0 <= i < |a + b|
        ensures (a + b)[i].0 < n
      {
        if i < |a| {
          assert (a + b)[i] == a[i];
        } else {
          assert (a + b)[i] == b[i - |a|];
        }
      }
    }
  }

  lemma MatchesUpToSpec(hit: seq<seq<bool>>, width: nat, n: nat)
    ensures forall p :: p in MatchesUpTo(hit, width, n) <==> p.0 < n && p.1 < width && Hit(hit, p.0, p.1)
    ensures InLoopOrder(MatchesUpTo(hit, width, n))
  {
    MatchesUpToMembers(hit, width, n);
    MatchesUpToOrder(hit, width, n);
  }

  /** The pairs the scan acts on are exactly the matching pairs, each once, in loop order. */
  lemma MatchesSpec(ratio: (string, string) -> real, legacy: seq<Row>, sched: seq<Row>)
    ensures forall p :: p in Matches(ratio, legacy, sched) <==>
              p.0 < |legacy| && p.1 < |sched| && IsMatch(ratio, legacy, sched, p.0, p.1)
    ensures InLoopOrder(Matches(ratio, legacy, sched))
  {
    MatchesUpToSpec(MatchOf(ratio, legacy, sched), |sched|, |legacy|);
  }

  /** Writes go only to the "Interview Date/Time" and "WS Sender" cells of existing
      schedule rows, whatever the rows hold and whether or not the scan raised. */
  predicate WritesTargetSchedule(writes: seq<Cell>, sched: seq<Row>)
  {
    forall i :: 0 <= i < |writes| ==>
      (writes[i].column == TimeColumn || writes[i].column == SenderColumn) && writes[i].row < |sched|
  }

  /** A loop whose every body writes only schedule cells writes only schedule cells. */
  lemma {:induction false} SeqnTargets(rs: seq<Run>, sched: seq<Row>, k: nat)
    requires k <= |rs|
    requires forall i :: 0 <= i < |rs| ==> WritesTargetSchedule(rs[i].writes, sched)
    ensures WritesTargetSchedule(Seqn(rs, k).writes, sched)
  {
    if k > 0 {
      SeqnTargets(rs, sched, k - 1);
      var a, b := Seqn(rs, k - 1).writes, rs[k - 1].writes;
      assert forall i :: 0 <= i < |a + b| ==> (a + b)[i] == if i < |a| then a[i] else b[i - |a|];
    }
  }

  lemma RowRunTargets(ratio: (string, string) -> real, subsystem: string, lrow: Row, sched: seq<Row>)
    ensures WritesTargetSchedule(RowRun(ratio, subsystem, lrow, sched, |sched|).writes, sched)
  {
    var rs := PairRuns(ratio, subsystem, lrow, sched);
    forall m | 0 <= m < |rs|
      ensures WritesTargetSchedule(rs[m].writes, sched)
    {
      assert rs[m] == Pair(ratio, subsystem, lrow, m, sched[m]);
    }
    SeqnTargets(rs, sched, |sched|);
    RowRunSeqn(ratio, subsystem, lrow, sched, |sched|);
  }

  lemma SyncTargets(ratio: (string, string) -> real, subsystem: string, legacy: seq<Row>, sched: seq<Row>)
    ensures WritesTargetSchedule(Sync(ratio, subsystem, legacy, sched).writes, sched)
  {
    var rs := RowScans(ratio, subsystem, legacy, sched);
    forall i | 0 <= i < |rs|
      ensures WritesTargetSchedule(rs[i].writes, sched)
    {
      RowRunTargets(ratio, subsystem, legacy[i], sched);
    }
    SeqnTargets(rs, sched, |legacy|);
    SyncUpToSeqn(ratio, subsystem, legacy, sched, |legacy|);
  }

  /** Write c can only have been issued for the matching pair (n, c.row): a time write
      carries legacy row n's stripped notification time, and a sender write carries its
      notifier, issued only when main.py:104 holds. */
  predicate IssuedFor(ratio: (string, string) -> real, subsystem: string, legacy: seq<Row>, sched: seq<Row>, n: nat, c: Cell)
  {
    && IsMatch(ratio, legacy, sched, n, c.row)
    && (c.column == TimeColumn ==> c.value == NotifiedTime(subsystem, legacy, n))
    && (c.column == SenderColumn ==>
          SenderWritten(subsystem, legacy, sched, n, c.row) && c.value == legacy[n][NotifierColumn])
  }

  /** Every write of a loop is a write of one of the bodies it ran. */
  lemma {:induction false} SeqnWrites(rs: seq<Run>, k: nat, c: Cell)
    requires k <= |rs| && c in Seqn(rs, k).writes
    ensures exists i :: 0 <= i < k && c in rs[i].writes
  {
    var a := Seqn(rs, k - 1);
    if a.error.None? && c !in a.writes {
      assert c in rs[k - 1].writes;
    } else {
      SeqnWrites(rs, k - 1, c);
    }
  }

  /** One pair writes only cells of its own schedule row, and only when the rows match. */
  lemma PairIssued(ratio: (string, string) -> real, subsystem: string, legacy: seq<Row>, sched: seq<Row>, n: nat, m: nat, c: Cell)
    requires n < |legacy| && m < |sched| && c in Pair(ratio, subsystem, legacy[n], m, sched[m]).writes
    ensures c.row == m && IssuedFor(ratio, subsystem, legacy, sched, n, c)
  {
    RowScoreSpec(ratio, legacy[n], LegacyColumns, sched[m], ScheduleColumns);
    assert NotifiedTime(subsystem, legacy, n) == Strip(legacy[n][NotifiedColumn(subsystem)]);
  }

  lemma RowRunIssued(ratio: (string, string) -> real, subsystem: string, legacy: seq<Row>, sched: seq<Row>, n: nat, c: Cell)
    requires n < |legacy| && c in RowRun(ratio, subsystem, legacy[n], sched, |sched|).writes
    ensures IssuedFor(ratio, subsystem, legacy, sched, n, c)
  {
    var rs := PairRuns(ratio, subsystem, legacy[n], sched);
    RowRunSeqn(ratio, subsystem, legacy[n], sched, |sched|);
    SeqnWrites(rs, |sched|, c);
    var m :| 0 <= m < |sched| && c in rs[m].writes;
    assert rs[m] == Pair(ratio, subsystem, legacy[n], m, sched[m]);
    PairIssued(ratio, subsystem, legacy, sched, n, m, c);
  }

  /** Whatever the sheets hold, a missing column included, every write the scan issued
      belongs to a matching pair: its schedule row matches some legacy row n, a time
      write carries row n's stripped notification time, and a sender write carries row
      n's notifier and happens only under the rule of main.py:104. */
  lemma SyncWritesIssued(ratio: (string, string) -> real, subsystem: string, legacy: seq<Row>, sched: seq<Row>)
    ensures forall c :: c in Sync(ratio, subsystem, legacy, sched).writes ==>
              exists n: nat :: n < |legacy| && IssuedFor(ratio, subsystem, legacy, sched, n, c)
  {
    var rs := RowScans(ratio, subsystem, legacy, sched);
    SyncUpToSeqn(ratio, subsystem, legacy, sched, |legacy|);
    forall c | c in Sync(ratio, subsystem, legacy, sched).writes
      ensures exists n: nat :: n < |legacy| && IssuedFor(ratio, subsystem, legacy, sched, n, c)
    {
      SeqnWrites(rs, |legacy|, c);
      var n :| 0 <= n < |legacy| && c in rs[n].writes;
      assert rs[n] == RowRun(ratio, subsystem, legacy[n], sched, |sched|);
      RowRunIssued(ratio, subsystem, legacy, sched, n, c);
    }
  }

  // ---------------------------------------------------------------------------
  // The last write to a cell decides what it holds.

  /** The value left in (column, row) by the last write that reaches it, if any does. */
  function LastWrite(writes: seq<Cell>, column: string, row: nat): Option<string>
  {
    if writes == [] then None
    else
      var w := writes[|writes| - 1];
      if w.column == column && w.row == row then Some(w.value) else LastWrite(writes[..|writes| - 1], column, row)
  }

  lemma {:induction false} LastWriteConcat(a: seq<Cell>, b: seq<Cell>, column: string, row: nat)
    ensures LastWrite(a + b, column, row)
            == if LastWrite(b, column, row).Some? then LastWrite(b, column, row) else LastWrite(a, column, row)
  {
    if b == [] {
      assert a + b == a;
    } else {
      var b' := b[..|b| - 1];
      assert (a + b)[..|a + b| - 1] == a + b';
      LastWriteConcat(a, b', column, row);
    }
  }

  /** Keeping only one column's writes does not change what the last write to a cell of that column is. */
  lemma {:induction false} LastWriteColumn(writes: seq<Cell>, column: string, row: nat)
    ensures LastWrite(ColumnWrites(writes, column), column, row) == LastWrite(writes, column, row)
  {
    if writes != [] {
      var head := if writes[0].column == column then [writes[0]] else [];
      LastWriteColumn(writes[1..], column, row);
      assert writes == [writes[0]] + writes[1..];
      LastWriteConcat([writes[0]], writes[1..], column, row);
      LastWriteConcat(head, ColumnWrites(writes[1..], column), column, row);
      assert LastWrite(head, column, row) == LastWrite([writes[0]], column, row) by {
        assert [writes[0]][..0] == [];
        if head != [] {
          assert head[..0] == [];
        }
      }
    }
  }

  /** The notification time of the last legacy row below n that `hit` relates to schedule row m. */
  function LastMatchTime(hit: seq<seq<bool>>, subsystem: string, legacy: seq<Row>, n: nat, m: nat): Option<string>
  {
    if n == 0 then None
    else if Hit(hit, n - 1, m) then Some(NotifiedTime(subsystem, legacy, n - 1))
    else LastMatchTime(hit, subsystem, legacy, n - 1, m)
  }

  lemma {:induction false} LastMatchTimeNone(hit: seq<seq<bool>>, subsystem: string, legacy: seq<Row>, n: nat, m: nat)
    requires forall k :: 0 <= k < n ==> !Hit(hit, k, m)
    ensures LastMatchTime(hit, subsystem, legacy, n, m) == None
  {
    if n > 0 {
      assert !Hit(hit, n - 1, m);
      LastMatchTimeNone(hit, subsystem, legacy, n - 1, m);
    }
  }

  lemma {:induction false} LastMatchTimeAt(hit: seq<seq<bool>>, subsystem: string, legacy: seq<Row>, n: nat, m: nat, k: nat)
    requires k < n
    requires Hit(hit, k, m)
    requires forall j :: k < j < n ==> !Hit(hit, j, m)
    ensures LastMatchTime(hit, subsystem, legacy, n, m) == Some(NotifiedTime(subsystem, legacy, k))
  {
    if k < n - 1 {
      assert !Hit(hit, n - 1, m);
      LastMatchTimeAt(hit, subsystem, legacy, n - 1, m, k);
    }
  }

  /** The notification time of the last pair of ps whose schedule row is m. */
  function LastPairTime(subsystem: string, legacy: seq<Row>, ps: seq<(nat, nat)>, m: nat): Option<string>
  {
    if ps == [] then None
    else if ps[|ps| - 1].1 == m then Some(NotifiedTime(subsystem, legacy, ps[|ps| - 1].0))
    else LastPairTime(subsystem, legacy, ps[..|ps| - 1], m)
  }

  /** The last time written to schedule row m is that of the last pair for row m. */
  lemma {:induction false} TimeCellsLast(subsystem: string, legacy: seq<Row>, ps: seq<(nat, nat)>, m: nat)
    ensures LastWrite(TimeCells(subsystem, legacy, ps), TimeColumn, m) == LastPairTime(subsystem, legacy, ps, m)
  {
    if ps != [] {
      var init, p := ps[..|ps| - 1], ps[|ps| - 1];
      TimeCellsLast(subsystem, legacy, init, m);
      assert ps == init + [p];
      TimeCellsConcat(subsystem, legacy, init, [p]);
      var tp := [Cell(TimeColumn, p.1, NotifiedTime(subsystem, legacy, p.0))];
      assert [p][1..] == [];
      assert TimeCells(subsystem, legacy, [p]) == tp;
      assert tp[..0] == [];
      LastWriteConcat(TimeCells(subsystem, legacy, init), tp, TimeColumn, m);
    }
  }

  lemma {:induction false} LastPairTimeConcat(subsystem: string, legacy: seq<Row>, ps: seq<(nat, nat)>, qs: seq<(nat, nat)>, m: nat)
    ensures LastPairTime(subsystem, legacy, ps + qs, m)
            == if LastPairTime(subsystem, legacy, qs, m).Some? then LastPairTime(subsystem, legacy, qs, m)
               else LastPairTime(subsystem, legacy, ps, m)
  {
    if qs == [] {
      assert ps + qs == ps;
    } else {
      var r := ps + qs;
      var init := qs[..|qs| - 1];
      assert r[..|r| - 1] == ps + init;
      assert r[|r| - 1] == qs[|qs| - 1];
      LastPairTimeConcat(subsystem, legacy, ps, init, m);
    }
  }

  lemma {:induction false} RowLastTime(hit: seq<seq<bool>>, subsystem: string, legacy: seq<Row>, n: nat, k: nat, m: nat)
    ensures LastPairTime(subsystem, legacy, RowMatches(hit, n, k), m)
            == if m < k && Hit(hit, n, m) then Some(NotifiedTime(subsystem, legacy, n)) else None
  {
    if k > 0 {
      var ps := RowMatches(hit, n, k - 1);
      RowLastTime(hit, subsystem, legacy, n, k - 1, m);
      if Hit(hit, n, k - 1) {
        var r := ps + [(n, k - 1)];
        assert r[..|r| - 1] == ps;
      } else {
        assert ps + [] == ps;
      }
    }
  }

  lemma {:induction false} UpToLastTime(hit: seq<seq<bool>>, subsystem: string, legacy: seq<Row>, width: nat, n: nat, m: nat)
    requires m < width
    ensures LastPairTime(subsystem, legacy, MatchesUpTo(hit, width, n), m) == LastMatchTime(hit, subsystem, legacy, n, m)
  {
    if n == 0 {
      assert MatchesUpTo(hit, width, n) == [];
    } else {
      var a, b := MatchesUpTo(hit, width, n - 1), RowMatches(hit, n - 1, width);
      assert MatchesUpTo(hit, width, n) == a + b;
      UpToLastTime(hit, subsystem, legacy, width, n - 1, m);
      assert LastPairTime(subsystem, legacy, a, m) == LastMatchTime(hit, subsystem, legacy, n - 1, m);
      RowLastTime(hit, subsystem, legacy, n - 1, width, m);
      assert LastPairTime(subsystem, legacy, b, m)
          == if Hit(hit, n - 1, m) then Some(NotifiedTime(subsystem, legacy, n - 1)) else None;
      LastPairTimeConcat(subsystem, legacy, a, b, m);
    }
  }

  /** Nothing checks whether the time cell is already filled and nothing breaks out of
      the loops, so a schedule row matched by several legacy rows ends up with the time
      of the last of them; a schedule row no legacy row matches gets no time write. */
  lemma SyncLastTimeWins(ratio: (string, string) -> real, subsystem: string, legacy: seq<Row>, sched: seq<Row>, m: nat)
    requires WellFormed(subsystem, legacy, sched) && m < |sched|
    ensures (forall k :: 0 <= k < |legacy| ==> !IsMatch(ratio, legacy, sched, k, m)) ==>
              LastWrite(Sync(ratio, subsystem, legacy, sched).writes, TimeColumn, m) == None
    ensures forall k :: 0 <= k < |legacy| && IsMatch(ratio, legacy, sched, k, m)
                        && (forall j :: k < j < |legacy| ==> !IsMatch(ratio, legacy, sched, j, m)) ==>
              LastWrite(Sync(ratio, subsystem, legacy, sched).writes, TimeColumn, m)
              == Some(Strip(legacy[k][NotifiedColumn(subsystem)]))
  {
    SyncWritesMatches(ratio, subsystem, legacy, sched);
    LastWriteColumn(Sync(ratio, subsystem, legacy, sched).writes, TimeColumn, m);
    var hit := MatchOf(ratio, legacy, sched);
    TimeCellsLast(subsystem, legacy, Matches(ratio, legacy, sched), m);
    UpToLastTime(hit, subsystem, legacy, |sched|, |legacy|, m);
    if forall k :: 0 <= k < |legacy| ==> !IsMatch(ratio, legacy, sched, k, m) {
      LastMatchTimeNone(hit, subsystem, legacy, |legacy|, m);
    }
    forall k | 0 <= k < |legacy| && IsMatch(ratio, legacy, sched, k, m)
               && (forall j :: k < j < |legacy| ==> !IsMatch(ratio, legacy, sched, j, m))
      ensures LastWrite(Sync(ratio, subsystem, legacy, sched).writes, TimeColumn, m)
              == Some(Strip(legacy[k][NotifiedColumn(subsystem)]))
    {
      assert LegacyRowOk(subsystem, legacy[k]);
      LastMatchTimeAt(hit, subsystem, legacy, |legacy|, m, k);
    }
  }
}
