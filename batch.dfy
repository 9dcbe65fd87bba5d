/**
 * The rows of the file table and the two batch operations over them (main.py:281-331): loading
 * files, analysing every row with the match decision and the rename pattern, and renaming the
 * analysed rows. The table is a class whose rows the operations update in place; the outcome of
 * each `os.rename` is an input.
 */
module Batch {
  import opened Wrappers
  import opened Text
  import Paths
  import Matcher
  import RenamePattern

  /**
   * A table row: the full path kept with column 0, the file name shown in it, the show, the
   * "S{s}E{e}" cell, the preview of the new name and the status. Cells 1-3 are absent until the
   * row is analysed.
   */
  datatype Row = Row(path: string, name: string, show: Option<string>, seasonEpisode: Option<string>,
                     preview: Option<string>, status: string)

  const ReadyStatus := "Ready"
  /** The status literal of main.py:312 as the file stores it: "Matched " and a mis-encoded check mark. */
  const MatchedStatus := "Matched \U{201a}\U{fa}\U{d6}"
  const MatchedMarker := "Matched"
  const RenamedStatus := "Renamed!"
  const ErrorStatus := "Error"

  /** The row `add_rows` inserts for a found file. */
  function NewRow(f: string): Row {
    Row(f, Paths.Basename(f), None, None, None, ReadyStatus)
  }

  /** `f"S{s}E{e}"`, without padding. */
  function SeasonEpisodeCell(s: int, e: int): string {
    "S" + IntToString(s) + "E" + IntToString(e)
  }

  /** One iteration of `process_matches`: the match of the row's file name, shown in cells 1-4. */
  function AnalysedRow(row: Row, pattern: string, e: Matcher.Engine): Row {
    var filename := Paths.Basename(row.path);
    var m := Matcher.Resolve(e, filename).result;
    row.(show := Some(m.show),
         seasonEpisode := Some(SeasonEpisodeCell(m.season, m.episode)),
         preview := Some(RenamePattern.Render(pattern, m.show, m.season, m.episode, m.title, Paths.Ext(filename))),
         status := MatchedStatus)
  }

  /** `new_name and "Matched" in status`, reading a missing preview as empty. */
  predicate Eligible(row: Row) {
    row.preview.Some? && row.preview.value != "" && Contains(row.status, MatchedMarker)
  }

  /** `os.path.join(os.path.dirname(old_path), new_name)` */
  function RenameTarget(row: Row): string
    requires row.preview.Some?
  {
    Paths.Join(Paths.Dirname(row.path), row.preview.value)
  }

  /** One iteration of `execute_rename`: an eligible row becomes "Renamed!" or "Error". */
  function AfterRename(row: Row, ok: bool): Row {
    if Eligible(row) then row.(status := if ok then RenamedStatus else ErrorStatus) else row
  }

  /** The renames `execute_rename` attempts, in row order. */
  function Attempts(rows: seq<Row>): seq<(string, string)>
    decreases |rows|
  {
    if |rows| == 0 then []
    else
      var last := rows[|rows| - 1];
      Attempts(rows[..|rows| - 1]) + (if Eligible(last) then [(last.path, RenameTarget(last))] else [])
  }

  /** The number of eligible rows. */
  function EligibleCount(rows: seq<Row>): nat
    decreases |rows|
  {
    if |rows| == 0 then 0 else EligibleCount(rows[..|rows| - 1]) + (if Eligible(rows[|rows| - 1]) then 1 else 0)
  }

  /** `success_count`: the eligible rows whose rename succeeded. */
  function Successes(rows: seq<Row>, outcomes: seq<bool>): nat
    requires |outcomes| == |rows|
    decreases |rows|
  {
    if |rows| == 0 then 0
    else
      var n := |rows| - 1;
      Successes(rows[..n], outcomes[..n]) + (if Eligible(rows[n]) && outcomes[n] then 1 else 0)
  }

  // ---------------------------------------------------------------------------------------------
  // The table

  class RenameTable {
    var rows: seq<Row>

    constructor()
      ensures rows == []
    {
      rows := [];
    }

    /** `add_rows`: one "Ready" row per file, appended in order. */
    method AddRows(files: seq<string>)
      modifies this
      ensures |rows| == |old(rows)| + |files|
      ensures rows[..|old(rows)|] == old(rows)
      ensures forall k :: 0 <= k < |files| ==> rows[|old(rows)| + k] == NewRow(files[k])
    {
      ghost var before := rows;
      for k := 0 to |files|
        invariant |rows| == |before| + k
        invariant rows[..|before|] == before
        invariant forall j :: 0 <= j < k ==> rows[|before| + j] == NewRow(files[j])
      {
        rows := rows + [Row(files[k], Paths.Basename(files[k]), None, None, None, ReadyStatus)];
      }
    }

    /** `process_matches`: every row analysed in place with `get_match` and the pattern. */
    method ProcessMatches(pattern: string, e: Matcher.Engine)
      modifies this
      ensures |rows| == |old(rows)|
      ensures forall i :: 0 <= i < |rows| ==> rows[i] == AnalysedRow(old(rows)[i], pattern, e)
    {
      var count := |rows|;
      if count == 0 {
        return;
      }
      ghost var before := rows;
      for i := 0 to count
        invariant |rows| == count
        invariant forall j :: 0 <= j < i ==> rows[j] == AnalysedRow(before[j], pattern, e)
        invariant forall j :: i <= j < count ==> rows[j] == before[j]
      {
        var fullPath := rows[i].path;
        var filename := Paths.Basename(fullPath);
        var ext := Paths.Ext(filename);
        var m, _ := Matcher.GetMatch(e, filename);
        var newName := RenamePattern.Render(pattern, m.show, m.season, m.episode, m.title, ext);
        rows := rows[i := rows[i].(show := Some(m.show),
                                   seasonEpisode := Some(SeasonEpisodeCell(m.season, m.episode)),
                                   preview := Some(newName),
                                   status := MatchedStatus)];
      }
    }

    /**
     * `execute_rename`, reading a missing preview as empty: every eligible row is renamed, with
     * `outcomes[i]` telling whether its `os.rename` succeeded; a failure marks only that row.
     */
    method ExecuteRename(outcomes: seq<bool>) returns (successCount: nat, ghost renames: seq<(string, string)>)
      requires |outcomes| == |rows|
      modifies this
      ensures |rows| == |old(rows)|
      ensures forall i :: 0 <= i < |rows| ==> rows[i] == AfterRename(old(rows)[i], outcomes[i])
      ensures successCount == Successes(old(rows), outcomes)
      ensures renames == Attempts(old(rows))
    {
      ghost var before := rows;
      successCount := 0;
      renames := [];
      for i := 0 to |rows|
        invariant |rows| == |before|
        invariant forall j :: 0 <= j < i ==> rows[j] == AfterRename(before[j], outcomes[j])
        invariant forall j :: i <= j < |rows| ==> rows[j] == before[j]
        invariant successCount == Successes(before[..i], outcomes[..i])
        invariant renames == Attempts(before[..i])
      {
        PrefixStep(before, outcomes, i);
        var succeeded, attempt := RenameRow(i, outcomes[i]);
        renames := renames + attempt;
        if succeeded {
          successCount := successCount + 1;
        }
      }
      assert before[..|before|] == before && outcomes[..|before|] == outcomes;
    }

    /**
     * One pass of the loop body: an eligible row is renamed to its target and marked "Renamed!",
     * or "Error" when `os.rename` fails (`ok` false); any other row is left alone.
     */
    method RenameRow(i: nat, ok: bool) returns (succeeded: bool, ghost attempt: seq<(string, string)>)
      requires i < |rows|
      modifies this
      ensures rows == old(rows)[i := AfterRename(old(rows)[i], ok)]
      ensures succeeded == (Eligible(old(rows)[i]) && ok)
      ensures attempt == if Eligible(old(rows)[i]) then [(old(rows)[i].path, RenameTarget(old(rows)[i]))] else []
    {
      var row := rows[i];
      var newName := if row.preview.Some? then row.preview.value else "";
      succeeded := false;
      attempt := [];
      assert Eligible(row) <==> newName != "" && Contains(row.status, MatchedMarker);
      if newName != "" && Contains(row.status, MatchedMarker) {
        var newPath := RenameTarget(row);
        attempt := [(row.path, newPath)];
        if ok {
          rows := rows[i := row.(status := RenamedStatus)];
          succeeded := true;
        } else {
          rows := rows[i := row.(status := ErrorStatus)];
        }
      }
    }
  }

  // ---------------------------------------------------------------------------------------------
  // Properties of the bookkeeping

  /** The counts over one more row. */
  lemma PrefixStep(rows: seq<Row>, outcomes: seq<bool>, i: nat)
    requires |outcomes| == |rows| && i < |rows|
    ensures Successes(rows[..i + 1], outcomes[..i + 1])
            == Successes(rows[..i], outcomes[..i]) + (if Eligible(rows[i]) && outcomes[i] then 1 else 0)
    ensures Attempts(rows[..i + 1])
            == Attempts(rows[..i]) + (if Eligible(rows[i]) then [(rows[i].path, RenameTarget(rows[i]))] else [])
  {
    assert rows[..i + 1][..i] == rows[..i] && outcomes[..i + 1][..i] == outcomes[..i];
  }

  lemma {:induction false} SuccessesBounded(rows: seq<Row>, outcomes: seq<bool>)
    requires |outcomes| == |rows|
    ensures Successes(rows, outcomes) <= EligibleCount(rows) <= |rows|
    ensures Successes(rows, outcomes) == EligibleCount(rows) <==>
            forall i :: 0 <= i < |rows| && Eligible(rows[i]) ==> outcomes[i]
    decreases |rows|
  {
    if |rows| > 0 {
      var n := |rows| - 1;
      SuccessesBounded(rows[..n], outcomes[..n]);
      assert forall i :: 0 <= i < n ==> rows[..n][i] == rows[i] && outcomes[..n][i] == outcomes[i];
    }
  }

  /** "Renamed!" and "Error" do not contain "Matched". */
  lemma FinalStatusesSettle()
    ensures !Contains(RenamedStatus, MatchedMarker) && !Contains(ErrorStatus, MatchedMarker)
  {
    assert !OccursAt(RenamedStatus, MatchedMarker, 0) by { assert RenamedStatus[0] != MatchedMarker[0]; }
    assert !OccursAt(RenamedStatus, MatchedMarker, 1) by { assert RenamedStatus[1] != MatchedMarker[0]; }
  }

  /** A row that was tried is never tried again: a second `execute_rename` renames nothing. */
  lemma RenameSettles(rows: seq<Row>, outcomes: seq<bool>, again: seq<bool>)
    requires |outcomes| == |rows| && |again| == |rows|
    ensures var after := seq(|rows|, i requires 0 <= i < |rows| => AfterRename(rows[i], outcomes[i]));
      Attempts(after) == [] && EligibleCount(after) == 0 && Successes(after, again) == 0
  {
    FinalStatusesSettle();
    var after := seq(|rows|, i requires 0 <= i < |rows| => AfterRename(rows[i], outcomes[i]));
    NothingEligible(after);
    SuccessesBounded(after, again);
  }

  /** When no row is eligible nothing is attempted and nothing counted. */
  lemma {:induction false} NothingEligible(rows: seq<Row>)
    requires forall i :: 0 <= i < |rows| ==> !Eligible(rows[i])
    ensures Attempts(rows) == [] && EligibleCount(rows) == 0
    decreases |rows|
  {
    if |rows| > 0 {
      NothingEligible(rows[..|rows| - 1]);
    }
  }

  /** The analysed status carries "Matched". */
  lemma MatchedStatusMatches()
    ensures Contains(MatchedStatus, MatchedMarker)
  {
    assert OccursAt(MatchedStatus, MatchedMarker, 0);
  }

  /**
   * Every analysed row is marked matched, whatever `get_match` returned, so it is renamed exactly
   * when its new name is not empty, which it never is for a file with an extension.
   */
  lemma AnalysedRowEligible(row: Row, pattern: string, e: Matcher.Engine)
    ensures var a := AnalysedRow(row, pattern, e);
      && a.path == row.path && a.name == row.name && a.preview.Some?
      && Contains(a.status, MatchedMarker)
      && (Eligible(a) <==> a.preview.value != "")
      && (Paths.Ext(Paths.Basename(row.path)) != "" ==> Eligible(a))
  {
    MatchedStatusMatches();
  }

  /**
   * Without an API key a row is still marked matched and renamed, to the pattern filled with the
   * guess and the title "Set API Key".
   */
  lemma NoKeyRowRenamed(row: Row, pattern: string, e: Matcher.Engine)
    requires e.apiKey == ""
    ensures var filename := Paths.Basename(row.path);
      var g := e.guessit(filename);
      var a := AnalysedRow(row, pattern, e);
      && a.preview == Some(RenamePattern.Render(pattern, Matcher.RawTitle(g), Matcher.TargetSeason(g),
                                                Matcher.TargetEpisode(g), Matcher.NoKeyStatus, Paths.Ext(filename)))
      && Contains(a.status, MatchedMarker)
  {
    MatchedStatusMatches();
  }

  // ---------------------------------------------------------------------------------------------
  // `execute_rename` as written

  /** How the loop of `execute_rename` ends: after the last row, or by an exception at row `at`. */
  datatype RunResult = Completed(rows: seq<Row>, count: nat) | Aborted(at: nat, rows: seq<Row>, count: nat)

  /**
   * The loop of main.py:320-330 as written, from row `i` with `count` successes so far: the preview
   * cell is read before the guard and outside the `try`, so a row that was never analysed (no
   * item in column 3) raises there and ends the whole call.
   */
  function RunAsWritten(rows: seq<Row>, outcomes: seq<bool>, i: nat, count: nat): (r: RunResult)
    requires |outcomes| == |rows| && i <= |rows|
    ensures |r.rows| == |rows|
    decreases |rows| - i
  {
    if i == |rows| then Completed(rows, count)
    else if rows[i].preview.None? then Aborted(i, rows, count)
    else
      var newName := rows[i].preview.value;
      if newName != "" && Contains(rows[i].status, MatchedMarker) then
        if outcomes[i] then RunAsWritten(rows[i := rows[i].(status := RenamedStatus)], outcomes, i + 1, count + 1)
        else RunAsWritten(rows[i := rows[i].(status := ErrorStatus)], outcomes, i + 1, count)
      else RunAsWritten(rows, outcomes, i + 1, count)
  }

  /**
   * A row without a preview (one that `AddRows` just loaded) ahead of an analysed one: as written
   * the call ends at the first row, the analysed row is never renamed and nothing is counted;
   * reading the missing preview as empty skips the first row and renames the second. The window
   * appends new rows after analysed ones, so it never builds this order itself; the orders it does
   * build are those of `AddedAfterAnalysisAborts`.
   */
  lemma UnanalysedRowAborts(loaded: Row, analysed: Row)
    requires loaded.preview.None? && Eligible(analysed)
    ensures RunAsWritten([loaded, analysed], [true, true], 0, 0) == Aborted(0, [loaded, analysed], 0)
    ensures var rows := [loaded, analysed];
      && Successes(rows, [true, true]) == 1
      && AfterRename(rows[0], true) == rows[0]
      && AfterRename(rows[1], true).status == RenamedStatus
  {
    var rows := [loaded, analysed];
    var outcomes := [true, true];
    assert Successes([loaded], [true]) == 0 by {
      assert [loaded][..0] == [] && [true][..0] == [];
    }
    assert Successes(rows, outcomes) == Successes([loaded], [true]) + 1 by {
      assert rows[..1] == [loaded] && outcomes[..1] == [true];
    }
  }

  /** Every row after `AfterRename`. */
  function RenamedRows(rows: seq<Row>, outcomes: seq<bool>): (r: seq<Row>)
    requires |outcomes| == |rows|
    ensures |r| == |rows| && forall j :: 0 <= j < |rows| ==> r[j] == AfterRename(rows[j], outcomes[j])
  {
    seq(|rows|, j requires 0 <= j < |rows| => AfterRename(rows[j], outcomes[j]))
  }

  /** The loop as written from row `i`, where rows before `i` are done and the rest untouched. */
  lemma {:induction false} RunAsWrittenFrom(orig: seq<Row>, rows: seq<Row>, outcomes: seq<bool>, i: nat, count: nat)
    requires |orig| == |rows| == |outcomes| && i <= |rows|
    requires forall j :: 0 <= j < |orig| ==> orig[j].preview.Some?
    requires forall j :: 0 <= j < i ==> rows[j] == AfterRename(orig[j], outcomes[j])
    requires forall j :: i <= j < |rows| ==> rows[j] == orig[j]
    requires count == Successes(orig[..i], outcomes[..i])
    ensures RunAsWritten(rows, outcomes, i, count) == Completed(RenamedRows(orig, outcomes), Successes(orig, outcomes))
    decreases |rows| - i
  {
    if i == |rows| {
      assert orig[..i] == orig && outcomes[..i] == outcomes;
      assert rows == RenamedRows(orig, outcomes);
    } else {
      PrefixStep(orig, outcomes, i);
      var row := rows[i];
      var next := rows[i := AfterRename(row, outcomes[i])];
      var c := count + (if Eligible(row) && outcomes[i] then 1 else 0);
      assert RunAsWritten(rows, outcomes, i, count) == RunAsWritten(next, outcomes, i + 1, c) by {
        if !Eligible(row) {
          assert next == rows;
        }
      }
      RunAsWrittenFrom(orig, next, outcomes, i + 1, c);
    }
  }

  /** Rows whose rename is never attempted add nothing to the count. */
  lemma {:induction false} SuccessesIneligibleTail(rows: seq<Row>, outcomes: seq<bool>, m: nat)
    requires |outcomes| == |rows| && m <= |rows|
    requires forall j :: m <= j < |rows| ==> !Eligible(rows[j])
    ensures Successes(rows, outcomes) == Successes(rows[..m], outcomes[..m])
    decreases |rows|
  {
    if |rows| == m {
      assert rows[..m] == rows && outcomes[..m] == outcomes;
    } else {
      var n := |rows| - 1;
      SuccessesIneligibleTail(rows[..n], outcomes[..n], m);
      assert rows[..n][..m] == rows[..m] && outcomes[..n][..m] == outcomes[..m];
    }
  }

  /** Rows whose rename is never attempted come out as they went in. */
  lemma RenamedRowsIneligibleTail(rows: seq<Row>, outcomes: seq<bool>, m: nat)
    requires |outcomes| == |rows| && m <= |rows|
    requires forall j :: m <= j < |rows| ==> !Eligible(rows[j])
    ensures RenamedRows(rows, outcomes) == RenamedRows(rows[..m], outcomes[..m]) + rows[m..]
  {
    var r := RenamedRows(rows[..m], outcomes[..m]) + rows[m..];
    forall j | 0 <= j < |rows| ensures r[j] == AfterRename(rows[j], outcomes[j]) {
      if j < m {
        assert rows[..m][j] == rows[j] && outcomes[..m][j] == outcomes[j];
      }
    }
  }

  /**
   * The loop as written from row `i`, when row `n` is the first one without a preview: the rows
   * before `n` are renamed as the corrected loop renames them, and then the call raises at `n`.
   */
  lemma {:induction false} RunAsWrittenUntil(orig: seq<Row>, rows: seq<Row>, outcomes: seq<bool>, i: nat, count: nat, n: nat)
    requires |orig| == |rows| == |outcomes| && i <= n < |rows|
    requires forall j :: 0 <= j < n ==> orig[j].preview.Some?
    requires orig[n].preview.None?
    requires forall j :: 0 <= j < i ==> rows[j] == AfterRename(orig[j], outcomes[j])
    requires forall j :: i <= j < |rows| ==> rows[j] == orig[j]
    requires count == Successes(orig[..i], outcomes[..i])
    ensures RunAsWritten(rows, outcomes, i, count)
            == Aborted(n, RenamedRows(orig[..n], outcomes[..n]) + orig[n..], Successes(orig[..n], outcomes[..n]))
    decreases n - i
  {
    if i == n {
      assert rows == RenamedRows(orig[..n], outcomes[..n]) + orig[n..];
    } else {
      PrefixStep(orig, outcomes, i);
      var row := rows[i];
      var next := rows[i := AfterRename(row, outcomes[i])];
      var c := count + (if Eligible(row) && outcomes[i] then 1 else 0);
      assert RunAsWritten(rows, outcomes, i, count) == RunAsWritten(next, outcomes, i + 1, c) by {
        if !Eligible(row) {
          assert next == rows;
        }
      }
      RunAsWrittenUntil(orig, next, outcomes, i + 1, c, n);
    }
  }

  /**
   * When the rows from `n` on were never analysed, the loop as written makes exactly the renames
   * and the count of the corrected loop, and then raises at row `n` instead of returning.
   */
  lemma UnanalysedTailAborts(rows: seq<Row>, outcomes: seq<bool>, n: nat)
    requires |outcomes| == |rows| && n < |rows|
    requires forall j :: 0 <= j < n ==> rows[j].preview.Some?
    requires forall j :: n <= j < |rows| ==> rows[j].preview.None?
    ensures RunAsWritten(rows, outcomes, 0, 0) == Aborted(n, RenamedRows(rows, outcomes), Successes(rows, outcomes))
  {
    assert rows[..0] == [] && outcomes[..0] == [];
    RunAsWrittenUntil(rows, rows, outcomes, 0, 0, n);
    RenamedRowsIneligibleTail(rows, outcomes, n);
    SuccessesIneligibleTail(rows, outcomes, n);
  }

  /**
   * The order the window produces: `done` was analysed, then "Add Files/Folders" appended `added`,
   * and "EXECUTE RENAME" was pressed (with `done` empty, a rename before any analysis). The call
   * renames the analysed rows and then raises at the first added row, so the summary message is
   * never shown.
   */
  lemma AddedAfterAnalysisAborts(done: seq<Row>, added: seq<Row>, outcomes: seq<bool>)
    requires |outcomes| == |done| + |added| && |added| > 0
    requires forall j :: 0 <= j < |done| ==> done[j].preview.Some?
    requires forall j :: 0 <= j < |added| ==> added[j].preview.None?
    ensures RunAsWritten(done + added, outcomes, 0, 0)
            == Aborted(|done|, RenamedRows(done + added, outcomes), Successes(done + added, outcomes))
  {
    var rows := done + added;
    assert forall j :: 0 <= j < |done| ==> rows[j] == done[j];
    assert forall j :: |done| <= j < |rows| ==> rows[j] == added[j - |done|];
    UnanalysedTailAborts(rows, outcomes, |done|);
  }

  /**
   * Once every row has been analysed the loop as written never raises, and it does what the
   * corrected `RenameTable.ExecuteRename` does.
   */
  lemma AnalysedTableRunsToEnd(rows: seq<Row>, outcomes: seq<bool>)
    requires |outcomes| == |rows|
    requires forall j :: 0 <= j < |rows| ==> rows[j].preview.Some?
    ensures RunAsWritten(rows, outcomes, 0, 0) == Completed(RenamedRows(rows, outcomes), Successes(rows, outcomes))
  {
    assert rows[..0] == [] && outcomes[..0] == [];
    RunAsWrittenFrom(rows, rows, outcomes, 0, 0);
  }
}
