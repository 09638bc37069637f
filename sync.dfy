/** The selection loop of `main`: walk the scraped records in page order,
    convert each date text to Unix seconds, stop at the first record older
    than the newest stored one, and collect one placeholder and three
    arguments per record kept. The SQLite query for the stored maximum and
    the INSERT itself are not part of this model: the maximum is a parameter
    (`None` for SQL NULL, i.e. an empty table) and the INSERT is returned as
    the placeholders and arguments it would be given. */
module Sync {
  import opened Wrappers
  import opened GoStrings
  import opened Sanitizer
  import opened Timestamp
  import opened SpeedControls

  /** One row to insert: district, Unix seconds, location. */
  datatype Row = Row(district: string, createdAt: int, location: string)

  /** An argument passed to `db.Exec`: a string or an `int64`. */
  datatype Arg = Text(s: string) | Int64(n: int)

  /** What a run does: it panics on a date that does not parse, inserts
      nothing, or runs one INSERT with these placeholders and arguments. */
  datatype Outcome = Panic | NoInsert | Insert(valueStrings: seq<string>, valueArgs: seq<Arg>)

  const Placeholder: string := "(?, ?, ?)"

  /** The timestamp the loop computes for a record: its date text with the
      surrounding white space trimmed, then converted. */
  function Stamp(control: SpeedControl): (r: Option<int>)
    ensures r.Some? <==> Parse(TrimSpace(control.createdDatetime)).Some?
    ensures r.Some? ==> MinTimestamp <= r.value <= MaxTimestamp
  {
    CreatedDatetimeToTimestamp(TrimSpace(control.createdDatetime))
  }

  /** A record older than the newest stored one; never so for an empty table. */
  predicate Outdated(createdAt: int, mostRecent: Option<int>) {
    mostRecent.Some? && createdAt < mostRecent.value
  }

  function RowOf(control: SpeedControl, createdAt: int): Row {
    Row(control.district, createdAt, control.location)
  }

  /** `rows` in front of the rows of an outcome; a panic stays a panic. */
  function Prepend(rows: seq<Row>, rest: Option<seq<Row>>): Option<seq<Row>> {
    match rest
    case None => None
    case Some(r) => Some(rows + r)
  }

  /** The selection policy for any conversion `stamp` of records to
      timestamps (`None` standing for a panic): walk the records in order,
      stop with what was collected at the first outdated record, and give
      up at the first record that does not convert. */
  function SelectPrefix(controls: seq<SpeedControl>, stamp: SpeedControl -> Option<int>, mostRecent: Option<int>): (r: Option<seq<Row>>)
    ensures r.Some? ==> |r.value| <= |controls| && forall row :: row in r.value ==> !Outdated(row.createdAt, mostRecent)
  {
    if controls == [] then Some([])
    else match stamp(controls[0])
      case None => None
      case Some(createdAt) =>
        if Outdated(createdAt, mostRecent) then Some([])
        else Prepend([RowOf(controls[0], createdAt)], SelectPrefix(controls[1..], stamp, mostRecent))
  }

  /** The selection from record `i` on, one step unfolded. */
  lemma SelectFrom(controls: seq<SpeedControl>, i: int, stamp: SpeedControl -> Option<int>, mostRecent: Option<int>)
    requires 0 <= i < |controls|
    ensures SelectPrefix(controls[i..], stamp, mostRecent) ==
      match stamp(controls[i])
      case None => None
      case Some(createdAt) =>
        if Outdated(createdAt, mostRecent) then Some([])
        else Prepend([RowOf(controls[i], createdAt)], SelectPrefix(controls[i + 1..], stamp, mostRecent))
  {
    assert controls[i..][0] == controls[i] && controls[i..][1..] == controls[i + 1..];
  }

  /** The record is kept by the loop: its date converts and it is not outdated. */
  predicate Selected(control: SpeedControl, stamp: SpeedControl -> Option<int>, mostRecent: Option<int>) {
    stamp(control).Some? && !Outdated(stamp(control).value, mostRecent)
  }

  /** The selection is the longest prefix of kept records. It succeeds with
      `rows` exactly when `rows` are those records, in order, and the record
      after them, if any, converts and is outdated; it fails exactly when
      some record does not convert and every record before it is kept. */
  lemma {:induction false} SelectPrefixIsLongestPrefix(controls: seq<SpeedControl>, stamp: SpeedControl -> Option<int>, mostRecent: Option<int>)
    ensures match SelectPrefix(controls, stamp, mostRecent)
      case Some(rows) =>
        && |rows| <= |controls|
        && (forall i :: 0 <= i < |rows| ==> Selected(controls[i], stamp, mostRecent) && rows[i] == RowOf(controls[i], stamp(controls[i]).value))
        && (|rows| < |controls| ==> stamp(controls[|rows|]).Some? && Outdated(stamp(controls[|rows|]).value, mostRecent))
      case None =>
        exists k :: 0 <= k < |controls| && stamp(controls[k]).None? && forall i :: 0 <= i < k ==> Selected(controls[i], stamp, mostRecent)
  {
    if controls != [] && Selected(controls[0], stamp, mostRecent) {
      var tail := controls[1..];
      var row := RowOf(controls[0], stamp(controls[0]).value);
      SelectPrefixIsLongestPrefix(tail, stamp, mostRecent);
      match SelectPrefix(tail, stamp, mostRecent)
      case Some(rest) =>
        forall i | 0 < i < |rest| + 1
          ensures Selected(controls[i], stamp, mostRecent) && ([row] + rest)[i] == RowOf(controls[i], stamp(controls[i]).value)
        {
          assert controls[i] == tail[i - 1];
        }
        if |rest| + 1 < |controls| {
          assert controls[|rest| + 1] == tail[|rest|];
        }
      case None =>
        var k :| 0 <= k < |tail| && stamp(tail[k]).None? && forall i :: 0 <= i < k ==> Selected(tail[i], stamp, mostRecent);
        assert controls[k + 1] == tail[k];
        forall i | 0 <= i < k + 1 ensures Selected(controls[i], stamp, mostRecent) {
          if i > 0 { assert controls[i] == tail[i - 1]; }
        }
    }
  }

  /** With an empty table every record is selected, in input order, unless
      one does not convert. */
  lemma EmptyTableSelectsAll(controls: seq<SpeedControl>, stamp: SpeedControl -> Option<int>)
    ensures match SelectPrefix(controls, stamp, None)
      case Some(rows) =>
        |rows| == |controls| && forall i :: 0 <= i < |rows| ==> stamp(controls[i]).Some? && rows[i] == RowOf(controls[i], stamp(controls[i]).value)
      case None => exists k :: 0 <= k < |controls| && stamp(controls[k]).None?
  {
    SelectPrefixIsLongestPrefix(controls, stamp, None);
  }

  /** Records after the first outdated one are never looked at: whatever
      follows it, even a date that would not parse, changes nothing. */
  lemma {:induction false} StopsAtFirstOutdated(controls: seq<SpeedControl>, stamp: SpeedControl -> Option<int>, k: int, mostRecent: Option<int>, later: seq<SpeedControl>)
    requires 0 <= k < |controls|
    requires stamp(controls[k]).Some? && Outdated(stamp(controls[k]).value, mostRecent)
    ensures SelectPrefix(controls[..k + 1] + later, stamp, mostRecent) == SelectPrefix(controls[..k + 1], stamp, mostRecent)
  {
    var front := controls[..k + 1];
    assert (front + later)[0] == front[0] == controls[0];
    if k > 0 {
      StopsAtFirstOutdated(controls[1..], stamp, k - 1, mostRecent, later);
      assert (front + later)[1..] == controls[1..][..k] + later;
      assert front[1..] == controls[1..][..k];
    }
  }

  /** The comparison is strict, so a record whose timestamp equals the stored
      maximum is selected. */
  lemma EqualToStoredIsKept(control: SpeedControl, stamp: SpeedControl -> Option<int>, m: int, rest: seq<SpeedControl>)
    requires stamp(control) == Some(m)
    ensures SelectPrefix([control] + rest, stamp, Some(m)) == Prepend([RowOf(control, m)], SelectPrefix(rest, stamp, Some(m)))
  {
    assert ([control] + rest)[1..] == rest;
  }

  /** Raising the stored maximum can only make the selection stop earlier:
      if it succeeded under `m0`, it succeeds under any `m1` at least as
      large, because every record it now converts was converted before. */
  lemma {:induction false} RaisingMaxKeepsSuccess(controls: seq<SpeedControl>, stamp: SpeedControl -> Option<int>, m0: Option<int>, m1: int)
    requires m0.Some? ==> m0.value <= m1
    requires SelectPrefix(controls, stamp, m0).Some?
    ensures SelectPrefix(controls, stamp, Some(m1)).Some?
  {
    if controls != [] && !Outdated(stamp(controls[0]).value, Some(m1)) {
      RaisingMaxKeepsSuccess(controls[1..], stamp, m0, m1);
    }
  }

  /** A consequence of keeping equal timestamps: right after a run that
      inserted rows, a second run over the same records, with the first
      inserted timestamp now stored as the maximum (as it is when the page
      lists its records newest first), does not panic and selects that first
      record again, so it is inserted twice. */
  lemma {:induction false} RerunSelectsNewestAgain(controls: seq<SpeedControl>, stamp: SpeedControl -> Option<int>, mostRecent: Option<int>)
    requires SelectPrefix(controls, stamp, mostRecent).Some? && SelectPrefix(controls, stamp, mostRecent).value != []
    ensures var newest := SelectPrefix(controls, stamp, mostRecent).value[0];
      && SelectPrefix(controls, stamp, Some(newest.createdAt)).Some?
      && SelectPrefix(controls, stamp, Some(newest.createdAt)).value != []
      && SelectPrefix(controls, stamp, Some(newest.createdAt)).value[0] == newest
  {
    var newest := stamp(controls[0]).value;
    assert SelectPrefix(controls, stamp, mostRecent).value[0] == RowOf(controls[0], newest);
    EqualToStoredIsKept(controls[0], stamp, newest, controls[1..]);
    assert [controls[0]] + controls[1..] == controls;
    RaisingMaxKeepsSuccess(controls[1..], stamp, mostRecent, newest);
  }

  /** Timestamps 500, 400, 300 against a stored 400 select the first two
      records: the record at 400 is kept. */
  lemma SelectionExample(controls: seq<SpeedControl>, stamp: SpeedControl -> Option<int>)
    requires |controls| == 3
    requires stamp(controls[0]) == Some(500) && stamp(controls[1]) == Some(400) && stamp(controls[2]) == Some(300)
    ensures SelectPrefix(controls, stamp, Some(400)) == Some([RowOf(controls[0], 500), RowOf(controls[1], 400)])
  {
    var last := controls[2..];
    assert last[0] == controls[2];
    assert SelectPrefix(last, stamp, Some(400)) == Some([]);
    var tail := controls[1..];
    assert tail[0] == controls[1] && tail[1..] == last;
    assert [RowOf(controls[1], 400)] + [] == [RowOf(controls[1], 400)];
    assert SelectPrefix(tail, stamp, Some(400)) == Some([RowOf(controls[1], 400)]);
    assert controls[0] == controls[0] && controls[1..] == tail;
    assert [RowOf(controls[0], 500)] + [RowOf(controls[1], 400)] == [RowOf(controls[0], 500), RowOf(controls[1], 400)];
  }

  /** Out of order input: 500, 300, 600 against a stored 400 select only the
      first record; the loop stops at 300 and never reaches 600. */
  lemma ShortCircuitExample(controls: seq<SpeedControl>, stamp: SpeedControl -> Option<int>)
    requires |controls| == 3
    requires stamp(controls[0]) == Some(500) && stamp(controls[1]) == Some(300) && stamp(controls[2]) == Some(600)
    ensures SelectPrefix(controls, stamp, Some(400)) == Some([RowOf(controls[0], 500)])
  {
    var tail := controls[1..];
    assert tail[0] == controls[1];
    assert SelectPrefix(tail, stamp, Some(400)) == Some([]);
    assert [RowOf(controls[0], 500)] + [] == [RowOf(controls[0], 500)];
  }

  function RowArgs(row: Row): seq<Arg> {
    [Text(row.district), Int64(row.createdAt), Text(row.location)]
  }

  /** The arguments of the INSERT: three per row, in row order. */
  function Args(rows: seq<Row>): (r: seq<Arg>)
    ensures |r| == 3 * |rows|
    ensures forall i :: 0 <= i < |rows| ==>
      r[3 * i] == Text(rows[i].district) && r[3 * i + 1] == Int64(rows[i].createdAt) && r[3 * i + 2] == Text(rows[i].location)
  {
    if rows == [] then [] else Args(rows[..|rows| - 1]) + RowArgs(rows[|rows| - 1])
  }

  lemma ArgsAppend(rows: seq<Row>, row: Row)
    ensures Args(rows + [row]) == Args(rows) + RowArgs(row)
  {
    assert (rows + [row])[..|rows|] == rows;
  }

  function Placeholders(n: nat): seq<string> {
    seq(n, _ => Placeholder)
  }

  /** The loop invariant of `PlanInsert`: the rows collected from the
      first `i` records, with their placeholders and arguments, followed by
      the selection from record `i` on, make up the whole selection. */
  ghost predicate Collected(controls: seq<SpeedControl>, stamp: SpeedControl -> Option<int>, mostRecent: Option<int>,
                            i: int, rows: seq<Row>, valueStrings: seq<string>, valueArgs: seq<Arg>)
  {
    && 0 <= i <= |controls| && |rows| == i
    && valueStrings == Placeholders(|rows|) && valueArgs == Args(rows)
    && SelectPrefix(controls, stamp, mostRecent) == Prepend(rows, SelectPrefix(controls[i..], stamp, mostRecent))
  }

  lemma CollectedAtStart(controls: seq<SpeedControl>, stamp: SpeedControl -> Option<int>, mostRecent: Option<int>)
    ensures Collected(controls, stamp, mostRecent, 0, [], [], [])
  {
    assert controls[0..] == controls;
    var all := SelectPrefix(controls, stamp, mostRecent);
    if all.Some? {
      assert [] + all.value == all.value;
    }
  }

  /** A kept record adds its row, its placeholder and its three arguments. */
  lemma CollectOne(controls: seq<SpeedControl>, stamp: SpeedControl -> Option<int>, mostRecent: Option<int>,
                   i: int, rows: seq<Row>, valueStrings: seq<string>, valueArgs: seq<Arg>)
    requires Collected(controls, stamp, mostRecent, i, rows, valueStrings, valueArgs)
    requires i < |controls| && Selected(controls[i], stamp, mostRecent)
    ensures var c := controls[i];
      var createdAt := stamp(c).value;
      Collected(controls, stamp, mostRecent, i + 1, rows + [RowOf(c, createdAt)], valueStrings + [Placeholder],
                valueArgs + [Text(c.district), Int64(createdAt), Text(c.location)])
  {
    var row := RowOf(controls[i], stamp(controls[i]).value);
    SelectFrom(controls, i, stamp, mostRecent);
    var rest := SelectPrefix(controls[i + 1..], stamp, mostRecent);
    if rest.Some? {
      assert rows + ([row] + rest.value) == (rows + [row]) + rest.value;
    }
    ArgsAppend(rows, row);
    assert Placeholders(|rows| + 1) == Placeholders(|rows|) + [Placeholder];
  }

  /** At the end of the records, or at an outdated one, the rows collected
      are the whole selection. */
  lemma CollectedAll(controls: seq<SpeedControl>, stamp: SpeedControl -> Option<int>, mostRecent: Option<int>,
                     i: int, rows: seq<Row>, valueStrings: seq<string>, valueArgs: seq<Arg>)
    requires Collected(controls, stamp, mostRecent, i, rows, valueStrings, valueArgs)
    requires i == |controls| || (stamp(controls[i]).Some? && Outdated(stamp(controls[i]).value, mostRecent))
    ensures SelectPrefix(controls, stamp, mostRecent) == Some(rows)
  {
    if i < |controls| {
      SelectFrom(controls, i, stamp, mostRecent);
    } else {
      assert controls[i..] == [];
    }
    assert rows + [] == rows;
  }

  /** A record whose date does not convert makes the whole selection fail. */
  lemma CollectFails(controls: seq<SpeedControl>, stamp: SpeedControl -> Option<int>, mostRecent: Option<int>,
                     i: int, rows: seq<Row>, valueStrings: seq<string>, valueArgs: seq<Arg>)
    requires Collected(controls, stamp, mostRecent, i, rows, valueStrings, valueArgs)
    requires i < |controls| && stamp(controls[i]).None?
    ensures SelectPrefix(controls, stamp, mostRecent).None?
  {
    SelectFrom(controls, i, stamp, mostRecent);
  }

  /** Lines 110-143 of `main` without the database: the loop over the
      scraped records and the decision to run the INSERT. The conversion of
      a record's date text is the parameter `stamp`; the program's own is
      `Stamp`, and `SyncRun` passes it. */
  method PlanInsert(speedControls: seq<SpeedControl>, stamp: SpeedControl -> Option<int>, mostRecent: Option<int>)
    returns (out: Outcome)
    ensures SelectPrefix(speedControls, stamp, mostRecent).None? <==> out == Panic
    ensures SelectPrefix(speedControls, stamp, mostRecent) == Some([]) <==> out == NoInsert
    ensures out.Insert? ==>
      var rows := SelectPrefix(speedControls, stamp, mostRecent).value;
      out.valueStrings == Placeholders(|rows|) && out.valueArgs == Args(rows)
  {
    var emptyTable := mostRecent.None?;
    var valueStrings: seq<string> := [];
    var valueArgs: seq<Arg> := [];
    ghost var rows: seq<Row> := [];
    var i := 0;
    CollectedAtStart(speedControls, stamp, mostRecent);
    while i < |speedControls|
      invariant Collected(speedControls, stamp, mostRecent, i, rows, valueStrings, valueArgs)
    {
      var sc := speedControls[i];
      var createdDatetime := stamp(sc);
      if createdDatetime.None? {
        CollectFails(speedControls, stamp, mostRecent, i, rows, valueStrings, valueArgs);
        return Panic;
      }
      if !emptyTable && createdDatetime.value < mostRecent.value {
        break;
      }
      CollectOne(speedControls, stamp, mostRecent, i, rows, valueStrings, valueArgs);
      valueStrings := valueStrings + [Placeholder];
      valueArgs := valueArgs + [Text(sc.district), Int64(createdDatetime.value), Text(sc.location)];
      rows := rows + [RowOf(sc, createdDatetime.value)];
      i := i + 1;
    }
    CollectedAll(speedControls, stamp, mostRecent, i, rows, valueStrings, valueArgs);
    if |valueStrings| > 0 {
      out := Insert(valueStrings, valueArgs);
    } else {
      out := NoInsert;
    }
  }

  /** Every location that a run would insert is sanitised: the records
      reaching the loop come from `KeepLocated`, and the loop copies their
      locations unchanged. */
  lemma SelectedLocationsClean(panels: seq<SpeedControl>, stamp: SpeedControl -> Option<int>, mostRecent: Option<int>)
    requires SelectPrefix(KeepLocated(panels), stamp, mostRecent).Some?
    ensures forall row :: row in SelectPrefix(KeepLocated(panels), stamp, mostRecent).value ==>
      !HasNotes(row.location) && !Contains(row.location, ApproximateMarker) && !Contains(row.location, EditedMarker)
  {
    var controls := KeepLocated(panels);
    SelectPrefixIsLongestPrefix(controls, stamp, mostRecent);
    KeptLocationsClean(panels);
  }

  /** One run without the I/O: the scraped panels are filtered and
      normalised, then the loop of `main`, converting each date text with
      `Stamp`, decides the INSERT. */
  method SyncRun(panels: seq<SpeedControl>, mostRecent: Option<int>) returns (out: Outcome)
    ensures out == Panic <==> SelectPrefix(KeepLocated(panels), Stamp, mostRecent).None?
    ensures out == NoInsert <==> SelectPrefix(KeepLocated(panels), Stamp, mostRecent) == Some([])
    ensures out.Insert? ==>
      var rows := SelectPrefix(KeepLocated(panels), Stamp, mostRecent).value;
      out.valueStrings == Placeholders(|rows|) && out.valueArgs == Args(rows)
  {
    var speedControls := FetchLastSpeedControls(panels);
    out := PlanInsert(speedControls, Stamp, mostRecent);
  }
}
