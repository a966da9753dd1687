/** The first stage of DataConvert: every snapshot file, in order, has its rows after the header
    appended to the intermediate file of the course in column 2, each row tagged with the
    snapshot's time in milliseconds as an extra last column. The intermediates directory is a
    map from course code to the rows of `intermediates/<code>.csv`. */
module Pivot {
  import opened JavaText
  import opened CourseData
  import opened SnapshotOrder

  /** One snapshot file: its name (the timestamp is read from it) and its rows, header first. */
  datatype Snapshot = Snapshot(name: string, rows: seq<Row>)

  /** The intermediates directory: course code to the rows of that course's file. */
  type Directory = map<string, seq<Row>>

  /** The column holding the course code. */
  const CodeColumn: nat := 2

  /** The rows of a course's file; a file that does not exist has none. */
  function Lookup(files: Directory, code: string): seq<Row> {
    if code in files then files[code] else []
  }

  /** `Arrays.copyOf(nextLine, nextLine.length + 1)` with the new last cell set to the time. */
  function Tag(row: Row, stamp: string): (r: Row)
    ensures |r| == |row| + 1 && r[..|row|] == row && r[|row|] == stamp
  {
    seq(|row| + 1, i requires 0 <= i <= |row| => if i < |row| then row[i] else stamp)
  }

  /** The rows the `isFirstLine` flag lets through: all but the first. */
  function Body(rows: seq<Row>): (r: seq<Row>)
    ensures |r| == if |rows| == 0 then 0 else |rows| - 1
    ensures forall i :: 0 <= i < |r| ==> r[i] == rows[i + 1]
  {
    if |rows| == 0 then [] else rows[1..]
  }

  /** Every row has a course-code column (a shorter row makes `nextLine[2]` throw). */
  predicate HasCode(rows: seq<Row>) {
    forall i :: 0 <= i < |rows| ==> |rows[i]| > CodeColumn
  }

  // ---------------------------------------------------------------------------
  // Specification of the pivot, one row at a time
  // ---------------------------------------------------------------------------

  /** One pass of the inner loop: the tagged row goes to the end of its course's file, which is
      created if it did not exist; no other file changes. */
  function AddRow(files: Directory, row: Row, stamp: string): (r: Directory)
    requires |row| > CodeColumn
    ensures r.Keys == files.Keys + {row[CodeColumn]}
    ensures Lookup(r, row[CodeColumn]) == Lookup(files, row[CodeColumn]) + [Tag(row, stamp)]
    ensures forall c :: c != row[CodeColumn] ==> Lookup(r, c) == Lookup(files, c)
  {
    files[row[CodeColumn] := Lookup(files, row[CodeColumn]) + [Tag(row, stamp)]]
  }

  /** The rows of one snapshot body added in file order. */
  function AddRows(files: Directory, rows: seq<Row>, stamp: string): (r: Directory)
    requires HasCode(rows)
    ensures files.Keys <= r.Keys
    ensures forall i :: 0 <= i < |rows| ==> rows[i][CodeColumn] in r
  {
    if |rows| == 0 then files
    else AddRow(AddRows(files, rows[..|rows| - 1], stamp), rows[|rows| - 1], stamp)
  }

  /** The rows of `rows` whose code is `code`, tagged, in their order. */
  function CodeRows(rows: seq<Row>, code: string, stamp: string): seq<Row>
    requires HasCode(rows)
  {
    if |rows| == 0 then []
    else
      var last := rows[|rows| - 1];
      CodeRows(rows[..|rows| - 1], code, stamp) + (if last[CodeColumn] == code then [Tag(last, stamp)] else [])
  }

  /** A course's rows of a body are the tagged body rows with that code, and no others. */
  lemma {:induction false} CodeRowsMembers(rows: seq<Row>, code: string, stamp: string)
    requires HasCode(rows)
    ensures forall r :: r in CodeRows(rows, code, stamp) <==>
      exists i :: 0 <= i < |rows| && rows[i][CodeColumn] == code && r == Tag(rows[i], stamp)
  {
    if |rows| > 0 {
      var front, last := rows[..|rows| - 1], rows[|rows| - 1];
      CodeRowsMembers(front, code, stamp);
      assert forall i :: 0 <= i < |front| ==> front[i] == rows[i];
    }
  }

  /** After one snapshot body, a course's file is what it was followed by that course's rows of
      the body, in order; so every row lands once, in its own course and nowhere else. */
  lemma {:induction false} AddRowsAt(files: Directory, rows: seq<Row>, stamp: string, code: string)
    requires HasCode(rows)
    ensures Lookup(AddRows(files, rows, stamp), code) == Lookup(files, code) + CodeRows(rows, code, stamp)
  {
    if |rows| > 0 {
      AddRowsAt(files, rows[..|rows| - 1], stamp, code);
    }
  }

  /** A file exists after one snapshot body exactly when it existed or the body has a row for it. */
  lemma {:induction false} AddRowsKeys(files: Directory, rows: seq<Row>, stamp: string, code: string)
    requires HasCode(rows)
    ensures code in AddRows(files, rows, stamp) <==> code in files || CodeRows(rows, code, stamp) != []
  {
    if |rows| > 0 {
      AddRowsKeys(files, rows[..|rows| - 1], stamp, code);
    }
  }

  /** Reading one more row of a snapshot adds it at the end of the body. */
  lemma BodySnoc(rows: seq<Row>, i: nat)
    requires 2 <= i <= |rows|
    ensures Body(rows[..i]) == Body(rows[..i - 1]) + [rows[i - 1]]
    ensures Body(rows[..i])[..i - 2] == Body(rows[..i - 1])
    ensures Body(rows)[i - 2] == rows[i - 1]
  {
    assert rows[..i][1..] == rows[..i - 1][1..] + [rows[i - 1]];
  }

  /** A row after the header that lacks a code column, or comes with no calendar, spoils the
      snapshot. */
  lemma RowUnfit(rows: seq<Row>, i: nat, time: NameParse)
    requires 2 <= i <= |rows| && (|rows[i - 1]| <= CodeColumn || !time.Stamp?)
    ensures !RowsFit(Body(rows), time)
  {
    assert Body(rows)[i - 2] == rows[i - 1];
  }

  lemma RowFits(rows: seq<Row>, i: nat, time: NameParse)
    requires 2 <= i <= |rows| && RowsFit(Body(rows[..i - 1]), time)
    requires |rows[i - 1]| > CodeColumn && time.Stamp?
    ensures RowsFit(Body(rows[..i]), time)
  {
    BodySnoc(rows, i);
  }

  // ---------------------------------------------------------------------------
  // Specification of the pivot over all snapshots
  // ---------------------------------------------------------------------------

  /** The rows of a snapshot body can be pivoted without an exception: each has a code column
      (a shorter row makes `nextLine[2]` throw) and, if there is any row at all, the name gave a
      calendar (a null one makes line 71 throw; without rows it is never used). */
  predicate RowsFit(rows: seq<Row>, time: NameParse) {
    HasCode(rows) && (|rows| > 0 ==> time.Stamp?)
  }

  /** A snapshot the pivot gets through: its name's numbers fit an `int` (otherwise line 58
      throws) and its body fits. */
  predicate Processable(s: Snapshot) {
    var time := ParseTimestampInFileName(s.name);
    !time.NumberFormatError? && RowsFit(Body(s.rows), time)
  }

  predicate AllProcessable(snaps: seq<Snapshot>) {
    forall i :: 0 <= i < |snaps| ==> Processable(snaps[i])
  }

  lemma FrontProcessable(snaps: seq<Snapshot>)
    requires AllProcessable(snaps) && |snaps| > 0
    ensures AllProcessable(snaps[..|snaps| - 1]) && Processable(snaps[|snaps| - 1])
    ensures HasCode(Body(snaps[|snaps| - 1].rows))
  {
  }

  /** Every snapshot body has a code column in every row. */
  predicate AllHaveCode(snaps: seq<Snapshot>) {
    forall i :: 0 <= i < |snaps| ==> HasCode(Body(snaps[i].rows))
  }

  lemma FrontHaveCode(snaps: seq<Snapshot>)
    requires AllHaveCode(snaps) && |snaps| > 0
    ensures AllHaveCode(snaps[..|snaps| - 1]) && HasCode(Body(snaps[|snaps| - 1].rows))
  {
  }

  lemma ProcessableHaveCode(snaps: seq<Snapshot>)
    requires AllProcessable(snaps)
    ensures AllHaveCode(snaps)
  {
  }

  lemma ProcessableSnoc(snaps: seq<Snapshot>, k: nat)
    requires k < |snaps| && AllProcessable(snaps[..k]) && Processable(snaps[k])
    ensures AllProcessable(snaps[..k + 1]) && snaps[..k + 1][..k] == snaps[..k]
  {
    var next := snaps[..k + 1];
    forall i | 0 <= i < |next|
      ensures Processable(next[i])
    {
      if i < k {
        assert next[i] == snaps[..k][i];
      }
    }
  }

  /** The snapshot's time in milliseconds, `currentFileTime.getTimeInMillis()`. */
  function StampOf(millis: DateFields -> Long, s: Snapshot): Long
    requires ParseTimestampInFileName(s.name).Stamp?
  {
    millis(ParseTimestampInFileName(s.name).fields)
  }

  /** The text written in the extra column, `Long.toString` of the time; a name without a
      timestamp has no text, and no row of such a snapshot is ever written. */
  function StampText(millis: DateFields -> Long, time: NameParse): string {
    if time.Stamp? then IntToString(millis(time.fields)) else ""
  }

  /** The stamp every row of snapshot `s` is tagged with. */
  function SnapshotStamp(millis: DateFields -> Long, s: Snapshot): string {
    StampText(millis, ParseTimestampInFileName(s.name))
  }

  /** The directory after processing the snapshots in the given order. */
  function PivotAll(files: Directory, snaps: seq<Snapshot>, millis: DateFields -> Long): (r: Directory)
    requires AllHaveCode(snaps)
    ensures files.Keys <= r.Keys
    ensures forall i, j :: 0 <= i < |snaps| && 0 <= j < |Body(snaps[i].rows)| ==> Body(snaps[i].rows)[j][CodeColumn] in r
  {
    if |snaps| == 0 then files
    else
      var last := snaps[|snaps| - 1];
      AddRows(PivotAll(files, snaps[..|snaps| - 1], millis), Body(last.rows), SnapshotStamp(millis, last))
  }

  /** A course's rows over all snapshots: each snapshot's rows for it, snapshot after snapshot. */
  function CourseRows(snaps: seq<Snapshot>, code: string, millis: DateFields -> Long): seq<Row>
    requires AllHaveCode(snaps)
  {
    if |snaps| == 0 then []
    else
      var last := snaps[|snaps| - 1];
      CourseRows(snaps[..|snaps| - 1], code, millis) + CodeRows(Body(last.rows), code, SnapshotStamp(millis, last))
  }

  lemma AppendAssoc<T>(a: seq<T>, b: seq<T>, c: seq<T>)
    ensures (a + b) + c == a + (b + c)
  {
  }

  /** Each course's file is the in-order concatenation of its rows over the snapshots. */
  lemma {:induction false} PivotAllAt(files: Directory, snaps: seq<Snapshot>, millis: DateFields -> Long, code: string)
    requires AllHaveCode(snaps)
    ensures Lookup(PivotAll(files, snaps, millis), code) == Lookup(files, code) + CourseRows(snaps, code, millis)
  {
    if |snaps| > 0 {
      var front, last := snaps[..|snaps| - 1], snaps[|snaps| - 1];
      FrontHaveCode(snaps);
      var stamp := SnapshotStamp(millis, last);
      var before := PivotAll(files, front, millis);
      var added := CodeRows(Body(last.rows), code, stamp);
      var earlier := CourseRows(front, code, millis);
      assert PivotAll(files, snaps, millis) == AddRows(before, Body(last.rows), stamp);
      assert CourseRows(snaps, code, millis) == earlier + added;
      AddRowsAt(before, Body(last.rows), stamp, code);
      PivotAllAt(files, front, millis, code);
      AppendAssoc(Lookup(files, code), earlier, added);
    }
  }

  /** Starting from an empty directory, a course has a file exactly when some snapshot has a row
      for it, and then the file is not empty. */
  lemma {:induction false} PivotAllKeys(files: Directory, snaps: seq<Snapshot>, millis: DateFields -> Long, code: string)
    requires AllHaveCode(snaps)
    ensures code in PivotAll(files, snaps, millis) <==> code in files || CourseRows(snaps, code, millis) != []
  {
    if |snaps| > 0 {
      var last := snaps[|snaps| - 1];
      PivotAllKeys(files, snaps[..|snaps| - 1], millis, code);
      AddRowsKeys(PivotAll(files, snaps[..|snaps| - 1], millis), Body(last.rows), SnapshotStamp(millis, last), code);
    }
  }

  /** Every intermediate file holds at least one row: a file is only created to append one. */
  lemma PivotAllNonEmpty(files: Directory, snaps: seq<Snapshot>, millis: DateFields -> Long)
    requires AllHaveCode(snaps)
    requires forall code :: code in files ==> files[code] != []
    ensures forall code :: code in PivotAll(files, snaps, millis) ==> PivotAll(files, snaps, millis)[code] != []
  {
    forall code | code in PivotAll(files, snaps, millis)
      ensures PivotAll(files, snaps, millis)[code] != []
    {
      PivotAllKeys(files, snaps, millis, code);
      PivotAllAt(files, snaps, millis, code);
    }
  }

  // ---------------------------------------------------------------------------
  // Time order of the intermediate rows
  // ---------------------------------------------------------------------------

  /** The snapshots with a timestamp come in non-decreasing order of their time. */
  predicate Ascending(snaps: seq<Snapshot>, millis: DateFields -> Long) {
    forall i, j ::
      (0 <= i < j < |snaps| &&
       ParseTimestampInFileName(snaps[i].name).Stamp? && ParseTimestampInFileName(snaps[j].name).Stamp?) ==>
      StampOf(millis, snaps[i]) <= StampOf(millis, snaps[j])
  }

  /** No snapshot with a timestamp is later than `bound`. */
  predicate NoneLaterThan(snaps: seq<Snapshot>, millis: DateFields -> Long, bound: int) {
    forall i ::
      (0 <= i < |snaps| && ParseTimestampInFileName(snaps[i].name).Stamp?) ==> StampOf(millis, snaps[i]) <= bound
  }

  /** The time a row carries in its last column, read back with `Long.parseLong`. */
  function RowTime(row: Row): Option<int> {
    if |row| == 0 then None else ParseLong(row[|row| - 1])
  }

  lemma {:induction false} CodeRowsTime(rows: seq<Row>, code: string, millis: DateFields -> Long, s: Snapshot)
    requires HasCode(rows) && ParseTimestampInFileName(s.name).Stamp?
    ensures forall i :: 0 <= i < |CodeRows(rows, code, SnapshotStamp(millis, s))| ==>
      RowTime(CodeRows(rows, code, SnapshotStamp(millis, s))[i]) == Some(StampOf(millis, s))
  {
    var stamp := SnapshotStamp(millis, s);
    ParseIntToString(StampOf(millis, s), LongMin, LongMax);
    if |rows| > 0 {
      var last := rows[|rows| - 1];
      var front := CodeRows(rows[..|rows| - 1], code, stamp);
      var extra := if last[CodeColumn] == code then [Tag(last, stamp)] else [];
      CodeRowsTime(rows[..|rows| - 1], code, millis, s);
      TagTime(last, stamp);
      assert CodeRows(rows, code, stamp) == front + extra;
      assert forall i :: 0 <= i < |extra| ==> extra[i] == Tag(last, stamp);
    }
  }

  lemma TagTime(row: Row, stamp: string)
    ensures RowTime(Tag(row, stamp)) == ParseLong(stamp)
  {
  }

  /** Every row carries a readable time, none later than `bound`. */
  predicate TimesUpTo(rows: seq<Row>, bound: int) {
    forall i :: 0 <= i < |rows| ==> RowTime(rows[i]).Some? && RowTime(rows[i]).value <= bound
  }

  /** The rows' times never decrease. */
  predicate TimesAscending(rows: seq<Row>)
    requires forall i :: 0 <= i < |rows| ==> RowTime(rows[i]).Some?
  {
    forall i, j :: 0 <= i < j < |rows| ==> RowTime(rows[i]).value <= RowTime(rows[j]).value
  }

  lemma JoinTimes(front: seq<Row>, back: seq<Row>, mid: int, top: int)
    requires TimesUpTo(front, mid) && TimesAscending(front)
    requires forall i :: 0 <= i < |back| ==> RowTime(back[i]) == Some(mid)
    requires mid <= top
    ensures TimesUpTo(front + back, top) && TimesAscending(front + back)
  {
    var rows := front + back;
    assert forall i :: 0 <= i < |rows| ==> rows[i] == if i < |front| then front[i] else back[i - |front|];
  }

  /** When the snapshots come in time order, every course's rows do too, and none is later than
      any bound on the snapshots' times. */
  lemma {:induction false} CourseRowsAscending(snaps: seq<Snapshot>, code: string, millis: DateFields -> Long, bound: int)
    requires AllProcessable(snaps) && Ascending(snaps, millis) && NoneLaterThan(snaps, millis, bound)
    ensures TimesUpTo(CourseRows(snaps, code, millis), bound)
    ensures TimesAscending(CourseRows(snaps, code, millis))
  {
    if |snaps| > 0 {
      var n := |snaps|;
      var front, last := snaps[..n - 1], snaps[n - 1];
      FrontProcessable(snaps);
      assert Ascending(front, millis);
      var back := CodeRows(Body(last.rows), code, SnapshotStamp(millis, last));
      if ParseTimestampInFileName(last.name).Stamp? {
        var mid := StampOf(millis, last);
        assert NoneLaterThan(front, millis, mid) by {
          forall i | 0 <= i < |front| && ParseTimestampInFileName(front[i].name).Stamp?
            ensures StampOf(millis, front[i]) <= mid
          {
            assert front[i] == snaps[i];
          }
        }
        CourseRowsAscending(front, code, millis, mid);
        CodeRowsTime(Body(last.rows), code, millis, last);
        assert mid <= bound;
        JoinTimes(CourseRows(front, code, millis), back, mid, bound);
      } else {
        assert back == [];
        assert CourseRows(snaps, code, millis) == CourseRows(front, code, millis);
        CourseRowsAscending(front, code, millis, bound);
      }
    }
  }

  /** Every row has exactly `w` columns. */
  predicate Width(rows: seq<Row>, w: nat) {
    forall i :: 0 <= i < |rows| ==> |rows[i]| == w
  }

  lemma {:induction false} CodeRowsWidth(rows: seq<Row>, code: string, stamp: string, w: nat)
    requires HasCode(rows) && Width(rows, w)
    ensures Width(CodeRows(rows, code, stamp), w + 1)
  {
    if |rows| > 0 {
      CodeRowsWidth(rows[..|rows| - 1], code, stamp, w);
    }
  }

  /** The pivot adds exactly one column: snapshot rows of `w` columns become intermediate rows of
      `w + 1`. */
  lemma {:induction false} CourseRowsWidth(snaps: seq<Snapshot>, code: string, millis: DateFields -> Long, w: nat)
    requires AllHaveCode(snaps)
    requires forall i :: 0 <= i < |snaps| ==> Width(Body(snaps[i].rows), w)
    ensures Width(CourseRows(snaps, code, millis), w + 1)
  {
    if |snaps| > 0 {
      var last := snaps[|snaps| - 1];
      FrontHaveCode(snaps);
      CourseRowsWidth(snaps[..|snaps| - 1], code, millis, w);
      CodeRowsWidth(Body(last.rows), code, SnapshotStamp(millis, last), w);
    }
  }

  // ---------------------------------------------------------------------------
  // The intermediates directory, updated in place
  // ---------------------------------------------------------------------------

  class Intermediates {
    var files: Directory

    /** A fresh directory: `deleteFolder` has removed any earlier intermediates. */
    constructor ()
      ensures files == map[]
    {
      files := map[];
    }

    /** Lines 67-73: append one tagged row to its course's file. */
    method Append(row: Row, stamp: string)
      requires |row| > CodeColumn
      modifies this
      ensures files == AddRow(old(files), row, stamp)
    {
      var code := row[CodeColumn];
      var writeLine := Tag(row, stamp);
      files := files[code := Lookup(files, code) + [writeLine]];
    }

    /** Lines 61-74: read one snapshot's rows, skip the first, append the others tagged with the
        snapshot's time; `false` where a row throws. */
    method AddSnapshot(rows: seq<Row>, currentFileTime: NameParse, millis: DateFields -> Long) returns (ok: bool)
      modifies this
      ensures ok <==> RowsFit(Body(rows), currentFileTime)
      ensures ok ==> files == AddRows(old(files), Body(rows), StampText(millis, currentFileTime))
    {
      var isFirstLine := true;
      var i := 0;
      while i < |rows|
        invariant 0 <= i <= |rows|
        invariant isFirstLine <==> i == 0
        invariant RowsFit(Body(rows[..i]), currentFileTime)
        invariant files == AddRows(old(files), Body(rows[..i]), StampText(millis, currentFileTime))
      {
        var nextLine := rows[i];
        i := i + 1;
        if isFirstLine {
          isFirstLine := false;
          assert Body(rows[..i]) == [];
          continue;
        }
        BodySnoc(rows, i);
        if |nextLine| <= CodeColumn || !currentFileTime.Stamp? {
          RowUnfit(rows, i, currentFileTime);
          return false;
        }
        RowFits(rows, i, currentFileTime);
        var stamp := IntToString(millis(currentFileTime.fields));
        Append(nextLine, stamp);
      }
      assert rows[..i] == rows;
      return true;
    }

    /** Lines 55-79: the snapshots, in the order given, each tagged with its own time; `false`
        where one of them throws. */
    method PivotSnapshots(snaps: seq<Snapshot>, millis: DateFields -> Long) returns (ok: bool)
      modifies this
      ensures ok <==> AllProcessable(snaps)
      ensures ok ==> files == PivotAll(old(files), snaps, millis)
    {
      for k := 0 to |snaps|
        invariant AllProcessable(snaps[..k])
        invariant files == PivotAll(old(files), snaps[..k], millis)
      {
        var currentFileTime := ParseTimestampInFileName(snaps[k].name);
        if currentFileTime.NumberFormatError? {
          return false;
        }
        var added := AddSnapshot(snaps[k].rows, currentFileTime, millis);
        if !added {
          return false;
        }
        ProcessableSnoc(snaps, k);
      }
      assert snaps[..|snaps|] == snaps;
      return true;
    }
  }
}
