/** The second stage of DataConvert: one intermediate course file is read row by row into a
    course document (lines 85-121 of DataConvert.java). */
module Reduction {
  import opened JavaText
  import opened CourseData
  import Sorting

  /** What comes of one intermediate file: a document written to products/, nothing (the file
      had no rows), or an exception from `parseInt`/`parseLong` or from a short row, which
      `catch (IOException e)` does not catch and so ends the whole run. */
  datatype Product = Written(doc: CourseAddDropLog) | Skipped | Aborted

  /** Intermediate rows need columns 0 to 9; column 9 is the time the pivot appended. */
  const RowWidth: nat := 10

  /** Lines 97-102: the observation one row gives, or `None` where reading it throws. */
  function ToLogRecord(row: Row): (r: Option<LogRecord>)
    ensures r.None? <==>
      || |row| < RowWidth
      || ParseInt(row[0]).None? || ParseInt(row[1]).None? || ParseLong(row[9]).None?
    ensures r.Some? ==> RecordOfRow(r.value, row)
  {
    if |row| < RowWidth then None
    else
      var availableSeats, capacity := ParseInt(row[0]), ParseInt(row[1]);
      var timestamp := ParseLong(row[9]);
      if availableSeats.None? || capacity.None? || timestamp.None? then None
      else Some(LogRecord(availableSeats.value, capacity.value, row[7], row[8] == "true", timestamp.value))
  }

  /** The string order `Arrays.sort` uses on a `String[]` is a total order. */
  lemma StringOrder()
    ensures Sorting.TotalPreorder(StringLe) && Sorting.Antisymmetric(StringLe)
  {
    forall a: string, b: string
      ensures StringLe(a, b) || StringLe(b, a)
    {
      StringLeTotal(a, b);
    }
    forall a: string, b: string, c: string | StringLe(a, b) && StringLe(b, c)
      ensures StringLe(a, c)
    {
      StringLeTransitive(a, b, c);
    }
    forall a: string, b: string | StringLe(a, b) && StringLe(b, a)
      ensures a == b
    {
      StringLeAntisymmetric(a, b);
    }
  }

  /** Lines 110-111: the levels column split on `,` and sorted ascending: sorted, and holding
      exactly the pieces of the split with their duplicates. */
  function Levels(column: string): (r: seq<string>)
    ensures Sorting.SortedBy(r, StringLe)
    ensures multiset(r) == multiset(JavaSplit(column, ','))
  {
    StringOrder();
    Sorting.SortBy(JavaSplit(column, ','), StringLe)
  }

  /** `Levels` is the only sorted arrangement of the pieces, so `Arrays.sort` (or any other
      correct sort) produces exactly it. */
  lemma LevelsUnique(column: string, other: seq<string>)
    requires Sorting.SortedBy(other, StringLe)
    requires multiset(other) == multiset(JavaSplit(column, ','))
    ensures other == Levels(column)
  {
    StringOrder();
    Sorting.SortedUnique(other, Levels(column), StringLe);
  }

  /** The observation the i-th row yields: columns 0, 1, 7, 8 and 9, with `webEnabled` true
      exactly for the text "true". */
  predicate RecordOfRow(rec: LogRecord, row: Row)
    requires |row| >= RowWidth
  {
    && ParseInt(row[0]) == Some(rec.availableSeats)
    && ParseInt(row[1]) == Some(rec.capacity)
    && rec.waitlistAvailable == row[7]
    && (rec.webEnabled <==> row[8] == "true")
    && ParseLong(row[9]) == Some(rec.timestamp)
  }

  /** Applies `f` to every element in order and collects the results, or `None` as soon as `f`
      fails on one. */
  function TryMap<A, B>(f: A -> Option<B>, s: seq<A>): (r: Option<seq<B>>)
    ensures r.Some? ==> |r.value| == |s|
  {
    if |s| == 0 then Some([])
    else match (TryMap(f, s[..|s| - 1]), f(s[|s| - 1]))
      case (Some(front), Some(y)) => Some(front + [y])
      case _ => None
  }

  /** `TryMap` fails exactly when `f` fails on some element; otherwise its i-th result is the
      one `f` gives the i-th element. */
  lemma {:induction false} TryMapMeaning<A, B>(f: A -> Option<B>, s: seq<A>)
    ensures TryMap(f, s).None? <==> exists i :: 0 <= i < |s| && f(s[i]).None?
    ensures TryMap(f, s).Some? ==>
      && |TryMap(f, s).value| == |s|
      && forall i :: 0 <= i < |s| ==> f(s[i]) == Some(TryMap(f, s).value[i])
  {
    if |s| > 0 {
      var front := s[..|s| - 1];
      TryMapMeaning(f, front);
      assert forall i :: 0 <= i < |front| ==> front[i] == s[i];
    }
  }

  /** Lines 94-104: the observations of all rows in row order, or `None` where some row cannot
      be read (the first such row throws). */
  function ReadAll(rows: seq<Row>): Option<seq<LogRecord>> {
    TryMap(ToLogRecord, rows)
  }

  /** The document of one course file (lines 92-114): one observation per row in row order, the
      static fields from the last row; no rows, no document. */
  function Reduce(rows: seq<Row>): (p: Product)
    ensures p.Skipped? <==> |rows| == 0
    ensures p.Written? ==> |p.doc.logRecords| == |rows|
  {
    match ReadAll(rows)
    case None => Aborted
    case Some(records) =>
      if |rows| == 0 then Skipped
      else
        var last := rows[|rows| - 1];
        var credit := ParseInt(last[3]);
        if credit.None? then Aborted
        else Written(CourseAddDropLog(last[2], credit.value, last[4], Levels(last[5]), records, last[6]))
  }

  /** What `Reduce` promises: a file with no rows gives no document; the run stops exactly when a
      row cannot be read or the last row's credit is not a number; otherwise the document has
      one observation per row, read from that row, and its static fields from the last row. */
  lemma ReduceMeaning(rows: seq<Row>)
    ensures Reduce(rows).Skipped? <==> |rows| == 0
    ensures Reduce(rows).Aborted? <==>
      || (exists i :: 0 <= i < |rows| && ToLogRecord(rows[i]).None?)
      || (|rows| > 0 && ParseInt(rows[|rows| - 1][3]).None?)
    ensures Reduce(rows).Written? ==>
      var doc := Reduce(rows).doc;
      && |doc.logRecords| == |rows|
      && (forall i :: 0 <= i < |rows| ==> |rows[i]| >= RowWidth && RecordOfRow(doc.logRecords[i], rows[i]))
    ensures Reduce(rows).Written? ==>
      var doc, last := Reduce(rows).doc, rows[|rows| - 1];
      && doc.code == last[2]
      && ParseInt(last[3]) == Some(doc.credit)
      && doc.department == last[4]
      && doc.levels == Levels(last[5])
      && doc.title == last[6]
  {
    TryMapMeaning(ToLogRecord, rows);
  }

  /** A file with rows never gives `Skipped`. */
  lemma ReduceNonEmpty(rows: seq<Row>)
    requires rows != []
    ensures Reduce(rows).Written? || Reduce(rows).Aborted?
  {
  }

  /** Lines 92-117 as the loop they are: records are appended and `prevLine` kept while reading;
      the static fields are filled in from `prevLine` afterwards. */
  method ReduceFile(rows: seq<Row>) returns (p: Product)
    ensures p == Reduce(rows)
  {
    var logRecords: seq<LogRecord> := [];
    var prevLine: Option<Row> := None;
    var i := 0;
    while i < |rows|
      invariant 0 <= i <= |rows|
      invariant ReadAll(rows[..i]) == Some(logRecords)
      invariant prevLine == if i == 0 then None else Some(rows[i - 1])
    {
      var currLine := rows[i];
      var logRecord := ToLogRecord(currLine);
      if logRecord.None? {
        TryMapMeaning(ToLogRecord, rows);
        return Aborted;
      }
      assert rows[..i + 1][..i] == rows[..i];
      logRecords := logRecords + [logRecord.value];
      prevLine := Some(currLine);
      i := i + 1;
    }
    assert rows[..i] == rows;
    if prevLine.None? {
      return Skipped;
    }
    var last := prevLine.value;
    var credit := ParseInt(last[3]);
    if credit.None? {
      return Aborted;
    }
    p := Written(CourseAddDropLog(last[2], credit.value, last[4], Levels(last[5]), logRecords, last[6]));
  }

  /** Line 89: the product file name, the course file name lower-cased with ".csv" replaced. */
  function ProductName(fileName: string): (r: string)
    ensures forall c :: c in r ==> !('A' <= c <= 'Z')
  {
    ReplaceAll(LowerAscii(fileName), ".csv", ".json")
  }

  /** The product of course `code` (file `code.csv`) is a ".json" file whose name is the
      lower-cased code, with any ".csv" inside the code replaced as well. */
  lemma ProductNameOfCode(code: string)
    ensures ProductName(code + ".csv") == ReplaceAll(LowerAscii(code), ".csv", ".json") + ".json"
  {
    assert LowerAscii(code + ".csv") == LowerAscii(code) + ".csv";
    ReplaceCsvSuffix(LowerAscii(code));
  }
}
