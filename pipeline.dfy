/** The whole run of DataConvert (lines 34-124 of DataConvert.java): the snapshot files found
    under the data directory are ordered by their time, pivoted into one intermediate file per
    course, and each intermediate file is reduced to a course document named after the course. */
module DataConvert {
  import opened JavaText
  import opened CourseData
  import opened SnapshotOrder
  import opened Pivot
  import opened Reduction
  import Sorting

  // ---------------------------------------------------------------------------
  // Which files are snapshots, and in what order they are read
  // ---------------------------------------------------------------------------

  /** `glob:*.csv` on a file name. */
  predicate IsCsvName(name: string) {
    |name| >= 4 && name[|name| - 4..] == ".csv"
  }

  /** The files the walk finds, in walk order, restricted to the `*.csv` ones (line 46). */
  function CsvFiles(walked: seq<Snapshot>): (r: seq<Snapshot>)
    ensures forall s :: s in r <==> s in walked && IsCsvName(s.name)
    ensures |r| <= |walked|
  {
    if |walked| == 0 then []
    else
      var last := walked[|walked| - 1];
      CsvFiles(walked[..|walked| - 1]) + (if IsCsvName(last.name) then [last] else [])
  }

  /** Each `*.csv` file is kept as many times as the walk found it; no other file is kept. */
  lemma {:induction false} CsvFilesCount(walked: seq<Snapshot>)
    ensures forall s :: multiset(CsvFiles(walked))[s] == if IsCsvName(s.name) then multiset(walked)[s] else 0
  {
    if |walked| > 0 {
      var front, last := walked[..|walked| - 1], walked[|walked| - 1];
      CsvFilesCount(front);
      assert walked == front + [last];
    }
  }

  /** The filter keeps walk order: it works file by file, keeping a `*.csv` file and dropping
      any other. */
  lemma {:induction false} CsvFilesAppend(a: seq<Snapshot>, b: seq<Snapshot>)
    ensures CsvFiles(a + b) == CsvFiles(a) + CsvFiles(b)
    ensures |b| == 1 ==> CsvFiles(b) == if IsCsvName(b[0].name) then b else []
  {
    if |b| == 0 {
      assert a + b == a;
    } else {
      var ab, front, last := a + b, b[..|b| - 1], b[|b| - 1];
      var kept := if IsCsvName(last.name) then [last] else [];
      assert ab[..|ab| - 1] == a + front && ab[|ab| - 1] == last;
      assert CsvFiles(ab) == CsvFiles(a + front) + kept;
      assert CsvFiles(b) == CsvFiles(front) + kept;
      CsvFilesAppend(a, front);
      AppendAssoc(CsvFiles(a), CsvFiles(front), kept);
      if |b| == 1 {
        assert front == [];
      }
    }
  }

  /** The order the snapshots are read in: by the instant of their name, a name without a
      timestamp counting as instant 0 (see the finding on the comparator). */
  function SnapshotLe(millis: DateFields -> Long): (Snapshot, Snapshot) -> bool {
    (a: Snapshot, b: Snapshot) => StampKey(millis, a.name) <= StampKey(millis, b.name)
  }

  lemma SnapshotLeOrder(millis: DateFields -> Long)
    ensures Sorting.TotalPreorder(SnapshotLe(millis))
  {
  }

  /** Lines 45-54: the `*.csv` files sorted by their time, a stable sort keeping walk order among
      equal times. */
  function Arrange(walked: seq<Snapshot>, millis: DateFields -> Long): (r: seq<Snapshot>)
    ensures multiset(r) == multiset(CsvFiles(walked))
  {
    SnapshotLeOrder(millis);
    Sorting.SortBy(CsvFiles(walked), SnapshotLe(millis))
  }

  /** The arranged snapshots are exactly the `*.csv` files, in time order. */
  lemma ArrangeMeaning(walked: seq<Snapshot>, millis: DateFields -> Long)
    ensures multiset(Arrange(walked, millis)) == multiset(CsvFiles(walked))
    ensures forall s :: multiset(Arrange(walked, millis))[s] == if IsCsvName(s.name) then multiset(walked)[s] else 0
    ensures forall s :: s in Arrange(walked, millis) <==> s in walked && IsCsvName(s.name)
    ensures Ascending(Arrange(walked, millis), millis)
  {
    SnapshotLeOrder(millis);
    CsvFilesCount(walked);
    var a := Arrange(walked, millis);
    assert forall s :: s in a <==> s in multiset(a);
    forall i, j | 0 <= i < j < |a| &&
      ParseTimestampInFileName(a[i].name).Stamp? && ParseTimestampInFileName(a[j].name).Stamp?
      ensures StampOf(millis, a[i]) <= StampOf(millis, a[j])
    {
      assert SnapshotLe(millis)(a[i], a[j]);
    }
  }

  /** Snapshots with the same time (or without one) keep the order the walk found them in, as
      the stable `Stream.sorted` keeps them. */
  lemma ArrangeStable(walked: seq<Snapshot>, millis: DateFields -> Long, k: Snapshot)
    ensures Sorting.Equivalents(Arrange(walked, millis), SnapshotLe(millis), k)
         == Sorting.Equivalents(CsvFiles(walked), SnapshotLe(millis), k)
  {
    SnapshotLeOrder(millis);
    Sorting.SortStable(CsvFiles(walked), SnapshotLe(millis), k);
  }

  /** When every name has a timestamp, the order is the one the comparator of lines 47-54 asks
      for: no snapshot is put after one it compares greater than. */
  lemma ArrangeFollowsComparator(walked: seq<Snapshot>, millis: DateFields -> Long)
    requires forall s :: s in walked && IsCsvName(s.name) ==> ParseTimestampInFileName(s.name).Stamp?
    ensures forall i, j :: 0 <= i < j < |Arrange(walked, millis)| ==>
      var a := Arrange(walked, millis);
      CompareNames(millis, a[i].name, a[j].name).Some? && CompareNames(millis, a[i].name, a[j].name).value <= 0
  {
    SnapshotLeOrder(millis);
    ArrangeMeaning(walked, millis);
    var a := Arrange(walked, millis);
    forall i, j | 0 <= i < j < |a|
      ensures CompareNames(millis, a[i].name, a[j].name).Some? && CompareNames(millis, a[i].name, a[j].name).value <= 0
    {
      assert a[i] in a && a[j] in a;
      assert SnapshotLe(millis)(a[i], a[j]);
      StampKeyAgreesWithCompare(millis, a[i].name, a[j].name);
    }
  }

  /** The pivot gets through the arranged snapshots exactly when it gets through every `*.csv`
      file, whatever their order. */
  lemma ArrangeProcessable(walked: seq<Snapshot>, millis: DateFields -> Long)
    ensures AllProcessable(Arrange(walked, millis)) <==>
      forall s :: s in walked && IsCsvName(s.name) ==> Processable(s)
  {
    ArrangeMeaning(walked, millis);
    var a := Arrange(walked, millis);
    if forall s :: s in walked && IsCsvName(s.name) ==> Processable(s) {
      assert forall i :: 0 <= i < |a| ==> a[i] in a;
    } else {
      var s :| s in walked && IsCsvName(s.name) && !Processable(s);
      assert s in a;
    }
  }

  // ---------------------------------------------------------------------------
  // The outcome of a run
  // ---------------------------------------------------------------------------

  /** The intermediates directory once stage 1 has been through every arranged snapshot. */
  function Intermediate(walked: seq<Snapshot>, millis: DateFields -> Long): Directory
    requires AllProcessable(Arrange(walked, millis))
  {
    ProcessableHaveCode(Arrange(walked, millis));
    PivotAll(map[], Arrange(walked, millis), millis)
  }

  /** The run ends normally: no snapshot throws in stage 1, at least one intermediate file was
      written (otherwise walking the missing intermediates directory throws), and no course
      throws in stage 2. */
  predicate Succeeds(walked: seq<Snapshot>, millis: DateFields -> Long) {
    && AllProcessable(Arrange(walked, millis))
    && Intermediate(walked, millis) != map[]
    && forall code :: code in Intermediate(walked, millis) ==> !Reduce(Intermediate(walked, millis)[code]).Aborted?
  }

  /** Line 89 on the file `<code>.csv`. */
  function ProductOf(code: string): string {
    ProductName(code + ".csv")
  }

  /** `products` holds, for every `name` of a file in `files`, the document `reduce` gives for
      one of the files with that name. */
  predicate DocumentsBy(files: Directory, products: map<string, CourseAddDropLog>,
                        reduce: seq<Row> -> Product, name: string -> string) {
    && products.Keys == (set code | code in files :: name(code))
    && forall n :: n in products ==>
         exists code :: code in files && name(code) == n && reduce(files[code]) == Written(products[n])
  }

  /** `products` is what stage 2 leaves in products/ for the intermediate files `files`: one
      document per product name, each the reduction of a course with that product name. */
  predicate ProductsOf(files: Directory, products: map<string, CourseAddDropLog>) {
    DocumentsBy(files, products, Reduce, ProductOf)
  }

  /** A course whose product name no other course shares has its own document. */
  lemma ProductOfCourse(files: Directory, products: map<string, CourseAddDropLog>, code: string)
    requires ProductsOf(files, products) && code in files
    requires forall other :: other in files && ProductOf(other) == ProductOf(code) ==> other == code
    ensures ProductOf(code) in products && Reduce(files[code]) == Written(products[ProductOf(code)])
  {
    assert ProductOf(code) in products.Keys;
  }

  /** Courses whose codes differ only in the case of ASCII letters ("CS1001" and "cs1001", say)
      share one product file, so the document written last replaces the other. This holds in a
      default locale that lowers ASCII letters the standard way; the Turkish and Azeri locales
      lower 'I' to a dotless 'ı' instead. */
  lemma ProductNamesCaseBlind(code: string, other: string)
    requires LowerAscii(code) == LowerAscii(other)
    ensures ProductOf(code) == ProductOf(other)
  {
    ProductNameOfCode(code);
    ProductNameOfCode(other);
  }

  /** Writing one more course's document keeps `DocumentsBy`. */
  lemma DocumentsAdd(files: Directory, products: map<string, CourseAddDropLog>, reduce: seq<Row> -> Product,
                     name: string -> string, code: string, rows: seq<Row>)
    requires DocumentsBy(files, products, reduce, name) && code !in files && reduce(rows).Written?
    ensures DocumentsBy(files[code := rows], products[name(code) := reduce(rows).doc], reduce, name)
  {
    var files', products' := files[code := rows], products[name(code) := reduce(rows).doc];
    forall n | n in products'
      ensures exists c :: c in files' && name(c) == n && reduce(files'[c]) == Written(products'[n])
    {
      if n == name(code) {
        assert code in files' && reduce(files'[code]) == Written(products'[n]);
      } else {
        var c :| c in files && name(c) == n && reduce(files[c]) == Written(products[n]);
        assert c in files' && files'[c] == files[c];
      }
    }
  }

  lemma RemoveStep(files: Directory, remaining: set<string>, code: string)
    requires code in remaining && remaining <= files.Keys
    ensures (files - remaining)[code := files[code]] == files - (remaining - {code})
  {
  }

  /** The columns of a snapshot row: seats, capacity, code, credit, department, levels, title,
      waitlist, web-enabled. */
  const SnapshotColumns: nat := 9

  /** The intermediate file of a course is its rows over the arranged snapshots, at least one. */
  lemma IntermediateRows(walked: seq<Snapshot>, millis: DateFields -> Long, code: string)
    requires AllProcessable(Arrange(walked, millis))
    requires code in Intermediate(walked, millis)
    ensures Intermediate(walked, millis)[code] == CourseRows(Arrange(walked, millis), code, millis)
    ensures Intermediate(walked, millis)[code] != []
  {
    var a := Arrange(walked, millis);
    ProcessableHaveCode(a);
    PivotAllAt(map[], a, millis, code);
    PivotAllNonEmpty(map[], a, millis);
  }

  /** Over snapshots of nine columns, the intermediate rows have ten, and their times never
      decrease. */
  lemma IntermediateShape(walked: seq<Snapshot>, millis: DateFields -> Long, code: string)
    requires AllProcessable(Arrange(walked, millis))
    requires forall s :: s in walked && IsCsvName(s.name) ==> Width(Body(s.rows), SnapshotColumns)
    requires code in Intermediate(walked, millis)
    ensures var rows := Intermediate(walked, millis)[code];
      && Width(rows, SnapshotColumns + 1)
      && TimesUpTo(rows, LongMax) && TimesAscending(rows)
  {
    var a := Arrange(walked, millis);
    IntermediateRows(walked, millis, code);
    ArrangeMeaning(walked, millis);
    ProcessableHaveCode(a);
    assert forall i :: 0 <= i < |a| ==> a[i] in a;
    CourseRowsWidth(a, code, millis, SnapshotColumns);
    CourseRowsAscending(a, code, millis, LongMax);
  }

  /** On rows of ten columns, the i-th observation's time is the time the i-th row carries. */
  lemma WrittenTimes(rows: seq<Row>)
    requires Reduce(rows).Written? && Width(rows, RowWidth)
    ensures |Reduce(rows).doc.logRecords| == |rows|
    ensures forall i :: 0 <= i < |rows| ==> RowTime(rows[i]) == Some(Reduce(rows).doc.logRecords[i].timestamp)
  {
    ReduceMeaning(rows);
    var doc := Reduce(rows).doc;
    forall i | 0 <= i < |rows|
      ensures RowTime(rows[i]) == Some(doc.logRecords[i].timestamp)
    {
      assert RecordOfRow(doc.logRecords[i], rows[i]);
    }
  }

  /** In a run that ends normally over snapshots of nine columns, every course has a document
      with one observation per row of that course over all snapshots, and the observations'
      times never decrease: the course's history comes out in time order. */
  lemma CourseTimeline(walked: seq<Snapshot>, millis: DateFields -> Long, code: string)
    requires Succeeds(walked, millis)
    requires forall s :: s in walked && IsCsvName(s.name) ==> Width(Body(s.rows), SnapshotColumns)
    requires code in Intermediate(walked, millis)
    ensures Reduce(Intermediate(walked, millis)[code]).Written?
    ensures var doc := Reduce(Intermediate(walked, millis)[code]).doc;
      && |doc.logRecords| == |CourseRows(Arrange(walked, millis), code, millis)|
      && forall i, j :: 0 <= i < j < |doc.logRecords| ==> doc.logRecords[i].timestamp <= doc.logRecords[j].timestamp
  {
    var rows := Intermediate(walked, millis)[code];
    IntermediateRows(walked, millis, code);
    IntermediateShape(walked, millis, code);
    ReduceMeaning(rows);
    WrittenTimes(rows);
  }

  // ---------------------------------------------------------------------------
  // The run
  // ---------------------------------------------------------------------------

  /** Lines 82-121: every intermediate file, in the directory's own (unspecified) order, is
      reduced and its document written; `false` where a course throws. */
  method WriteProducts(files: Directory) returns (ok: bool, products: map<string, CourseAddDropLog>)
    requires forall code :: code in files ==> files[code] != []
    ensures ok <==> forall code :: code in files ==> !Reduce(files[code]).Aborted?
    ensures ok ==> ProductsOf(files, products)
  {
    products := map[];
    var remaining := files.Keys;
    while remaining != {}
      invariant remaining <= files.Keys
      invariant forall code :: code in files.Keys - remaining ==> Reduce(files[code]).Written?
      invariant ProductsOf(files - remaining, products)
      decreases remaining
    {
      var code :| code in remaining;
      var product := ReduceFile(files[code]);
      ReduceNonEmpty(files[code]);
      if product.Aborted? {
        return false, products;
      }
      DocumentsAdd(files - remaining, products, Reduce, ProductOf, code, files[code]);
      RemoveStep(files, remaining, code);
      products := products[ProductOf(code) := product.doc];
      remaining := remaining - {code};
    }
    assert files - remaining == files;
    return true, products;
  }

  /** Lines 34-124 from the cleaned directories on: stage 1 over the arranged snapshots into a
      fresh intermediates directory, then stage 2. `walked` is every file the walk of the data
      directory finds, with its name and its rows. */
  method Convert(walked: seq<Snapshot>, millis: DateFields -> Long) returns (ok: bool, products: map<string, CourseAddDropLog>)
    ensures ok <==> Succeeds(walked, millis)
    ensures ok ==> ProductsOf(Intermediate(walked, millis), products)
  {
    var arranged := Arrange(walked, millis);
    var intermediates := new Intermediates();
    ok := intermediates.PivotSnapshots(arranged, millis);
    products := map[];
    if !ok {
      return;
    }
    var files := intermediates.files;
    if files == map[] {
      return false, products;
    }
    PivotAllNonEmpty(map[], arranged, millis);
    ok, products := WriteProducts(files);
  }
}
