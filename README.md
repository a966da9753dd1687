# DataConvert, modelled in Dafny

DataConvert turns scraped AIMS add/drop snapshots into one JSON document per course. Each
snapshot is a CSV file named after the time it was taken, `YYYY-MM-DD_hh-mm-ss….csv`: a header
row, then one row per course with nine columns (seats, capacity, code, credit,
department, levels, title, waitlist, web-enabled). The run has two stages:

1. **Pivot.** It walks the data directory and keeps the `*.csv` files. It orders them by the
   time in their names, then appends every row after each file's header to
   `intermediates/<code>.csv`, where `<code>` is the row's column 2. Each appended row gets the
   snapshot's time in milliseconds as a tenth column.
2. **Reduction.** Each intermediate file is read row by row into a `CourseAddDropLog`. There is
   one `LogRecord` per row. The static fields come from the last row, and `levels` is the last
   row's column 5 split on `,` and sorted. The document goes to
   `products/<lower-cased name>.json`.

The model covers both stages, the file-name parser and the comparator. File contents are
sequences of rows (`seq<seq<string>>`). The intermediates directory is a map from course code to
rows, and the products directory is a map from product file name to document.

| file | module | what it holds |
|---|---|---|
| `text.dfy` | `JavaText` | `Integer.parseInt`, `Long.parseLong`, `Long.toString`, `String.split`, `toLowerCase`, `replace` and `compareTo`, as the run uses them |
| `sorting.dfy` | `Sorting` | a stable insertion sort over a total preorder, standing for both library sorts; uniqueness of sorted arrangements |
| `records.dfy` | `CourseData` | the `CourseAddDropLog` and `LogRecord` datatypes (`CourseAddDropLog.java:8-22`) and CSV rows |
| `timestamp.dfy` | `SnapshotOrder` | the regular expression, `parseTimestampInFileName` and the comparator |
| `pivot.dfy` | `Pivot` | stage 1: the class `Intermediates` with its in-place loop methods, and the specification functions they are proved against |
| `reduction.dfy` | `Reduction` | stage 2 for one file: the `ReduceFile` loop and its specification `Reduce` |
| `pipeline.dfy` | `DataConvert` | filtering and ordering the snapshots, stage 2 over the whole directory, and the run `Convert` |

Exceptions are modelled as they behave in the code. Each of these aborts the whole run:
- a `NumberFormatException`;
- an index out of bounds on a short row;
- the null calendar that line 71 dereferences;
- the `NoSuchFileException` from walking an `intermediates` directory that was never created.

The first three are not `IOException`s, so the two `catch` blocks never see them.
`NoSuchFileException` is an `IOException`, but the walk at line 83 is outside both `try`
blocks, so it leaves `main`, which declares `throws IOException` (line 34). A method that
reaches any of them returns `false`. Parse errors are therefore not isolated per
file.

## Model

Paths are relative to the repository root. `DataConvert.java` is
`src/main/java/com/cityuge/dataconvert/DataConvert.java`.

| member | source | states |
|---|---|---|
| JavaText.ParseInteger | src/main/java/com/cityuge/dataconvert/DataConvert.java:98-102 | `parseInt`/`parseLong` give a value inside the type's range, and only for non-empty text. An unsigned digit string gives its decimal value when in range and a NumberFormatException (`None`) beyond the maximum. With a leading `-` or `+`, the digits after the sign give their value, negated or not, when in range, and an exception otherwise. |
| JavaText.NatToString | src/main/java/com/cityuge/dataconvert/DataConvert.java:71 | The decimal text written for a time is non-empty, all digits, and denotes that number. It has no leading zero unless the number is 0, so it is the shortest form. |
| JavaText.IntToString | src/main/java/com/cityuge/dataconvert/DataConvert.java:71 | `Long.toString`: a minus sign exactly for negative values, then the decimal digits of the magnitude, with no leading zero except for 0 itself. |
| JavaText.ParseIntToString | src/main/java/com/cityuge/dataconvert/DataConvert.java:71 | `Long.parseLong` reads back exactly the value `Long.toString` wrote into the tenth column, for every value in range. |
| JavaText.SplitAll | src/main/java/com/cityuge/dataconvert/DataConvert.java:110 | Splitting at `,` gives at least one piece, no piece holds a comma, and a column without a comma is its only piece. |
| JavaText.JoinSplitAll | src/main/java/com/cityuge/dataconvert/DataConvert.java:110 | Splitting loses nothing: the pieces joined with `,` give the column back. |
| JavaText.StripTrailingEmpty | src/main/java/com/cityuge/dataconvert/DataConvert.java:110 | `split` keeps a prefix of the pieces, drops only empty ones, and ends with a non-empty piece (or keeps none). |
| JavaText.JavaSplit | src/main/java/com/cityuge/dataconvert/DataConvert.java:110 | No piece contains the separator. A column without one is its own only piece. Otherwise the pieces are every piece between separators, less the trailing empty ones, and the last kept piece is not empty. |
| JavaText.LowerAscii | src/main/java/com/cityuge/dataconvert/DataConvert.java:89 | Lower-casing keeps the length and lowers each character in place. |
| JavaText.ReplaceAll | src/main/java/com/cityuge/dataconvert/DataConvert.java:89 | `String.replace`: the result holds only characters of the text or of the replacement. |
| JavaText.ReplaceAbsent | src/main/java/com/cityuge/dataconvert/DataConvert.java:89 | Text without an occurrence of the target comes back unchanged. |
| JavaText.ReplaceLeftmost | src/main/java/com/cityuge/dataconvert/DataConvert.java:89 | The leftmost occurrence becomes the replacement, the text before it is kept, and the rest is replaced on its own. With `ReplaceAbsent` this fixes the result on every text. |
| JavaText.ReplaceCsvSuffix | src/main/java/com/cityuge/dataconvert/DataConvert.java:89 | Replacing every ".csv" turns a name's ".csv" ending into ".json". Occurrences before the ending are replaced as well. |
| JavaText.ShortPrefixNoCsv | src/main/java/com/cityuge/dataconvert/DataConvert.java:89 | With fewer than four characters before ".csv", no occurrence starts at the first character. |
| JavaText.StringLeTotal | src/main/java/com/cityuge/dataconvert/DataConvert.java:111 | Any two level strings are ordered one way or the other by `compareTo`. |
| JavaText.StringLeAntisymmetric | src/main/java/com/cityuge/dataconvert/DataConvert.java:111 | Strings ordered both ways by `compareTo` are equal. |
| JavaText.StringLeTransitive | src/main/java/com/cityuge/dataconvert/DataConvert.java:111 | The `compareTo` order is transitive. |
| JavaText.StringLeMeaning | src/main/java/com/cityuge/dataconvert/DataConvert.java:111 | `a.compareTo(b) <= 0` exactly when `a` is a prefix of `b`, or has the smaller character where they first differ. |
| Sorting.Insert | src/main/java/com/cityuge/dataconvert/DataConvert.java:111 | Inserting into a sorted sequence keeps it sorted and adds exactly that element. |
| Sorting.SortBy | src/main/java/com/cityuge/dataconvert/DataConvert.java:47-54 | The sort's result is sorted and a permutation of its input. |
| Sorting.SortedUnique | src/main/java/com/cityuge/dataconvert/DataConvert.java:111 | Under an antisymmetric order two sorted permutations of one multiset are equal, so `Arrays.sort` gives exactly the modelled levels. |
| Sorting.InsertStable | src/main/java/com/cityuge/dataconvert/DataConvert.java:47-54 | Inserting puts the new element before every element equivalent to it; each class keeps its order. |
| Sorting.SortStable | src/main/java/com/cityuge/dataconvert/DataConvert.java:47-54 | The model sort is stable: the elements of each equivalence class come out in their input order, as the JDK's sequential sorts do. |
| SnapshotOrder.DigitRun | src/main/java/com/cityuge/dataconvert/DataConvert.java:133 | A greedy `\d+` takes the longest prefix of ASCII digits. |
| SnapshotOrder.DigitRunAppend | src/main/java/com/cityuge/dataconvert/DataConvert.java:133 | A digit group followed by text takes the whole group plus the digits that start the text. |
| SnapshotOrder.MatchFrom | src/main/java/com/cityuge/dataconvert/DataConvert.java:133-135 | A match has one group per separator plus one. |
| SnapshotOrder.MatchFromSound | src/main/java/com/cityuge/dataconvert/DataConvert.java:133-135 | A name that matches is non-empty digit groups joined by the separators. The rest has no line terminator and does not continue with a digit. |
| SnapshotOrder.MatchFromComplete | src/main/java/com/cityuge/dataconvert/DataConvert.java:133-135 | Every name of that shape matches. When the rest does not start with a digit, the groups found are the ones the name was built from. |
| SnapshotOrder.MatchedNameIsShaped | src/main/java/com/cityuge/dataconvert/DataConvert.java:135-145 | Only a name of six digit groups joined by `-`, `-`, `_`, `-`, `-`, then text without line terminators, gives anything but null. |
| SnapshotOrder.ParseTimestampInFileName | src/main/java/com/cityuge/dataconvert/DataConvert.java:132-146 | The result is null exactly when the name does not match the pattern as a whole. |
| SnapshotOrder.FieldsOfGroups | src/main/java/com/cityuge/dataconvert/DataConvert.java:136-143 | A matched name never gives null: it gives a calendar or a NumberFormatException. |
| SnapshotOrder.FieldsOfGroupsMeaning | src/main/java/com/cityuge/dataconvert/DataConvert.java:136-143 | `parseInt` throws exactly when a group exceeds the int range. Otherwise the fields are groups 1 to 6 in order, and only the month is shifted, by minus one. |
| SnapshotOrder.TimestampOfName | src/main/java/com/cityuge/dataconvert/DataConvert.java:132-146 | A name spelled from six in-range digit groups, then text that neither starts with a digit nor holds a line terminator, is read as those six values with the month made 0-based. |
| SnapshotOrder.NoLeadingDigit | src/main/java/com/cityuge/dataconvert/DataConvert.java:135-145 | A name not starting with a digit gives null. |
| SnapshotOrder.CompareParsed | src/main/java/com/cityuge/dataconvert/DataConvert.java:47-54 | The comparator throws exactly when one of the two names throws, and otherwise returns -1, 0 or 1. |
| SnapshotOrder.CompareNamesSwap | src/main/java/com/cityuge/dataconvert/DataConvert.java:47-54 | Swapping the two names negates the result. |
| SnapshotOrder.CompareUnparsedIsZero | src/main/java/com/cityuge/dataconvert/DataConvert.java:50-53 | A name read as null compares 0 against every name that does not throw, in both argument orders. |
| SnapshotOrder.CompareIsDateOrder | src/main/java/com/cityuge/dataconvert/DataConvert.java:47-54 | For valid dates and an order-preserving time zone, the comparator is the calendar order of the two names' fields. |
| SnapshotOrder.SecondsMonotone | src/main/java/com/cityuge/dataconvert/DataConvert.java:136-143 | Counting seconds in field order maps later valid dates to larger numbers. |
| SnapshotOrder.CountedMillis | src/main/java/com/cityuge/dataconvert/DataConvert.java:71 | A `long` instant function: the second count of a valid date, which fits in a `long` for every year up to the int maximum. |
| SnapshotOrder.CountedMillisPreservesOrder | src/main/java/com/cityuge/dataconvert/DataConvert.java:71 | Some instant function preserves the calendar order of valid dates, so the lemmas that assume one are not vacuous. |
| SnapshotOrder.StampKeyAgreesWithCompare | src/main/java/com/cityuge/dataconvert/DataConvert.java:47-54 | Between names that both parse, ordering by instant is ordering by the comparator. |
| SnapshotOrder.CompareNames | src/main/java/com/cityuge/dataconvert/DataConvert.java:47-54 | The comparator throws exactly when one of the names throws. It returns 0 when either name is read as null. |
| SnapshotOrder.CompareNotTransitive | src/main/java/com/cityuge/dataconvert/DataConvert.java:47-54 | Under an order-preserving time zone, a null name is "equal" to a later and to an earlier name, which are not equal to each other. So the comparator is not transitive. |
| SnapshotOrder.SampleNotTransitive | src/main/java/com/cityuge/dataconvert/DataConvert.java:47-54 | Under `CountedMillis`, names read as 2020-01-01 00:00:02, as null and as 2020-01-01 00:00:01 compare 0, 0 and 1, so the comparator is not transitive on them. |
| SnapshotOrder.SampleGroups | src/main/java/com/cityuge/dataconvert/DataConvert.java:137-142 | The digit groups of the sample names have the values 2020, 1, 0 and 2. |
| SnapshotOrder.LaterSpelling | src/main/java/com/cityuge/dataconvert/DataConvert.java:133 | The groups of "2020-01-01_00-00-02.csv" joined by the separators spell that name. |
| SnapshotOrder.EarlierSpelling | src/main/java/com/cityuge/dataconvert/DataConvert.java:133 | The groups of "2020-01-01_00-00-01.csv" joined by the separators spell that name. |
| SnapshotOrder.LaterSample | src/main/java/com/cityuge/dataconvert/DataConvert.java:132-146 | "2020-01-01_00-00-02.csv" is read as 2020, month 0, day 1, 00:00:02. |
| SnapshotOrder.EarlierSample | src/main/java/com/cityuge/dataconvert/DataConvert.java:132-146 | "2020-01-01_00-00-01.csv" is read as 2020, month 0, day 1, 00:00:01. |
| Pivot.Tag | src/main/java/com/cityuge/dataconvert/DataConvert.java:70-71 | The written row is the original row, unchanged, plus one last column holding the time. |
| Pivot.Body | src/main/java/com/cityuge/dataconvert/DataConvert.java:61-66 | The `isFirstLine` flag skips exactly the first row: the others follow, in file order. |
| Pivot.AddRow | src/main/java/com/cityuge/dataconvert/DataConvert.java:67-73 | A row goes to the end of the file of its column-2 code, which is created if missing. Every other file is unchanged. |
| Pivot.AddRows | src/main/java/com/cityuge/dataconvert/DataConvert.java:62-73 | Adding a snapshot body keeps every existing file and gives each body row's course a file. |
| Pivot.CodeRowsMembers | src/main/java/com/cityuge/dataconvert/DataConvert.java:62-73 | A course's rows of one snapshot are exactly that snapshot's tagged body rows with that code. |
| Pivot.AddRowsAt | src/main/java/com/cityuge/dataconvert/DataConvert.java:62-73 | After a snapshot body, each course's file is its old rows followed by that course's rows of the body, in file order. |
| Pivot.AddRowsKeys | src/main/java/com/cityuge/dataconvert/DataConvert.java:67-69 | After a snapshot body, a file exists exactly when it existed before or the body has a row for that course. |
| Pivot.BodySnoc | src/main/java/com/cityuge/dataconvert/DataConvert.java:61-66 | Reading one more row after the header appends it to the rows that get pivoted. |
| Pivot.RowUnfit | src/main/java/com/cityuge/dataconvert/DataConvert.java:67-71 | A body row without column 2, or a row read under a null calendar, makes the snapshot throw. |
| Pivot.PivotAll | src/main/java/com/cityuge/dataconvert/DataConvert.java:55-79 | Pivoting all snapshots keeps every existing file and gives every course with a body row a file. |
| Pivot.PivotAllAt | src/main/java/com/cityuge/dataconvert/DataConvert.java:55-79 | Each course's file is the in-order concatenation of its rows over the snapshots. |
| Pivot.PivotAllKeys | src/main/java/com/cityuge/dataconvert/DataConvert.java:55-79 | A course has a file exactly when it had one or some snapshot has a row for it. |
| Pivot.PivotAllNonEmpty | src/main/java/com/cityuge/dataconvert/DataConvert.java:67-72 | No intermediate file is empty: a file is only created to append a row. |
| Pivot.CodeRowsTime | src/main/java/com/cityuge/dataconvert/DataConvert.java:70-71 | Every row of a snapshot carries that snapshot's instant, and `parseLong` reads it back. |
| Pivot.JoinTimes | src/main/java/com/cityuge/dataconvert/DataConvert.java:55-79 | Appending rows of one time, no earlier than any time before them, keeps the times non-decreasing. |
| Pivot.CourseRowsAscending | src/main/java/com/cityuge/dataconvert/DataConvert.java:45-79 | When the snapshots come in time order, every course's rows carry non-decreasing times, none later than the snapshots' bound. |
| Pivot.CourseRowsWidth | src/main/java/com/cityuge/dataconvert/DataConvert.java:70 | The pivot adds exactly one column: rows of `w` columns become rows of `w + 1`. |
| Pivot.Intermediates.constructor | src/main/java/com/cityuge/dataconvert/DataConvert.java:41 | The intermediates directory starts empty once cleaned. |
| Pivot.Intermediates.Append | src/main/java/com/cityuge/dataconvert/DataConvert.java:67-73 | Appending a row updates the directory as `AddRow` specifies. |
| Pivot.Intermediates.AddSnapshot | src/main/java/com/cityuge/dataconvert/DataConvert.java:58-75 | Succeeds exactly when every row after the header has a code column and, if any such row exists, the name gave a calendar. On success the directory is the old one with exactly those rows added, in order, each tagged with the snapshot's time. |
| Pivot.Intermediates.PivotSnapshots | src/main/java/com/cityuge/dataconvert/DataConvert.java:55-79 | Succeeds exactly when every snapshot gets through. On success the directory is `PivotAll` of the old one. |
| Reduction.ToLogRecord | src/main/java/com/cityuge/dataconvert/DataConvert.java:97-102 | A row cannot be read exactly when it has fewer than ten columns or column 0, 1 or 9 is not a number. Otherwise its record holds columns 0, 1, 7, 8 and 9, with `webEnabled` exactly when column 8 is "true". |
| Reduction.StringOrder | src/main/java/com/cityuge/dataconvert/DataConvert.java:111 | The `String` order `Arrays.sort` uses is a total, antisymmetric preorder. |
| Reduction.Levels | src/main/java/com/cityuge/dataconvert/DataConvert.java:110-112 | `levels` is sorted and a permutation of the split column, with duplicates kept. |
| Reduction.LevelsUnique | src/main/java/com/cityuge/dataconvert/DataConvert.java:110-111 | Any sorted permutation of the split column is `levels`. |
| Reduction.TryMapMeaning | src/main/java/com/cityuge/dataconvert/DataConvert.java:96-105 | Reading all rows fails exactly when one row fails. Otherwise record i is the one row i gives. |
| Reduction.Reduce | src/main/java/com/cityuge/dataconvert/DataConvert.java:92-114 | A file is skipped exactly when it has no rows. A written document has one record per row. |
| Reduction.ReduceMeaning | src/main/java/com/cityuge/dataconvert/DataConvert.java:92-114 | No rows: no document. The run aborts exactly when a row cannot be read or the last row's credit is not a number. Otherwise there is one record per row, in row order, read from that row (`webEnabled` exactly when column 8 is "true"). Code, credit, department, levels and title come from the last row. |
| Reduction.ReduceNonEmpty | src/main/java/com/cityuge/dataconvert/DataConvert.java:106-114 | A file with rows either gives a document or aborts. |
| Reduction.ReduceFile | src/main/java/com/cityuge/dataconvert/DataConvert.java:92-117 | The reading loop with `prevLine` gives exactly `Reduce` of the rows. |
| Reduction.ProductNameOfCode | src/main/java/com/cityuge/dataconvert/DataConvert.java:89 | The product of `<code>.csv` is the lower-cased code, with any inner ".csv" replaced, followed by ".json". |
| Reduction.ProductName | src/main/java/com/cityuge/dataconvert/DataConvert.java:89 | No product name contains an upper-case ASCII letter. |
| DataConvert.CsvFiles | src/main/java/com/cityuge/dataconvert/DataConvert.java:45-46 | The filtered files are exactly the walked files whose name ends in ".csv". |
| DataConvert.CsvFilesCount | src/main/java/com/cityuge/dataconvert/DataConvert.java:45-46 | Each `*.csv` file is kept as many times as the walk found it, and no other file is kept. |
| DataConvert.CsvFilesAppend | src/main/java/com/cityuge/dataconvert/DataConvert.java:45-46 | The filter works file by file in walk order, keeping exactly the `*.csv` files. |
| DataConvert.SnapshotLeOrder | src/main/java/com/cityuge/dataconvert/DataConvert.java:47-54 | The corrected snapshot order, by instant with null counting as 0, is a total preorder. |
| DataConvert.Arrange | src/main/java/com/cityuge/dataconvert/DataConvert.java:45-54 | The arranged snapshots are a permutation of the filtered files. |
| DataConvert.ArrangeMeaning | src/main/java/com/cityuge/dataconvert/DataConvert.java:45-54 | The arranged snapshots are the `*.csv` files of the walk, each as many times as found. They are non-decreasing in instant among the names that parse. |
| DataConvert.ArrangeStable | src/main/java/com/cityuge/dataconvert/DataConvert.java:45-54 | Snapshots with the same instant, or without one, keep their walk order. |
| DataConvert.ArrangeFollowsComparator | src/main/java/com/cityuge/dataconvert/DataConvert.java:47-54 | When every name parses, no snapshot comes after one the comparator ranks above it. |
| DataConvert.ArrangeProcessable | src/main/java/com/cityuge/dataconvert/DataConvert.java:55-79 | Stage 1 gets through the arranged snapshots exactly when it gets through each `*.csv` file. |
| DataConvert.ProductOfCourse | src/main/java/com/cityuge/dataconvert/DataConvert.java:89-114 | A course whose product name is its own gets the document its intermediate file reduces to. |
| DataConvert.ProductNamesCaseBlind | src/main/java/com/cityuge/dataconvert/DataConvert.java:89 | Codes equal up to the case of ASCII letters (such as "CS1001" and "cs1001") share one product file. This assumes the default locale lowers ASCII letters the standard way, which Java's Turkish and Azeri locales do not (they lower 'I' to 'ı'). |
| DataConvert.DocumentsAdd | src/main/java/com/cityuge/dataconvert/DataConvert.java:85-117 | Writing one more course's document keeps the products a reduction of the files handled so far. |
| DataConvert.IntermediateRows | src/main/java/com/cityuge/dataconvert/DataConvert.java:55-79 | After stage 1, a course's file holds its rows over the arranged snapshots, and at least one. |
| DataConvert.IntermediateShape | src/main/java/com/cityuge/dataconvert/DataConvert.java:45-79 | Over nine-column snapshots, a course's file has ten columns per row and non-decreasing readable times. |
| DataConvert.WrittenTimes | src/main/java/com/cityuge/dataconvert/DataConvert.java:102 | On ten-column rows, record i's timestamp is the time row i carries. |
| DataConvert.CourseTimeline | src/main/java/com/cityuge/dataconvert/DataConvert.java:45-121 | In a run that ends normally, every course gets a document. It has one record per row over the snapshots, with non-decreasing timestamps. |
| DataConvert.WriteProducts | src/main/java/com/cityuge/dataconvert/DataConvert.java:83-121 | Succeeds exactly when no course aborts. The products are then one document per product name, each the reduction of a course with that name. |
| DataConvert.Convert | src/main/java/com/cityuge/dataconvert/DataConvert.java:34-124 | The run ends normally exactly when `Succeeds`: every snapshot gets through, some intermediate file exists, and no course aborts. The products are then the reductions of the intermediate files. |

## Left out

- The file system: walking, glob matching, creating directories and `deleteFolder` (lines
  41-42, 153-165). A walk is a sequence of snapshots with names and rows. Nothing outside the
  walk result is modelled: not directories whose names end in ".csv", not codes that are
  several path components, and not the `products/` and `intermediates/` directories inside the
  walked tree.
- The order `Files.walk` produces is unspecified. It is the order of the input sequence, and
  stage 2 chooses the next file with `:|`.
- opencsv quoting, escaping and line reading (`CSVReader`, `CSVWriter`): a file is already a
  sequence of rows. Gson serialisation (line 114): the model stops at the `CourseAddDropLog`
  value.
- `GregorianCalendar` and the time zone: `getTimeInMillis` is the parameter
  `millis: DateFields -> Long`. `OrderPreserving` is a hypothesis of the order lemmas, and the
  lenient roll-over of out-of-range fields is not modelled.
- Sorting.SortStable: `Stream.sorted` promises stability only for ordered streams. The stream
  from `Files.walk` reports no encounter order, so the library promises none here. The model
  sorts stably, as the JDK's sequential sort of that stream does.
- TimSort's behaviour on a comparator that breaks its contract. The model sorts stably by the
  corrected order (see Findings) and ties it to the comparator only when every name parses.
- SnapshotOrder.OrderPreserving: an idealisation that Java's `GregorianCalendar` does not meet in
  any time zone. It assumes later valid dates (years 0 to the int maximum) are later instants.
  Three things break that:
  - the switch from the Julian calendar puts 1582-10-10 after 1582-10-15;
  - the millisecond count overflows a `long` for years past about 292 million;
  - daylight saving moves times in the spring gap past later times.

  `CompareIsDateOrder` and `CompareNotTransitive` assume it, so they describe the comparator
  only where instants follow the calendar. `CountedMillis` shows the assumption can be met.
- JavaText.LowerAscii: `toLowerCase` is modelled for ASCII letters only. The default locale is
  assumed to lower ASCII letters the standard way; Java's Turkish and Azeri locales lower 'I' to
  'ı' (U+0131), so there "CI101.csv" gives "cı101.json".
- JavaText.StringLe: the model compares `char` values (Unicode scalar values), where Java's
  `compareTo` compares UTF-16 code units. The two orders differ only between supplementary characters and the characters from
  U+E000 to U+FFFF.
- JavaText.ParseInteger: only ASCII digits are accepted. Java's `Character.digit` also accepts
  other Unicode decimal digits, such as "٣". A row with such digits aborts the model's run,
  where Java reads it as a number.
- Logging (`System.out`, `printStackTrace`) and the missing-argument message (lines 35-38).
- Pivot.Intermediates.AddSnapshot: on `false` the rows appended before the failing row stay in
  the directory. The contract says nothing about the directory then, because the run ends there.
- Pivot.Intermediates.PivotSnapshots: on `false` the directory is left unspecified for the same
  reason.
- DataConvert.WriteProducts: on `false` the documents written before the failing course stay,
  but the contract does not describe them. It requires every intermediate file to hold a row,
  which stage 1 guarantees (`Pivot.PivotAllNonEmpty`). The empty product file that `FileWriter`
  creates for a course before reading it (line 91) is not modelled.
- DataConvert.Convert: on `false` the products written so far are not described.
- `IOException`s caught at lines 76 and 118 (an unreadable or unwritable file) are not modelled.
  Every file is readable and writable.

## Findings

| source | as written | input that shows it | evidently intended | confidence | as-written member | corrected member |
|---|---|---|---|---|---|---|
| src/main/java/com/cityuge/dataconvert/DataConvert.java:47-54 | The comparator returns 0 when either name does not parse, so an unparsed name is "equal" to every snapshot and the comparator is not transitive. `Stream.sorted` may then order the snapshots arbitrarily or throw "Comparison method violates its general contract". | "2020-01-01_00-00-02.csv", "notes.csv" (header only), "2020-01-01_00-00-01.csv" | A total order: snapshots by instant, names without a timestamp at a fixed place | medium; not executed | SnapshotOrder.SampleNotTransitive | DataConvert.ArrangeMeaning |
