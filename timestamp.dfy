/** Reading the snapshot time out of a file name, and the comparator that orders the snapshot
    files by it. The name must match `(\d+)-(\d+)-(\d+)_(\d+)-(\d+)-(\d+).*` as a whole. */
module SnapshotOrder {
  import opened JavaText

  /** The six calendar fields handed to `new GregorianCalendar(...)`; `month` is 0-based. */
  datatype DateFields = DateFields(year: int, month: int, day: int, hour: int, minute: int, second: int)

  /** What `parseTimestampInFileName` does with a name: a calendar, null, or a
      NumberFormatException from `Integer.parseInt` on a digit group beyond the int range. */
  datatype NameParse = Stamp(fields: DateFields) | NoMatch | NumberFormatError

  // ---------------------------------------------------------------------------
  // The regular expression
  // ---------------------------------------------------------------------------

  /** The characters Java's `.` does not match when neither DOTALL nor UNIX_LINES is set. */
  predicate IsLineTerminator(c: char) {
    c == '\n' || c == '\r' || c == '\U{0085}' || c == '\U{2028}' || c == '\U{2029}'
  }

  predicate NoLineTerminator(s: string) {
    forall i :: 0 <= i < |s| ==> !IsLineTerminator(s[i])
  }

  predicate DigitGroups(groups: seq<string>) {
    forall i :: 0 <= i < |groups| ==> |groups[i]| > 0 && AllDigits(groups[i])
  }

  /** The separators between the six groups. */
  const Separators: string := "--_--"

  /** The text that a list of groups with the separators between them spells. */
  function Interleave(groups: seq<string>, seps: string): string
    requires |groups| == |seps| + 1
  {
    if |seps| == 0 then groups[0] else groups[0] + [seps[0]] + Interleave(groups[1..], seps[1..])
  }

  /** The longest run of digits at the start of `s`: what a greedy `\d+` takes. */
  function DigitRun(s: string): (d: string)
    ensures |d| <= |s| && d == s[..|d|] && AllDigits(d)
    ensures |d| == |s| || !IsDigit(s[|d|])
  {
    if |s| == 0 || !IsDigit(s[0]) then "" else [s[0]] + DigitRun(s[1..])
  }

  lemma {:induction false} DigitRunAppend(d: string, r: string)
    requires AllDigits(d)
    ensures DigitRun(d + r) == d + DigitRun(r)
  {
    if |d| > 0 {
      var whole := d + r;
      assert whole[0] == d[0] && IsDigit(whole[0]);
      assert whole[1..] == d[1..] + r;
      assert AllDigits(d[1..]) by {
        assert forall i :: 0 <= i < |d[1..]| ==> d[1..][i] == d[i + 1];
      }
      DigitRunAppend(d[1..], r);
      assert DigitRun(whole) == [d[0]] + (d[1..] + DigitRun(r));
      assert d == [d[0]] + d[1..];
    } else {
      assert d + r == r;
    }
  }

  /** Matches `(\d+)` followed, for each separator in `seps`, by that separator and another
      `(\d+)`, and then `.*` up to the end of `s`. Groups and separators are disjoint character
      classes, so the only choice the matcher has is where the last group ends, and greedy
      matching takes the longest digit run. */
  function MatchFrom(s: string, seps: string): (r: Option<seq<string>>)
    ensures r.Some? ==> |r.value| == |seps| + 1
  {
    var d := DigitRun(s);
    if |d| == 0 then None
    else if |seps| == 0 then
      if NoLineTerminator(s[|d|..]) then Some([d]) else None
    else if |d| < |s| && s[|d|] == seps[0] then
      match MatchFrom(s[|d| + 1..], seps[1..])
      case None => None
      case Some(g) => Some([d] + g)
    else None
  }

  /** `s` consists of the groups with the separators between them, then text without line
      terminators that does not go on with a digit. */
  predicate Spells(s: string, groups: seq<string>, seps: string)
    requires |groups| == |seps| + 1
  {
    && DigitGroups(groups)
    && var w := Interleave(groups, seps);
       && |w| <= |s| && s[..|w|] == w
       && NoLineTerminator(s[|w|..])
       && (|w| == |s| || !IsDigit(s[|w|]))
  }

  lemma SpellsNext(s: string, d: string, groups: seq<string>, seps: string)
    requires |seps| > 0 && |groups| == |seps|
    requires |d| > 0 && AllDigits(d) && |d| < |s| && s[..|d|] == d && s[|d|] == seps[0]
    requires Spells(s[|d| + 1..], groups, seps[1..])
    ensures Spells(s, [d] + groups, seps)
  {
    var s' := s[|d| + 1..];
    var g := [d] + groups;
    assert g[1..] == groups;
    var w' := Interleave(groups, seps[1..]);
    assert Interleave(g, seps) == d + [seps[0]] + w';
    assert s == d + [seps[0]] + s';
  }

  /** What a match found: digit groups, the separators between them, then text without line
      terminators that does not go on with a digit. */
  lemma {:induction false} MatchFromSound(s: string, seps: string)
    requires MatchFrom(s, seps).Some?
    ensures Spells(s, MatchFrom(s, seps).value, seps)
  {
    var d := DigitRun(s);
    if |seps| > 0 {
      var s' := s[|d| + 1..];
      MatchFromSound(s', seps[1..]);
      SpellsNext(s, d, MatchFrom(s', seps[1..]).value, seps);
    }
  }

  /** Every name of the shape the pattern describes is matched; when the text after the last
      group does not go on with a digit, the groups found are exactly the ones it was built from. */
  lemma {:induction false} MatchFromComplete(groups: seq<string>, seps: string, t: string)
    requires forall i :: 0 <= i < |seps| ==> !IsDigit(seps[i])
    requires |groups| == |seps| + 1 && DigitGroups(groups)
    requires NoLineTerminator(t)
    ensures MatchFrom(Interleave(groups, seps) + t, seps).Some?
    ensures |t| == 0 || !IsDigit(t[0]) ==> MatchFrom(Interleave(groups, seps) + t, seps) == Some(groups)
  {
    if |seps| == 0 {
      MatchLastGroup(groups[0], t);
      assert groups == [groups[0]];
    } else {
      TailsWellFormed(groups, seps);
      MatchFromComplete(groups[1..], seps[1..], t);
      MatchNextComplete(groups, seps, t);
    }
  }

  lemma {:induction false} MatchNextComplete(groups: seq<string>, seps: string, t: string)
    requires |seps| > 0 && !IsDigit(seps[0])
    requires |groups| == |seps| + 1 && |groups[0]| > 0 && AllDigits(groups[0])
    requires MatchFrom(Interleave(groups[1..], seps[1..]) + t, seps[1..]).Some?
    requires |t| == 0 || !IsDigit(t[0]) ==> MatchFrom(Interleave(groups[1..], seps[1..]) + t, seps[1..]) == Some(groups[1..])
    ensures MatchFrom(Interleave(groups, seps) + t, seps).Some?
    ensures |t| == 0 || !IsDigit(t[0]) ==> MatchFrom(Interleave(groups, seps) + t, seps) == Some(groups)
  {
    var rest := Interleave(groups[1..], seps[1..]) + t;
    InterleaveFront(groups, seps, t);
    MatchNextGroup(groups[0], seps, rest);
    assert groups == [groups[0]] + groups[1..];
  }

  lemma InterleaveFront(groups: seq<string>, seps: string, t: string)
    requires |seps| > 0 && |groups| == |seps| + 1
    ensures Interleave(groups, seps) + t == groups[0] + ([seps[0]] + (Interleave(groups[1..], seps[1..]) + t))
  {
  }

  lemma TailsWellFormed(groups: seq<string>, seps: string)
    requires |seps| > 0 && forall i :: 0 <= i < |seps| ==> !IsDigit(seps[i])
    requires |groups| == |seps| + 1 && DigitGroups(groups)
    ensures forall i :: 0 <= i < |seps[1..]| ==> !IsDigit(seps[1..][i])
    ensures DigitGroups(groups[1..])
  {
  }

  lemma MatchLastGroup(g: string, t: string)
    requires |g| > 0 && AllDigits(g) && NoLineTerminator(t)
    ensures MatchFrom(g + t, "").Some?
    ensures |t| == 0 || !IsDigit(t[0]) ==> MatchFrom(g + t, "") == Some([g])
  {
    DigitRunAppend(g, t);
    var d := DigitRun(g + t);
    assert (g + t)[|d|..] == t[|DigitRun(t)|..];
  }

  lemma MatchNextGroup(g: string, seps: string, rest: string)
    requires |seps| > 0 && !IsDigit(seps[0])
    requires |g| > 0 && AllDigits(g)
    ensures MatchFrom(g + ([seps[0]] + rest), seps)
         == match MatchFrom(rest, seps[1..]) case None => None case Some(gs) => Some([g] + gs)
  {
    var s := g + ([seps[0]] + rest);
    DigitRunAppend(g, [seps[0]] + rest);
    assert DigitRun(s) == g;
    assert s[|g|] == seps[0];
    assert s[|g| + 1..] == rest;
  }

  function MatchTimestamp(name: string): Option<seq<string>> {
    MatchFrom(name, Separators)
  }

  // ---------------------------------------------------------------------------
  // parseTimestampInFileName
  // ---------------------------------------------------------------------------

  /** `Integer.parseInt` of a digit group fails only when the group's value exceeds the int range. */
  lemma ParseGroup(s: string)
    requires |s| > 0 && AllDigits(s)
    ensures ParseInt(s) == if DigitsValue(s) <= IntMax then Some(DigitsValue(s)) else None
  {
  }

  /** Every group's value is within the int range. */
  predicate GroupsFitInt(g: seq<string>)
    requires DigitGroups(g)
  {
    forall i :: 0 <= i < |g| ==> DigitsValue(g[i]) <= IntMax
  }

  /** Lines 136-143: the six groups given to `Integer.parseInt` in order, the month shifted from
      the 1-based month of the name to the 0-based month of `GregorianCalendar`. */
  function FieldsOfGroups(g: seq<string>): (r: NameParse)
    requires |g| == 6 && DigitGroups(g)
    ensures !r.NoMatch?
  {
    var year, month, day := ParseInt(g[0]), ParseInt(g[1]), ParseInt(g[2]);
    var hour, minute, second := ParseInt(g[3]), ParseInt(g[4]), ParseInt(g[5]);
    if year.Some? && month.Some? && day.Some? && hour.Some? && minute.Some? && second.Some? then
      Stamp(DateFields(year.value, month.value - 1, day.value, hour.value, minute.value, second.value))
    else NumberFormatError
  }

  /** The groups are read as numbers exactly when each fits in an int, and then the fields are
      their values in order, the month made 0-based. */
  lemma FieldsOfGroupsMeaning(g: seq<string>)
    requires |g| == 6 && DigitGroups(g)
    ensures FieldsOfGroups(g).NumberFormatError? <==> !GroupsFitInt(g)
    ensures FieldsOfGroups(g).Stamp? ==>
      FieldsOfGroups(g).fields == DateFields(DigitsValue(g[0]), DigitsValue(g[1]) - 1, DigitsValue(g[2]),
                                             DigitsValue(g[3]), DigitsValue(g[4]), DigitsValue(g[5]))
  {
    ParseGroup(g[0]); ParseGroup(g[1]); ParseGroup(g[2]);
    ParseGroup(g[3]); ParseGroup(g[4]); ParseGroup(g[5]);
  }

  /** `parseTimestampInFileName`: null when the name does not match, otherwise the fields of the
      six groups. */
  function ParseTimestampInFileName(name: string): (r: NameParse)
    ensures r.NoMatch? <==> MatchTimestamp(name).None?
  {
    match MatchTimestamp(name)
    case None => NoMatch
    case Some(g) =>
      MatchFromSound(name, Separators);
      FieldsOfGroups(g)
  }

  /** A name that is six digit groups joined by `-`, `-`, `_`, `-`, `-`, followed by any text
      without line terminators that does not go on with a digit, is read as those six numbers
      (month made 0-based), provided each fits in an int. */
  lemma TimestampOfName(groups: seq<string>, rest: string)
    requires |groups| == 6 && DigitGroups(groups)
    requires GroupsFitInt(groups)
    requires NoLineTerminator(rest) && (|rest| == 0 || !IsDigit(rest[0]))
    ensures ParseTimestampInFileName(Interleave(groups, Separators) + rest)
         == Stamp(DateFields(DigitsValue(groups[0]), DigitsValue(groups[1]) - 1, DigitsValue(groups[2]),
                             DigitsValue(groups[3]), DigitsValue(groups[4]), DigitsValue(groups[5])))
  {
    MatchFromComplete(groups, Separators, rest);
    FieldsOfGroupsMeaning(groups);
  }

  /** Only a name of that shape is read as anything but null. */
  lemma MatchedNameIsShaped(name: string)
    requires !ParseTimestampInFileName(name).NoMatch?
    ensures exists groups, rest ::
      |groups| == 6 && DigitGroups(groups) && NoLineTerminator(rest) && name == Interleave(groups, Separators) + rest
  {
    MatchFromSound(name, Separators);
    var g := MatchTimestamp(name).value;
    var w := Interleave(g, Separators);
    assert name == w + name[|w|..];
  }

  // ---------------------------------------------------------------------------
  // The comparator given to Stream.sorted
  // ---------------------------------------------------------------------------

  /** `Long.compare`, which `Calendar.compareTo` returns on the two instants. */
  function Sign(x: int): int {
    if x < 0 then -1 else if x == 0 then 0 else 1
  }

  /** The comparator's body on the two parse results (null or a calendar, or the exception). */
  function CompareParsed(millis: DateFields -> Long, pa: NameParse, pb: NameParse): (r: Option<int>)
    ensures r.None? <==> pa.NumberFormatError? || pb.NumberFormatError?
    ensures r.Some? ==> -1 <= r.value <= 1
  {
    if pa.NumberFormatError? || pb.NumberFormatError? then None
    else if pa.Stamp? && pb.Stamp? then Some(Sign(millis(pa.fields) - millis(pb.fields)))
    else Some(0)
  }

  /** The comparator. `millis` is `Calendar.getTimeInMillis` for the process's time zone.
      `None` stands for the NumberFormatException thrown by either parse. */
  function CompareNames(millis: DateFields -> Long, a: string, b: string): (r: Option<int>)
    ensures r.None? <==>
      ParseTimestampInFileName(a).NumberFormatError? || ParseTimestampInFileName(b).NumberFormatError?
    ensures r.Some? && (ParseTimestampInFileName(a).NoMatch? || ParseTimestampInFileName(b).NoMatch?) ==>
      r.value == 0
  {
    CompareParsed(millis, ParseTimestampInFileName(a), ParseTimestampInFileName(b))
  }

  function Negated(r: Option<int>): Option<int> {
    match r
    case None => None
    case Some(c) => Some(-c)
  }

  lemma CompareParsedSwap(millis: DateFields -> Long, pa: NameParse, pb: NameParse)
    ensures CompareParsed(millis, pb, pa) == Negated(CompareParsed(millis, pa, pb))
  {
    if pa.Stamp? && pb.Stamp? {
      var x := millis(pa.fields) - millis(pb.fields);
      assert Sign(-x) == -Sign(x);
    }
  }

  /** Swapping the arguments negates the result, as the Comparator contract asks. */
  lemma CompareNamesSwap(millis: DateFields -> Long, a: string, b: string)
    ensures CompareNames(millis, b, a) == Negated(CompareNames(millis, a, b))
  {
    CompareParsedSwap(millis, ParseTimestampInFileName(a), ParseTimestampInFileName(b));
  }

  /** A name that cannot be read compares equal to every name that does not throw. */
  lemma CompareUnparsedIsZero(millis: DateFields -> Long, a: string, b: string)
    requires ParseTimestampInFileName(a).NoMatch?
    requires !ParseTimestampInFileName(b).NumberFormatError?
    ensures CompareNames(millis, a, b) == Some(0) && CompareNames(millis, b, a) == Some(0)
  {
  }

  /** A name that does not start with a digit is read as null. */
  lemma NoLeadingDigit(name: string)
    requires |name| == 0 || !IsDigit(name[0])
    ensures ParseTimestampInFileName(name) == NoMatch
  {
    assert DigitRun(name) == "";
  }

  /** The digit groups of the two sample names below. */
  lemma SampleGroups()
    ensures DigitsValue("2020") == 2020 && DigitsValue("01") == 1
    ensures DigitsValue("00") == 0 && DigitsValue("02") == 2
  {
    assert "2020"[..3] == "202" && "202"[..2] == "20" && "20"[..1] == "2" && "2"[..0] == "";
    assert "01"[..1] == "0" && "00"[..1] == "0" && "02"[..1] == "0" && "0"[..0] == "";
  }

  lemma LaterSpelling()
    ensures Interleave(["2020", "01", "01", "00", "00", "02"], Separators) + ".csv" == "2020-01-01_00-00-02.csv"
  {
  }

  lemma LaterSample()
    ensures ParseTimestampInFileName("2020-01-01_00-00-02.csv") == Stamp(DateFields(2020, 0, 1, 0, 0, 2))
  {
    var g := ["2020", "01", "01", "00", "00", "02"];
    SampleGroups();
    assert DigitGroups(g) && GroupsFitInt(g);
    LaterSpelling();
    TimestampOfName(g, ".csv");
  }

  lemma EarlierSpelling()
    ensures Interleave(["2020", "01", "01", "00", "00", "01"], Separators) + ".csv" == "2020-01-01_00-00-01.csv"
  {
  }

  lemma EarlierSample()
    ensures ParseTimestampInFileName("2020-01-01_00-00-01.csv") == Stamp(DateFields(2020, 0, 1, 0, 0, 1))
  {
    var g := ["2020", "01", "01", "00", "00", "01"];
    SampleGroups();
    assert DigitGroups(g) && GroupsFitInt(g);
    EarlierSpelling();
    TimestampOfName(g, ".csv");
  }

  /** The comparator breaks the Comparator contract as soon as one name does not match: that
      name is "equal" to two names that are not equal to each other. `LaterSample`,
      `EarlierSample` and `NoLeadingDigit` give such names: "2020-01-01_00-00-02.csv",
      "2020-01-01_00-00-01.csv" and "notes.csv". */
  lemma CompareNotTransitive(millis: DateFields -> Long, later: string, stray: string, earlier: string)
    requires OrderPreserving(millis)
    requires ParseTimestampInFileName(later).Stamp? && ValidDate(ParseTimestampInFileName(later).fields)
    requires ParseTimestampInFileName(earlier).Stamp? && ValidDate(ParseTimestampInFileName(earlier).fields)
    requires DateBefore(ParseTimestampInFileName(earlier).fields, ParseTimestampInFileName(later).fields)
    requires ParseTimestampInFileName(stray).NoMatch?
    ensures CompareNames(millis, later, stray) == Some(0)
    ensures CompareNames(millis, stray, earlier) == Some(0)
    ensures CompareNames(millis, later, earlier) == Some(1)
  {
    CompareIsDateOrder(millis, later, earlier);
  }

  /** Names read as the two sample dates and a name read as null break transitivity under an
      instant function that meets `OrderPreserving`. `LaterSample`, `EarlierSample` and
      `NoLeadingDigit` show that "2020-01-01_00-00-02.csv", "2020-01-01_00-00-01.csv" and
      "notes.csv" are such names. */
  lemma SampleNotTransitive(later: string, stray: string, earlier: string)
    requires ParseTimestampInFileName(later) == Stamp(DateFields(2020, 0, 1, 0, 0, 2))
    requires ParseTimestampInFileName(stray) == NoMatch
    requires ParseTimestampInFileName(earlier) == Stamp(DateFields(2020, 0, 1, 0, 0, 1))
    ensures CompareNames(CountedMillis, later, stray) == Some(0)
    ensures CompareNames(CountedMillis, stray, earlier) == Some(0)
    ensures CompareNames(CountedMillis, later, earlier) == Some(1)
  {
    CountedMillisPreservesOrder();
    CompareNotTransitive(CountedMillis, later, stray, earlier);
  }

  /** The sort key: the instant of a name that parses, 0 for any other. */
  function StampKey(millis: DateFields -> Long, name: string): int {
    match ParseTimestampInFileName(name)
    case Stamp(f) => millis(f)
    case _ => 0
  }

  /** Among names that all parse, ordering by the key is ordering by the comparator. */
  lemma StampKeyAgreesWithCompare(millis: DateFields -> Long, a: string, b: string)
    requires ParseTimestampInFileName(a).Stamp? && ParseTimestampInFileName(b).Stamp?
    ensures CompareNames(millis, a, b).Some?
    ensures StampKey(millis, a) <= StampKey(millis, b) <==> CompareNames(millis, a, b).value <= 0
  {
  }

  // ---------------------------------------------------------------------------
  // Instants as an order-preserving function of the fields
  // ---------------------------------------------------------------------------

  predicate IsLeapYear(y: int) {
    (y % 4 == 0 && y % 100 != 0) || y % 400 == 0
  }

  function DaysInMonth(year: int, month: int): int
    requires 0 <= month < 12
  {
    if month == 1 then (if IsLeapYear(year) then 29 else 28)
    else if month == 3 || month == 5 || month == 8 || month == 10 then 30
    else 31
  }

  /** Fields that a non-lenient calendar would accept as they are (month 0-based), in a year
      the parser can produce (a group is unsigned and at most the int maximum). */
  predicate ValidDate(f: DateFields) {
    && 0 <= f.year <= IntMax
    && 0 <= f.month < 12
    && 1 <= f.day <= DaysInMonth(f.year, f.month)
    && 0 <= f.hour < 24 && 0 <= f.minute < 60 && 0 <= f.second < 60
  }

  /** Lexicographic order of (year, month, day, hour, minute, second). */
  predicate DateBefore(f: DateFields, g: DateFields) {
    || f.year < g.year
    || (f.year == g.year && f.month < g.month)
    || (f.year == g.year && f.month == g.month && f.day < g.day)
    || (f.year == g.year && f.month == g.month && f.day == g.day && f.hour < g.hour)
    || (f.year == g.year && f.month == g.month && f.day == g.day && f.hour == g.hour && f.minute < g.minute)
    || (f.year == g.year && f.month == g.month && f.day == g.day && f.hour == g.hour && f.minute == g.minute
        && f.second < g.second)
  }

  /** An idealised time zone: later valid dates are later instants. `GregorianCalendar` does not
      meet it in any time zone (the Julian-Gregorian switch of October 1582, daylight saving,
      and overflow for years past about 292 million); the lemmas that assume it describe the
      comparator where instants follow the calendar. */
  ghost predicate OrderPreserving(millis: DateFields -> Long) {
    forall f, g :: ValidDate(f) && ValidDate(g) && DateBefore(f, g) ==> millis(f) < millis(g)
  }

  // A time zone that meets `OrderPreserving`: seconds counted in the order of the fields.

  /** `a * radix + b`, one more digit of a mixed-radix number. */
  function Shift(a: int, radix: int, b: int): int {
    a * radix + b
  }

  lemma ShiftLess(a: int, a': int, radix: int, b: int, b': int)
    requires 0 <= b < radix && 0 <= b' < radix
    requires a < a' || (a == a' && b < b')
    ensures Shift(a, radix, b) < Shift(a', radix, b')
  {
    if a < a' {
      var d := a' - a;
      assert d * radix >= radix by {
        assert (d - 1) * radix >= 0;
        assert d * radix == (d - 1) * radix + radix;
      }
      assert a' * radix == a * radix + d * radix;
    }
  }

  lemma ShiftBound(a: int, top: int, radix: int, b: int)
    requires 0 <= a <= top && 0 <= b < radix
    ensures 0 <= Shift(a, radix, b) <= top * radix + radix - 1
  {
    assert (top - a) * radix >= 0;
    assert top * radix - a * radix == (top - a) * radix;
  }

  /** The fields of a valid date as one number: a second count with 32-day months. */
  function Seconds(f: DateFields): int {
    Shift(Shift(Shift(Shift(Shift(f.year, 12, f.month), 32, f.day), 24, f.hour), 60, f.minute), 60, f.second)
  }

  lemma SecondsBound(f: DateFields)
    requires ValidDate(f)
    ensures 0 <= Seconds(f) <= LongMax
  {
    var m := Shift(f.year, 12, f.month);
    ShiftBound(f.year, IntMax, 12, f.month);
    var d := Shift(m, 32, f.day);
    ShiftBound(m, 25769803775, 32, f.day);
    var h := Shift(d, 24, f.hour);
    ShiftBound(d, 824633720831, 24, f.hour);
    var mi := Shift(h, 60, f.minute);
    ShiftBound(h, 19791209299967, 60, f.minute);
    ShiftBound(mi, 1187472557998079, 60, f.second);
  }

  lemma SecondsMonotone(f: DateFields, g: DateFields)
    requires ValidDate(f) && ValidDate(g) && DateBefore(f, g)
    ensures Seconds(f) < Seconds(g)
  {
    var mf, mg := Shift(f.year, 12, f.month), Shift(g.year, 12, g.month);
    var df, dg := Shift(mf, 32, f.day), Shift(mg, 32, g.day);
    var hf, hg := Shift(df, 24, f.hour), Shift(dg, 24, g.hour);
    var nf, ng := Shift(hf, 60, f.minute), Shift(hg, 60, g.minute);
    if f.year != g.year || f.month != g.month {
      ShiftLess(f.year, g.year, 12, f.month, g.month);
      ShiftLess(mf, mg, 32, f.day, g.day);
      ShiftLess(df, dg, 24, f.hour, g.hour);
      ShiftLess(hf, hg, 60, f.minute, g.minute);
      ShiftLess(nf, ng, 60, f.second, g.second);
    } else if f.day != g.day {
      ShiftLess(mf, mg, 32, f.day, g.day);
      ShiftLess(df, dg, 24, f.hour, g.hour);
      ShiftLess(hf, hg, 60, f.minute, g.minute);
      ShiftLess(nf, ng, 60, f.second, g.second);
    } else if f.hour != g.hour {
      ShiftLess(df, dg, 24, f.hour, g.hour);
      ShiftLess(hf, hg, 60, f.minute, g.minute);
      ShiftLess(nf, ng, 60, f.second, g.second);
    } else if f.minute != g.minute {
      ShiftLess(hf, hg, 60, f.minute, g.minute);
      ShiftLess(nf, ng, 60, f.second, g.second);
    } else {
      ShiftLess(nf, ng, 60, f.second, g.second);
    }
  }

  /** An instant function in the model's sense: the second count of a valid date, 0 otherwise. */
  function CountedMillis(f: DateFields): (r: Long)
    ensures ValidDate(f) ==> r == Seconds(f)
  {
    if ValidDate(f) then SecondsBound(f); Seconds(f) else 0
  }

  /** `OrderPreserving` can be met, so the lemmas that assume it are not vacuous. */
  lemma CountedMillisPreservesOrder()
    ensures OrderPreserving(CountedMillis)
  {
    forall f, g | ValidDate(f) && ValidDate(g) && DateBefore(f, g)
      ensures CountedMillis(f) < CountedMillis(g)
    {
      SecondsMonotone(f, g);
    }
  }

  /** The calendar order of two dates, as a comparator result. */
  function DateCompare(f: DateFields, g: DateFields): int {
    if DateBefore(f, g) then -1 else if f == g then 0 else 1
  }

  lemma CompareParsedDates(millis: DateFields -> Long, f: DateFields, g: DateFields)
    requires OrderPreserving(millis) && ValidDate(f) && ValidDate(g)
    ensures CompareParsed(millis, Stamp(f), Stamp(g)) == Some(DateCompare(f, g))
  {
    if !DateBefore(f, g) && f != g {
      assert DateBefore(g, f);
    }
  }

  /** For valid dates in an order-preserving time zone the comparator is the calendar order of
      the fields read from the two names. */
  lemma CompareIsDateOrder(millis: DateFields -> Long, a: string, b: string)
    requires OrderPreserving(millis)
    requires ParseTimestampInFileName(a).Stamp? && ParseTimestampInFileName(b).Stamp?
    requires ValidDate(ParseTimestampInFileName(a).fields) && ValidDate(ParseTimestampInFileName(b).fields)
    ensures CompareNames(millis, a, b)
         == Some(DateCompare(ParseTimestampInFileName(a).fields, ParseTimestampInFileName(b).fields))
  {
    CompareParsedDates(millis, ParseTimestampInFileName(a).fields, ParseTimestampInFileName(b).fields);
  }
}
