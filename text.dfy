/** The few pieces of java.lang.String, Integer and Long that DataConvert relies on,
    written out over `string` (a sequence of `char`). */
module JavaText {

  datatype Option<T> = None | Some(value: T)

  const IntMin: int := -0x8000_0000
  const IntMax: int := 0x7FFF_FFFF
  const LongMin: int := -0x8000_0000_0000_0000
  const LongMax: int := 0x7FFF_FFFF_FFFF_FFFF

  /** A value of Java's `long`, as returned by `Calendar.getTimeInMillis`. */
  type Long = x: int | LongMin <= x <= LongMax

  // ---------------------------------------------------------------------------
  // Decimal digits
  // ---------------------------------------------------------------------------

  /** ASCII decimal digit (what `\d` matches without UNICODE_CHARACTER_CLASS). */
  predicate IsDigit(c: char) {
    '0' <= c <= '9'
  }

  predicate AllDigits(s: string) {
    forall i :: 0 <= i < |s| ==> IsDigit(s[i])
  }

  function DigitValue(c: char): (d: nat)
    requires IsDigit(c)
    ensures d < 10
  {
    c as int - '0' as int
  }

  function DigitChar(d: nat): (c: char)
    requires d < 10
    ensures IsDigit(c) && DigitValue(c) == d
  {
    ('0' as int + d) as char
  }

  /** The number a string of decimal digits denotes (most significant digit first). */
  function DigitsValue(s: string): nat
    requires AllDigits(s)
  {
    if |s| == 0 then 0 else 10 * DigitsValue(s[..|s| - 1]) + DigitValue(s[|s| - 1])
  }

  // ---------------------------------------------------------------------------
  // Integer.parseInt / Long.parseLong
  // ---------------------------------------------------------------------------

  /** `Integer.parseInt` (lo, hi = int range) and `Long.parseLong` (long range): an optional
      sign, at least one digit, and a value inside the range; `None` is a NumberFormatException. */
  function ParseInteger(s: string, lo: int, hi: int): (r: Option<int>)
    ensures r.Some? ==> lo <= r.value <= hi
    ensures r.Some? ==> |s| > 0
    ensures r.Some? && s[0] != '-' && s[0] != '+' ==> AllDigits(s) && r.value == DigitsValue(s)
    ensures AllDigits(s) && |s| > 0 && lo <= DigitsValue(s) <= hi ==> r == Some(DigitsValue(s))
    ensures AllDigits(s) && |s| > 0 && DigitsValue(s) > hi ==> r == None
    ensures r.Some? && s[0] == '-' ==> |s| > 1 && AllDigits(s[1..]) && r.value == -(DigitsValue(s[1..]) as int)
    ensures r.Some? && s[0] == '+' ==> |s| > 1 && AllDigits(s[1..]) && r.value == DigitsValue(s[1..])
    ensures |s| > 1 && s[0] == '-' && AllDigits(s[1..]) ==>
      r == if lo <= -(DigitsValue(s[1..]) as int) <= hi then Some(-(DigitsValue(s[1..]) as int)) else None
    ensures |s| > 1 && s[0] == '+' && AllDigits(s[1..]) ==>
      r == if lo <= DigitsValue(s[1..]) <= hi then Some(DigitsValue(s[1..])) else None
  {
    var signed := |s| > 0 && (s[0] == '-' || s[0] == '+');
    var digits := if signed then s[1..] else s;
    if |digits| == 0 || !AllDigits(digits) then None
    else
      var v: int := if |s| > 0 && s[0] == '-' then -(DigitsValue(digits) as int) else DigitsValue(digits);
      if lo <= v <= hi then Some(v) else None
  }

  function ParseInt(s: string): Option<int> {
    ParseInteger(s, IntMin, IntMax)
  }

  function ParseLong(s: string): Option<int> {
    ParseInteger(s, LongMin, LongMax)
  }

  // ---------------------------------------------------------------------------
  // Long.toString
  // ---------------------------------------------------------------------------

  /** The shortest decimal form: no leading zero except in "0" itself. */
  function NatToString(n: nat): (s: string)
    ensures |s| > 0 && AllDigits(s) && DigitsValue(s) == n
    ensures s[0] == '0' <==> n == 0
  {
    if n < 10 then [DigitChar(n)]
    else
      var s := NatToString(n / 10) + [DigitChar(n % 10)];
      assert s[..|s| - 1] == NatToString(n / 10);
      s
  }

  /** `Long.toString`: a minus sign for negative values, then the decimal digits. */
  function IntToString(x: int): (s: string)
    ensures |s| > 0 && (s[0] == '-' <==> x < 0)
    ensures x >= 0 ==> AllDigits(s) && DigitsValue(s) == x
    ensures x < 0 ==> |s| > 1 && AllDigits(s[1..]) && DigitsValue(s[1..]) == -x
    ensures x >= 0 ==> (s[0] == '0' <==> x == 0)
    ensures x < 0 ==> s[1] != '0'
  {
    if x < 0 then "-" + NatToString(-x) else NatToString(x)
  }

  /** `Long.parseLong` reads back what `Long.toString` wrote. */
  lemma ParseIntToString(x: int, lo: int, hi: int)
    requires lo <= x <= hi
    ensures ParseInteger(IntToString(x), lo, hi) == Some(x)
  {
    if x < 0 {
      var s := IntToString(x);
      assert s[1..] == NatToString(-x);
    }
  }

  // ---------------------------------------------------------------------------
  // String.split(",")
  // ---------------------------------------------------------------------------

  /** Every piece between separators, empty pieces included. */
  function SplitAll(s: string, sep: char): (parts: seq<string>)
    ensures |parts| > 0
    ensures forall i :: 0 <= i < |parts| ==> sep !in parts[i]
    ensures sep !in s ==> parts == [s]
  {
    if |s| == 0 then [""]
    else
      var rest := SplitAll(s[1..], sep);
      if s[0] == sep then [""] + rest
      else
        assert s == [s[0]] + s[1..];
        [[s[0]] + rest[0]] + rest[1..]
  }

  function Join(parts: seq<string>, sep: char): string
    requires |parts| > 0
  {
    if |parts| == 1 then parts[0] else parts[0] + [sep] + Join(parts[1..], sep)
  }

  /** Splitting at a separator loses nothing: joining the pieces gives the string back. */
  lemma {:induction false} JoinSplitAll(s: string, sep: char)
    ensures Join(SplitAll(s, sep), sep) == s
  {
    if |s| > 0 {
      var rest := SplitAll(s[1..], sep);
      JoinSplitAll(s[1..], sep);
      if s[0] == sep {
        assert SplitAll(s, sep)[1..] == rest;
      } else {
        var parts := SplitAll(s, sep);
        if |rest| == 1 {
          assert parts == [[s[0]] + rest[0]];
        } else {
          assert parts[1..] == rest[1..];
          assert Join(rest, sep) == rest[0] + [sep] + Join(rest[1..], sep);
        }
      }
    }
  }

  /** Drops the empty strings at the end of a list of pieces. */
  function StripTrailingEmpty(parts: seq<string>): (r: seq<string>)
    ensures |r| <= |parts| && r == parts[..|r|]
    ensures forall i :: |r| <= i < |parts| ==> parts[i] == ""
    ensures |r| == 0 || r[|r| - 1] != ""
  {
    if |parts| > 0 && parts[|parts| - 1] == "" then StripTrailingEmpty(parts[..|parts| - 1])
    else parts
  }

  /** `String.split(String.valueOf(sep))`: with no separator in `s` the result is `s` itself
      (so "" gives [""]); otherwise every piece, with the trailing empty pieces removed. */
  function JavaSplit(s: string, sep: char): (r: seq<string>)
    ensures forall i :: 0 <= i < |r| ==> sep !in r[i]
    ensures sep !in s ==> r == [s]
    ensures sep in s ==>
      var all := SplitAll(s, sep);
      && |r| <= |all| && r == all[..|r|]
      && (forall i :: |r| <= i < |all| ==> all[i] == "")
      && (|r| == 0 || r[|r| - 1] != "")
  {
    if sep !in s then [s] else StripTrailingEmpty(SplitAll(s, sep))
  }

  // ---------------------------------------------------------------------------
  // String.toLowerCase, String.replace
  // ---------------------------------------------------------------------------

  function LowerChar(c: char): char {
    if 'A' <= c <= 'Z' then (c as int + 32) as char else c
  }

  /** `toLowerCase` restricted to ASCII letters, lowered as in a locale other than Turkish or
      Azeri (which lower 'I' to a dotless 'ı'). */
  function LowerAscii(s: string): (r: string)
    ensures |r| == |s|
    ensures forall i :: 0 <= i < |s| ==> r[i] == LowerChar(s[i])
  {
    seq(|s|, i requires 0 <= i < |s| => LowerChar(s[i]))
  }

  /** `String.replace(target, replacement)`: every non-overlapping occurrence, scanning left
      to right. `ReplaceAbsent` and `ReplaceLeftmost` state what it replaces. */
  function ReplaceAll(s: string, target: string, replacement: string): (r: string)
    requires |target| > 0
    ensures forall c :: c in r ==> c in s || c in replacement
  {
    if |s| < |target| then s
    else if s[..|target|] == target then replacement + ReplaceAll(s[|target|..], target, replacement)
    else
      assert s == [s[0]] + s[1..];
      [s[0]] + ReplaceAll(s[1..], target, replacement)
  }

  /** `target` starts at position `i` of `s`. */
  predicate OccursAt(s: string, target: string, i: int) {
    0 <= i && i + |target| <= |s| && s[i..i + |target|] == target
  }

  /** `target` occurs nowhere in `s`. */
  predicate NoOccurrence(s: string, target: string) {
    forall i :: 0 <= i <= |s| ==> !OccursAt(s, target, i)
  }

  /** Text free of `target` stays free of it without its first character. */
  lemma NoOccurrenceTail(s: string, target: string)
    requires |s| > 0 && NoOccurrence(s, target)
    ensures NoOccurrence(s[1..], target)
  {
    forall i | 0 <= i <= |s| - 1 && OccursAt(s[1..], target, i)
      ensures OccursAt(s, target, i + 1)
    {
      assert s[1..][i..i + |target|] == s[i + 1..i + 1 + |target|];
    }
  }

  /** Text without an occurrence of `target` comes back unchanged. */
  lemma {:induction false} ReplaceAbsent(s: string, target: string, replacement: string)
    requires |target| > 0 && NoOccurrence(s, target)
    ensures ReplaceAll(s, target, replacement) == s
  {
    if |s| >= |target| {
      assert !OccursAt(s, target, 0);
      ReplaceSkip(s, target, replacement);
      NoOccurrenceTail(s, target);
      ReplaceAbsent(s[1..], target, replacement);
      assert s == [s[0]] + s[1..];
    }
  }

  /** The leftmost occurrence is replaced, and the scan goes on after it: when no occurrence
      starts inside `a` (not even one reaching into `target`), the text `a` is kept, the
      occurrence becomes `replacement`, and the rest is replaced on its own. Together with
      `ReplaceAbsent` this determines the result on every text. */
  lemma {:induction false} ReplaceLeftmost(a: string, target: string, b: string, replacement: string)
    requires |target| > 0 && NoOccurrence(a + target[..|target| - 1], target)
    ensures ReplaceAll(a + target + b, target, replacement) == a + replacement + ReplaceAll(b, target, replacement)
  {
    var s := a + target + b;
    if |a| == 0 {
      assert s == target + b;
      ReplaceHit(s, target, replacement);
      assert s[|target|..] == b;
    } else {
      var rb := ReplaceAll(b, target, replacement);
      LeftmostStep(a, target, b);
      ReplaceLeftmost(a[1..], target, b, replacement);
      assert a[1..] + replacement + rb == a[1..] + (replacement + rb);
      ReplaceAfterSkip(a, target, b, replacement, replacement + rb);
      assert a + (replacement + rb) == a + replacement + rb;
    }
  }

  /** One character kept before the leftmost occurrence: what the rest is replaced by extends
      to the whole text. */
  lemma ReplaceAfterSkip(a: string, target: string, b: string, replacement: string, tail: string)
    requires |a| > 0 && |target| > 0 && (a + target + b)[..|target|] != target
    requires ReplaceAll(a[1..] + target + b, target, replacement) == a[1..] + tail
    ensures ReplaceAll(a + target + b, target, replacement) == a + tail
  {
    var s := a + target + b;
    assert s[1..] == a[1..] + target + b;
    ReplaceSkip(s, target, replacement);
    assert a == [a[0]] + a[1..];
  }

  /** Before the leftmost occurrence, the scan keeps one character and the condition carries
      over to the rest. */
  lemma LeftmostStep(a: string, target: string, b: string)
    requires |a| > 0 && |target| > 0 && NoOccurrence(a + target[..|target| - 1], target)
    ensures |a + target + b| >= |target| && (a + target + b)[..|target|] != target
    ensures (a + target + b)[1..] == a[1..] + target + b
    ensures NoOccurrence(a[1..] + target[..|target| - 1], target)
  {
    var u := a + target[..|target| - 1];
    assert u[..|target|] == (a + target + b)[..|target|];
    assert !OccursAt(u, target, 0);
    NoOccurrenceTail(u, target);
    assert u[1..] == a[1..] + target[..|target| - 1];
  }

  /** An occurrence at the start is replaced, and the scan resumes after it. */
  lemma ReplaceHit(s: string, target: string, replacement: string)
    requires |target| > 0 && |s| >= |target| && s[..|target|] == target
    ensures ReplaceAll(s, target, replacement) == replacement + ReplaceAll(s[|target|..], target, replacement)
  {
  }

  /** Without an occurrence at the start, the first character is kept. */
  lemma ReplaceSkip(s: string, target: string, replacement: string)
    requires |target| > 0 && |s| >= |target| && s[..|target|] != target
    ensures ReplaceAll(s, target, replacement) == [s[0]] + ReplaceAll(s[1..], target, replacement)
  {
  }

  /** A string ending in ".csv" keeps its ending through the replacement, which turns it into
      ".json": no occurrence that starts earlier can overlap the final one. */
  lemma {:induction false} ReplaceCsvSuffix(s: string)
    ensures ReplaceAll(s + ".csv", ".csv", ".json") == ReplaceAll(s, ".csv", ".json") + ".json"
  {
    var t := s + ".csv";
    if |s| == 0 {
      assert t == ".csv";
    } else if |s| < 4 {
      ShortPrefixNoCsv(s);
      assert t[1..] == s[1..] + ".csv";
      ReplaceCsvSuffix(s[1..]);
    } else {
      assert s[..4] == t[..4];
      if t[..4] == ".csv" {
        assert t[4..] == s[4..] + ".csv";
        ReplaceCsvSuffix(s[4..]);
      } else {
        assert t[1..] == s[1..] + ".csv";
        ReplaceCsvSuffix(s[1..]);
      }
    }
  }

  /** Fewer than four characters before ".csv": the text starts with no occurrence, and what
      follows its first character is too short to hold one. */
  lemma ShortPrefixNoCsv(s: string)
    requires 0 < |s| < 4
    ensures (s + ".csv")[..4] != ".csv"
    ensures ReplaceAll(s[1..], ".csv", ".json") == s[1..]
  {
    var t := s + ".csv";
    if |s| == 1 { assert t[1] == '.'; }
    else if |s| == 2 { assert t[2] == '.'; }
    else { assert t[3] == '.'; }
  }

  // ---------------------------------------------------------------------------
  // String.compareTo
  // ---------------------------------------------------------------------------

  /** `a.compareTo(b) <= 0`: character by character, a proper prefix first. */
  predicate StringLe(a: string, b: string) {
    if |a| == 0 then true
    else if |b| == 0 then false
    else if a[0] != b[0] then a[0] < b[0]
    else StringLe(a[1..], b[1..])
  }

  /** `a` is `b` or a proper prefix of it. */
  predicate IsPrefix(a: string, b: string) {
    |a| <= |b| && a == b[..|a|]
  }

  /** `a` and `b` agree before position `k` and `a` has the smaller character there. */
  predicate SmallerAt(a: string, b: string, k: int) {
    0 <= k < |a| && k < |b| && a[..k] == b[..k] && a[k] < b[k]
  }

  /** `compareTo` is at most 0 exactly when `a` is a prefix of `b` or has the smaller character
      at the first position where they differ. */
  lemma {:induction false} StringLeMeaning(a: string, b: string)
    ensures StringLe(a, b) <==> IsPrefix(a, b) || exists k :: SmallerAt(a, b, k)
  {
    if |a| == 0 {
    } else if |b| == 0 {
    } else if a[0] != b[0] {
      if a[0] < b[0] {
        assert SmallerAt(a, b, 0);
      } else {
        assert forall k :: !SmallerAt(a, b, k);
      }
    } else {
      var a', b' := a[1..], b[1..];
      StringLeMeaning(a', b');
      assert IsPrefix(a, b) <==> IsPrefix(a', b') by {
        if IsPrefix(a', b') {
          assert a == [a[0]] + a' && b[..|a|] == [b[0]] + b'[..|a'|];
        }
      }
      if k' :| SmallerAt(a', b', k') {
        assert a[..k' + 1] == [a[0]] + a'[..k'] && b[..k' + 1] == [b[0]] + b'[..k'];
        assert SmallerAt(a, b, k' + 1);
      }
      if k :| SmallerAt(a, b, k) {
        assert k > 0;
        assert a'[..k - 1] == a[..k][1..] && b'[..k - 1] == b[..k][1..];
        assert SmallerAt(a', b', k - 1);
      }
    }
  }

  lemma {:induction false} StringLeTotal(a: string, b: string)
    ensures StringLe(a, b) || StringLe(b, a)
  {
    if |a| > 0 && |b| > 0 && a[0] == b[0] {
      StringLeTotal(a[1..], b[1..]);
    }
  }

  lemma {:induction false} StringLeAntisymmetric(a: string, b: string)
    requires StringLe(a, b) && StringLe(b, a)
    ensures a == b
  {
    if |a| > 0 && |b| > 0 {
      StringLeAntisymmetric(a[1..], b[1..]);
      assert a == [a[0]] + a[1..] && b == [b[0]] + b[1..];
    }
  }

  lemma {:induction false} StringLeTransitive(a: string, b: string, c: string)
    requires StringLe(a, b) && StringLe(b, c)
    ensures StringLe(a, c)
  {
    if |a| > 0 && |b| > 0 && |c| > 0 && a[0] == b[0] == c[0] {
      StringLeTransitive(a[1..], b[1..], c[1..]);
    }
  }
}
