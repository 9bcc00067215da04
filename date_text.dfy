/**
 * The string side of the date handling: `String(n)`, `padStart`, `split`, `trim`, `Number(...)`,
 * `startsWith` and string `<` as the components use them, the `YYYY-MM-DD` keys built by
 * `formatDateKey`/`formatDateParts`, and the two parsers that read such keys back.
 */
module DateText {
  import opened Wrappers
  import opened Dates

  predicate IsDigit(c: char) {
    '0' <= c <= '9'
  }

  predicate AllDigits(s: string) {
    forall i :: 0 <= i < |s| ==> IsDigit(s[i])
  }

  function DigitChar(n: int): (c: char)
    requires 0 <= n < 10
    ensures IsDigit(c) && c as int - '0' as int == n
  {
    (n + '0' as int) as char
  }

  /** Decimal digits of `n`, without leading zeros. */
  function NatToString(n: nat): (s: string)
    ensures |s| >= 1 && AllDigits(s)
    decreases n
  {
    if n < 10 then [DigitChar(n)] else NatToString(n / 10) + [DigitChar(n % 10)]
  }

  /** `String(n)` for an integer `n`. */
  function IntToString(n: int): (s: string)
    ensures |s| >= 1
    ensures n >= 0 ==> AllDigits(s)
  {
    if n < 0 then "-" + NatToString(-n) else NatToString(n)
  }

  /** `s.padStart(2, '0')`. */
  function PadStart2(s: string): (r: string)
    ensures |r| == if |s| < 2 then 2 else |s|
    ensures r[|r| - |s|..] == s
    ensures forall i :: 0 <= i < |r| - |s| ==> r[i] == '0'
  {
    if |s| == 0 then "00" else if |s| == 1 then "0" + s else s
  }

  /** `formatDateParts(year, monthIndex, day)`: `${year}-${MM}-${DD}` with the month printed one-based. */
  function FormatDateParts(y: int, m: int, d: int): string {
    IntToString(y) + "-" + PadStart2(IntToString(m + 1)) + "-" + PadStart2(IntToString(d))
  }

  /** `formatDateKey(date)`, the same text built from a `Date`. */
  function FormatDateKey(date: Date): string {
    FormatDateParts(date.year, date.month, date.day)
  }

  /** The `${year}-${MM}-` prefix every key of that month starts with (the calendar's `monthKey` plus `-`). */
  function MonthPrefix(y: int, m: int): string {
    IntToString(y) + "-" + PadStart2(IntToString(m + 1)) + "-"
  }

  predicate StartsWith(s: string, p: string) {
    |p| <= |s| && s[..|p|] == p
  }

  // ----- trim and whitespace -----

  /** The characters `String.prototype.trim` and `Number(...)` strip: white space and line terminators. */
  predicate IsJsWhitespace(c: char) {
    var n := c as int;
    (9 <= n <= 13) || n == 0x20 || n == 0xA0 || n == 0x1680 || (0x2000 <= n <= 0x200A)
    || n == 0x2028 || n == 0x2029 || n == 0x202F || n == 0x205F || n == 0x3000 || n == 0xFEFF
  }

  function TrimStart(s: string): string {
    if s != [] && IsJsWhitespace(s[0]) then TrimStart(s[1..]) else s
  }

  function TrimEnd(s: string): string {
    if s != [] && IsJsWhitespace(s[|s| - 1]) then TrimEnd(s[..|s| - 1]) else s
  }

  /** `s.trim()`: `s` without its leading and trailing white space. */
  function Trim(s: string): string {
    TrimEnd(TrimStart(s))
  }

  /** `TrimStart` drops a prefix of white space and stops at the first other character. */
  lemma {:induction false} TrimStartFacts(s: string)
    ensures var r := TrimStart(s);
      && |r| <= |s| && r == s[|s| - |r|..]
      && (r == [] || !IsJsWhitespace(r[0]))
      && forall i :: 0 <= i < |s| - |r| ==> IsJsWhitespace(s[i])
  {
    if s != [] && IsJsWhitespace(s[0]) {
      var tail := s[1..];
      TrimStartFacts(tail);
      var r := TrimStart(tail);
      assert tail[|tail| - |r|..] == s[|s| - |r|..];
      forall i | 0 <= i < |s| - |r|
        ensures IsJsWhitespace(s[i])
      {
        if i > 0 {
          assert s[i] == tail[i - 1];
        }
      }
    }
  }

  /** `TrimEnd` drops a suffix of white space and stops at the last other character. */
  lemma {:induction false} TrimEndFacts(s: string)
    ensures var r := TrimEnd(s);
      && |r| <= |s| && r == s[..|r|]
      && (r == [] || !IsJsWhitespace(r[|r| - 1]))
      && forall i :: |r| <= i < |s| ==> IsJsWhitespace(s[i])
  {
    if s != [] && IsJsWhitespace(s[|s| - 1]) {
      TrimEndFacts(s[..|s| - 1]);
    }
  }

  /**
   * The trimmed text neither starts nor ends with white space, and it is empty exactly when the
   * text is all white space.
   */
  lemma TrimFacts(s: string)
    ensures var r := Trim(s);
      && (r == [] || (!IsJsWhitespace(r[0]) && !IsJsWhitespace(r[|r| - 1])))
      && (r == [] <==> forall i :: 0 <= i < |s| ==> IsJsWhitespace(s[i]))
  {
    var t := TrimStart(s);
    TrimStartFacts(s);
    TrimEndFacts(t);
    var r := TrimEnd(t);
    if r != [] {
      assert r[0] == t[0];
    }
  }

  /** Trimming twice trims nothing more. */
  lemma TrimIdempotent(s: string)
    ensures Trim(Trim(s)) == Trim(s)
  {
    var r := Trim(s);
    TrimFacts(s);
    if r != [] {
      assert TrimStart(r) == r;
      assert TrimEnd(r) == r;
    }
  }

  // ----- numbers -----

  /** Value of a string of decimal digits (leading zeros allowed). */
  function DigitsValue(s: string): nat
    requires AllDigits(s)
  {
    if s == [] then 0 else DigitsValue(s[..|s| - 1]) * 10 + (s[|s| - 1] as int - '0' as int)
  }

  /**
   * `Number(s)` for the strings the date keys are made of: surrounding white space is ignored, the
   * empty string is 0, an optional sign may precede decimal digits; anything else is `NaN` (`None`).
   */
  function JsNumber(s: string): Option<int> {
    var t := Trim(s);
    if t == [] then Some(0)
    else if AllDigits(t) then Some(DigitsValue(t))
    else if |t| > 1 && (t[0] == '-' || t[0] == '+') && AllDigits(t[1..]) then
      var v: int := DigitsValue(t[1..]);
      Some(if t[0] == '-' then -v else v)
    else None
  }

  lemma {:induction false} DigitsOfNat(n: nat)
    ensures DigitsValue(NatToString(n)) == n
    decreases n
  {
    var s := NatToString(n);
    if n >= 10 {
      DigitsOfNat(n / 10);
      assert s[..|s| - 1] == NatToString(n / 10);
    }
  }

  lemma {:induction false} LeadingZero(s: string)
    requires AllDigits(s)
    ensures AllDigits("0" + s) && DigitsValue("0" + s) == DigitsValue(s)
  {
    if s != [] {
      var z := "0" + s;
      assert z[..|z| - 1] == "0" + s[..|s| - 1];
      LeadingZero(s[..|s| - 1]);
    }
  }

  /** `Number` reads back what `String` prints, also after `padStart(2, '0')`. */
  lemma NumberOfPadded(n: nat)
    ensures JsNumber(NatToString(n)) == Some(n)
    ensures JsNumber(PadStart2(NatToString(n))) == Some(n)
  {
    var s := NatToString(n);
    DigitsOfNat(n);
    NoWhitespaceDigits(s);
    if |s| == 1 {
      LeadingZero(s);
      NoWhitespaceDigits("0" + s);
    }
  }

  lemma NoWhitespaceDigits(s: string)
    requires AllDigits(s) && s != []
    ensures Trim(s) == s
  {
    assert TrimStart(s) == s;
    assert TrimEnd(s) == s;
  }

  // ----- split -----

  function IndexOf(s: string, c: char): (i: nat)
    requires c in s
    ensures i < |s| && s[i] == c && c !in s[..i]
  {
    if s[0] == c then 0 else 1 + IndexOf(s[1..], c)
  }

  /** `s.split(sep)` for a one-character separator. */
  function Split(s: string, sep: char): (parts: seq<string>)
    ensures |parts| >= 1
    decreases |s|
  {
    if sep !in s then [s]
    else
      var i := IndexOf(s, sep);
      [s[..i]] + Split(s[i + 1..], sep)
  }

  lemma SplitCons(a: string, sep: char, b: string)
    requires sep !in a
    ensures Split(a + [sep] + b, sep) == [a] + Split(b, sep)
  {
    var s := a + [sep] + b;
    assert s[|a|] == sep;
    var i := IndexOf(s, sep);
    assert i == |a|;
    assert s[..i] == a;
    assert s[i + 1..] == b;
  }

  // ----- the two parsers -----

  /**
   * `parseDueDate` (task list): the part before any `T`, split at `-`, each part through `Number`;
   * a missing or zero year, or a month or day that is not a number, gives `null`; otherwise
   * `new Date(year, month - 1, day)`, rolled over.
   */
  function ParseDueDate(s: string): (r: Option<Date>)
    ensures r.Some? ==> Valid(r.value)
    ensures s == [] ==> r.None?
  {
    if s == [] then None else ParseDateParts(Split(Split(s, 'T')[0], '-'))
  }

  /** The second half of `parseDueDate`: the `-`-separated parts through `Number` and `new Date`. */
  function ParseDateParts(parts: seq<string>): Option<Date>
    requires |parts| >= 1
  {
    DateOfNumbers(JsNumber(parts[0]), if |parts| > 1 then JsNumber(parts[1]) else None,
                  if |parts| > 2 then JsNumber(parts[2]) else None)
  }

  /** A missing or zero year, or a month or day that is not a number, gives `null`; otherwise the rolled date. */
  function DateOfNumbers(year: Option<int>, month: Option<int>, day: Option<int>): Option<Date> {
    if year.None? || year.value == 0 || month.None? || day.None? then None
    else Some(MakeDate(year.value, month.value - 1, day.value))
  }

  /** `parseDueDate(task.dueDate)` where the due date may be `undefined`. */
  function ParseDue(due: Option<string>): Option<Date> {
    if due.None? then None else ParseDueDate(due.value)
  }

  /** `getMonthIndexFromDate` (calendar): the first two `-`-separated parts as year and month. */
  function MonthIndexFromDate(s: string): Option<int> {
    var parts := Split(s, '-');
    var year := JsNumber(parts[0]);
    var month := if |parts| > 1 then JsNumber(parts[1]) else None;
    if year.None? || month.None? then None else Some(MonthIndexValue(year.value, month.value - 1))
  }

  /** A key of the form digits-digits-rest splits into its parts at the two dashes. */
  lemma SplitKey(y: string, m: string, d: string)
    requires '-' !in y && '-' !in m
    ensures Split(y + "-" + m + "-" + d, '-') == [y, m] + Split(d, '-')
  {
    assert y + "-" + m + "-" + d == y + ['-'] + (m + ['-'] + d);
    SplitCons(y, '-', m + ['-'] + d);
    SplitCons(m, '-', d);
  }

  lemma DigitsHaveNoSeparator(s: string, c: char)
    requires AllDigits(s) && !IsDigit(c)
    ensures c !in s
  {
  }

  /** How `parseDueDate` reads a key without `T` whose three `-`-separated parts are numbers. */
  lemma ParseDueDateOfParts(s: string, a: string, b: string, c: string, y: int, m: int, d: int)
    requires s != [] && 'T' !in s && Split(s, '-') == [a, b, c]
    requires JsNumber(a) == Some(y) && JsNumber(b) == Some(m) && JsNumber(c) == Some(d) && y != 0
    ensures ParseDueDate(s) == Some(MakeDate(y, m - 1, d))
  {
    DatePartOf(s, a, b, c);
    NumberedParts(a, b, c, y, m, d);
  }

  lemma DatePartOf(s: string, a: string, b: string, c: string)
    requires s != [] && 'T' !in s && Split(s, '-') == [a, b, c]
    ensures ParseDueDate(s) == ParseDateParts([a, b, c])
  {
    assert Split(s, 'T') == [s];
  }

  lemma NumberedParts(a: string, b: string, c: string, y: int, m: int, d: int)
    requires JsNumber(a) == Some(y) && JsNumber(b) == Some(m) && JsNumber(c) == Some(d) && y != 0
    ensures ParseDateParts([a, b, c]) == Some(MakeDate(y, m - 1, d))
  {
    var parts := [a, b, c];
    assert parts[0] == a && parts[1] == b && parts[2] == c;
    assert ParseDateParts(parts) == DateOfNumbers(Some(y), Some(m), Some(d));
  }

  /** The three parts of a key built from numerals: no `T`, and `-` splits it back into them. */
  lemma KeyParts(ys: string, ms: string, ds: string)
    requires AllDigits(ys) && AllDigits(ms) && AllDigits(ds)
    ensures 'T' !in ys + "-" + ms + "-" + ds
    ensures Split(ys + "-" + ms + "-" + ds, '-') == [ys, ms, ds]
  {
    NoSeparatorInKey(ys, ms, ds);
    SplitKey3(ys, ms, ds);
  }

  lemma KeyText(y: nat, m: nat, d: nat)
    ensures FormatDateParts(y, m - 1, d) == NatToString(y) + "-" + PadStart2(NatToString(m)) + "-" + PadStart2(NatToString(d))
  {
  }

  lemma SplitKey3(ys: string, ms: string, ds: string)
    requires '-' !in ys && '-' !in ms && '-' !in ds
    ensures Split(ys + "-" + ms + "-" + ds, '-') == [ys, ms, ds]
  {
    SplitKey(ys, ms, ds);
    assert Split(ds, '-') == [ds];
  }

  lemma NoSeparatorInKey(ys: string, ms: string, ds: string)
    requires AllDigits(ys) && AllDigits(ms) && AllDigits(ds)
    ensures '-' !in ys && '-' !in ms && '-' !in ds && 'T' !in ys + "-" + ms + "-" + ds
  {
    DigitsHaveNoSeparator(ys, '-');
    DigitsHaveNoSeparator(ms, '-');
    DigitsHaveNoSeparator(ds, '-');
    DigitsHaveNoSeparator(ys, 'T');
    DigitsHaveNoSeparator(ms, 'T');
    DigitsHaveNoSeparator(ds, 'T');
  }

  /** Round trip: `parseDueDate(formatDateKey(date))` gives the date back from year 100 on (`new Date` reads 0..99 as 19xx). */
  lemma ParseFormatted(date: Date)
    requires Valid(date) && date.year >= 100
    ensures ParseDueDate(FormatDateKey(date)) == Some(date)
  {
    var y, m, d := date.year, date.month + 1, date.day;
    var ys, ms, ds := NatToString(y), PadStart2(NatToString(m)), PadStart2(NatToString(d));
    KeyText(y, m, d);
    var key := ys + "-" + ms + "-" + ds;
    assert FormatDateKey(date) == key;
    KeyParts(ys, ms, ds);
    NumberOfPadded(y);
    NumberOfPadded(m);
    NumberOfPadded(d);
    ParseDueDateOfParts(key, ys, ms, ds, y, m, d);
    MakeDateInRange(date.year, date.month, date.day);
  }

  /** How `getMonthIndexFromDate` reads a key whose first two `-`-separated parts are numbers. */
  lemma MonthIndexOfParts(s: string, a: string, b: string, rest: seq<string>, y: int, m: int)
    requires Split(s, '-') == [a, b] + rest && JsNumber(a) == Some(y) && JsNumber(b) == Some(m)
    ensures MonthIndexFromDate(s) == Some(MonthIndexValue(y, m - 1))
  {
  }

  /** `getMonthIndexFromDate` reads back the month of every key `formatDateParts` builds for a year from 0 on. */
  lemma MonthIndexOfFormatted(y: int, m: int, d: int)
    requires y >= 0 && 0 <= m < 12
    ensures MonthIndexFromDate(FormatDateParts(y, m, d)) == Some(MonthIndexValue(y, m))
  {
    var ys := IntToString(y);
    var ms := PadStart2(IntToString(m + 1));
    var ds := PadStart2(IntToString(d));
    assert FormatDateParts(y, m, d) == ys + "-" + ms + "-" + ds;
    assert AllDigits(ms);
    DigitsHaveNoSeparator(ys, '-');
    DigitsHaveNoSeparator(ms, '-');
    SplitKey(ys, ms, ds);
    NumberOfPadded(y);
    NumberOfPadded(m + 1);
    MonthIndexOfParts(FormatDateParts(y, m, d), ys, ms, Split(ds, '-'), y, m + 1);
  }

  /** Every key of a month starts with that month's prefix. */
  lemma FormattedStartsWithPrefix(y: int, m: int, d: int)
    ensures StartsWith(FormatDateParts(y, m, d), MonthPrefix(y, m))
  {
    var p := MonthPrefix(y, m);
    assert FormatDateParts(y, m, d) == p + PadStart2(IntToString(d));
  }

  // ----- string order -----

  /** JavaScript's `a < b` on strings: lexicographic by character, a proper prefix first. */
  predicate StrLess(a: string, b: string) {
    if a == [] then b != []
    else if b == [] then false
    else if a[0] != b[0] then a[0] < b[0]
    else StrLess(a[1..], b[1..])
  }

  lemma {:induction false} StrLessIrreflexive(a: string)
    ensures !StrLess(a, a)
  {
    if a != [] {
      StrLessIrreflexive(a[1..]);
    }
  }

  lemma {:induction false} StrLessTransitive(a: string, b: string, c: string)
    requires StrLess(a, b) && StrLess(b, c)
    ensures StrLess(a, c)
  {
    if a != [] && b != [] && c != [] && a[0] == b[0] && b[0] == c[0] {
      StrLessTransitive(a[1..], b[1..], c[1..]);
    }
  }

  lemma {:induction false} StrLessTotal(a: string, b: string)
    ensures a == b || StrLess(a, b) || StrLess(b, a)
  {
    if a != [] && b != [] && a[0] == b[0] {
      StrLessTotal(a[1..], b[1..]);
      if a[1..] == b[1..] {
        assert a == [a[0]] + a[1..] && b == [b[0]] + b[1..];
      }
    }
  }
}
