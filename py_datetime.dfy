/**
 * `datetime.strptime(text, "%Y-%m-%d %H:%M:%S")` as CPython performs it: the
 * format becomes a regular expression (each directive one fixed alternation,
 * the space one `\s+`) that must match the whole text, and the fields it
 * captures must then form a real date and time, or `ValueError` is raised.
 * Here a failure is `None`.
 */
module PyDateTime {
  import opened Wrappers
  import opened PyStr

  /** A naive `datetime` with whole seconds. */
  datatype Timestamp = Timestamp(year: nat, month: nat, day: nat, hour: nat, minute: nat, second: nat)

  predicate IsLeapYear(year: nat) {
    year % 4 == 0 && (year % 100 != 0 || year % 400 == 0)
  }

  function DaysInMonth(year: nat, month: nat): (days: nat)
    requires 1 <= month <= 12
    ensures 28 <= days <= 31
    ensures days == 29 <==> month == 2 && IsLeapYear(year)
  {
    if month == 2 then (if IsLeapYear(year) then 29 else 28)
    else if month == 4 || month == 6 || month == 9 || month == 11 then 30
    else 31
  }

  /** What the `datetime` constructor accepts (year 1 to 9999, a real day, seconds below 60). */
  predicate ValidTimestamp(t: Timestamp)
    ensures ValidTimestamp(t) ==> Formattable(t)
  {
    && 1 <= t.year <= 9999
    && 1 <= t.month <= 12
    && 1 <= t.day <= DaysInMonth(t.year, t.month)
    && t.hour <= 23
    && t.minute <= 59
    && t.second <= 59
  }

  /** `a <= b` on datetimes: field by field, most significant first. */
  predicate NotAfter(a: Timestamp, b: Timestamp)
    ensures a == b ==> NotAfter(a, b)
    ensures NotAfter(a, b) ==> a.year <= b.year
  {
    if a.year != b.year then a.year < b.year
    else if a.month != b.month then a.month < b.month
    else if a.day != b.day then a.day < b.day
    else if a.hour != b.hour then a.hour < b.hour
    else if a.minute != b.minute then a.minute < b.minute
    else a.second <= b.second
  }

  lemma NotAfterTotal(a: Timestamp, b: Timestamp)
    ensures NotAfter(a, b) || NotAfter(b, a)
  {
  }

  lemma NotAfterAntisymmetric(a: Timestamp, b: Timestamp)
    requires NotAfter(a, b) && NotAfter(b, a)
    ensures a == b
  {
  }

  lemma NotAfterTransitive(a: Timestamp, b: Timestamp, c: Timestamp)
    requires NotAfter(a, b) && NotAfter(b, c)
    ensures NotAfter(a, c)
  {
  }

  // ---------------------------------------------------------------- digits

  predicate IsDigit(c: char) {
    '0' <= c <= '9'
  }

  predicate AllDigits(s: string) {
    forall i :: 0 <= i < |s| ==> IsDigit(s[i])
  }

  /** `int(s)` for a string of ASCII digits. */
  function DigitsValue(s: string): nat
    requires AllDigits(s)
  {
    if s == [] then 0 else 10 * DigitsValue(s[..|s| - 1]) + (s[|s| - 1] as int - '0' as int)
  }

  lemma {:induction false} DigitsBound(s: string)
    requires AllDigits(s)
    ensures DigitsValue(s) < Power10(|s|)
  {
    if s != [] {
      DigitsBound(s[..|s| - 1]);
    }
  }

  function Power10(n: nat): nat {
    if n == 0 then 1 else 10 * Power10(n - 1)
  }

  lemma Pad4Bound(s: string)
    requires |s| == 4 && AllDigits(s)
    ensures DigitsValue(s) <= 9999
  {
    DigitsBound(s);
  }

  /** The length of the longest prefix of `s` made of digits. */
  function DigitRun(s: string): (n: nat)
    ensures n <= |s| && AllDigits(s[..n])
    ensures n < |s| ==> !IsDigit(s[n])
  {
    if s == [] || !IsDigit(s[0]) then 0
    else
      var n := DigitRun(s[1..]);
      assert s[..n + 1] == [s[0]] + s[1..][..n];
      n + 1
  }

  /**
   * One of the directives `%m %d %H %M %S`: one or two digits whose value
   * lies in `[lo, hi]`. Each directive's alternation (`1[0-2]|0[1-9]|[1-9]`
   * for `%m`, `6[0-1]|[0-5]\d|\d` for `%S`, ...) accepts exactly these.
   */
  function Field(text: string, lo: nat, hi: nat): (r: Option<nat>)
    ensures r.Some? ==> lo <= r.value <= hi
  {
    if 1 <= |text| <= 2 && AllDigits(text) && lo <= DigitsValue(text) <= hi
    then Some(DigitsValue(text)) else None
  }

  /** The text before the first `c` and the text after it. */
  function SplitAt(s: string, c: char): (r: Option<(string, string)>)
    ensures r.None? <==> c !in s
    ensures r.Some? ==> s == r.value.0 + [c] + r.value.1 && c !in r.value.0
  {
    var i := Find(s, c);
    FindAbsent(s, c);
    if i == |s| then None
    else
      assert s == s[..i] + [c] + s[i + 1..];
      Some((s[..i], s[i + 1..]))
  }

  /** `SplitAt` at the first `c` when the text before it has none. */
  lemma SplitAtOf(a: string, c: char, b: string)
    requires c !in a
    ensures SplitAt(a + [c] + b, c) == Some((a, b))
  {
    FindAfter(a, c, b);
    var s := a + [c] + b;
    assert s[..|a|] == a && s[|a| + 1..] == b;
  }

  predicate EndsWith(s: string, suffix: string) {
    |suffix| <= |s| && s[|s| - |suffix|..] == suffix
  }

  lemma EndsWithTrans(s: string, t: string, u: string)
    requires EndsWith(s, t) && EndsWith(t, u)
    ensures EndsWith(s, u)
  {
    assert s[|s| - |u|..] == s[|s| - |t|..][|t| - |u|..];
  }

  lemma EndsWithAfter(a: string, c: char, b: string)
    ensures EndsWith(a + [c] + b, b)
  {
    assert (a + [c] + b)[|a| + 1..] == b;
  }

  // ------------------------------------------------------------- the parse

  /**
   * `%d` and the `\s+` after it: the day and the text after the whitespace.
   * Besides one or two digits, `%d` accepts a space followed by one digit.
   */
  function DayThenSpace(s: string): (r: Option<(nat, string)>)
    ensures r.Some? ==> 1 <= r.value.0 <= 31
    ensures r.Some? ==> r.value.1 == [] || !IsSpace(r.value.1[0])
    ensures r.Some? ==> EndsWith(s, r.value.1)
  {
    if |s| >= 3 && s[0] == ' ' && '1' <= s[1] <= '9' && IsSpace(s[2]) then
      Some((s[1] as int - '0' as int, TrimStart(s[2..])))
    else
      var n := DigitRun(s);
      if n < |s| && IsSpace(s[n]) then
        var day :- Field(s[..n], 1, 31);
        Some((day, TrimStart(s[n..])))
      else None
  }

  /** `%H:%M:%S` up to the end of the text: hour, minute and second. */
  function ParseClock(s: string): (r: Option<(nat, nat, nat)>)
    ensures r.Some? ==> r.value.0 <= 23 && r.value.1 <= 59 && r.value.2 <= 61
  {
    var (hourText, afterHour) :- SplitAt(s, ':');
    var hour :- Field(hourText, 0, 23);
    var (minuteText, secondText) :- SplitAt(afterHour, ':');
    var minute :- Field(minuteText, 0, 59);
    var second :- Field(secondText, 0, 61);
    Some((hour, minute, second))
  }

  /** `%Y-%m-%d\s+`: year, month and day, and the text after the whitespace. */
  function ParseDate(s: string): (r: Option<(nat, nat, nat, string)>)
    ensures r.Some? ==> r.value.0 <= 9999 && 1 <= r.value.1 <= 12 && 1 <= r.value.2 <= 31
    ensures r.Some? ==> EndsWith(s, r.value.3)
  {
    if |s| < 5 || !AllDigits(s[..4]) || s[4] != '-' then None
    else
      var (monthText, afterMonth) :- SplitAt(s[5..], '-');
      var month :- Field(monthText, 1, 12);
      var (day, clock) :- DayThenSpace(afterMonth);
      Pad4Bound(s[..4]);
      assert EndsWith(s, clock) by {
        assert EndsWith(s, s[5..]);
        EndsWithAfter(monthText, '-', afterMonth);
        EndsWithTrans(s[5..], afterMonth, clock);
        EndsWithTrans(s, s[5..], clock);
      }
      Some((DigitsValue(s[..4]), month, day, clock))
  }

  /** `datetime.strptime(s, "%Y-%m-%d %H:%M:%S")`; `None` where it raises `ValueError`. */
  function ParseTimestamp(s: string): (r: Option<Timestamp>)
    ensures r.Some? ==> ValidTimestamp(r.value)
  {
    var (year, month, day, clock) :- ParseDate(s);
    var (hour, minute, second) :- ParseClock(clock);
    var t := Timestamp(year, month, day, hour, minute, second);
    if ValidTimestamp(t) then Some(t) else None
  }

  // ------------------------------------------------------- the round trip

  function Digit(n: nat): char
    requires n < 10
  {
    ('0' as int + n) as char
  }

  /** `"%02d" % n` */
  function Pad2(n: nat): string
    requires n < 100
  {
    [Digit(n / 10), Digit(n % 10)]
  }

  /** `"%04d" % n` */
  function Pad4(n: nat): string
    requires n < 10000
  {
    Pad2(n / 100) + Pad2(n % 100)
  }

  /** Every field fits the width `FormatTimestamp` gives it. */
  predicate Formattable(t: Timestamp) {
    t.year < 10000 && t.month < 100 && t.day < 100 && t.hour < 100 && t.minute < 100 && t.second < 100
  }

  /** `t.strftime("%Y-%m-%d %H:%M:%S")`, also for field values no datetime can hold. */
  function FormatTimestamp(t: Timestamp): string
    requires Formattable(t)
  {
    Pad4(t.year) + "-" + Pad2(t.month) + "-" + Pad2(t.day) + " "
    + Pad2(t.hour) + ":" + Pad2(t.minute) + ":" + Pad2(t.second)
  }

  lemma DigitsAppendPad2(x: string, m: nat)
    requires AllDigits(x) && m < 100
    ensures AllDigits(x + Pad2(m))
    ensures DigitsValue(x + Pad2(m)) == 100 * DigitsValue(x) + m
  {
    var y := x + [Digit(m / 10)];
    assert (x + Pad2(m))[..|x| + 1] == y;
    assert y[..|x|] == x;
  }

  lemma Pad2Value(n: nat)
    requires n < 100
    ensures AllDigits(Pad2(n)) && DigitsValue(Pad2(n)) == n
  {
    DigitsAppendPad2([], n);
    assert [] + Pad2(n) == Pad2(n);
  }

  lemma Pad4Value(n: nat)
    requires n < 10000
    ensures |Pad4(n)| == 4 && AllDigits(Pad4(n)) && DigitsValue(Pad4(n)) == n
  {
    Pad2Value(n / 100);
    DigitsAppendPad2(Pad2(n / 100), n % 100);
  }

  /** A two-digit field is accepted exactly when its value is in the directive's range. */
  lemma FieldOfPad2(n: nat, lo: nat, hi: nat)
    requires n < 100
    ensures Field(Pad2(n), lo, hi) == if lo <= n <= hi then Some(n) else None
  {
    Pad2Value(n);
  }

  lemma DayOf(d: nat, rest: string)
    requires d < 100
    requires rest == [] || !IsSpace(rest[0])
    ensures DayThenSpace(Pad2(d) + " " + rest) == if 1 <= d <= 31 then Some((d, rest)) else None
  {
    var s := Pad2(d) + " " + rest;
    assert s[2] == ' ';
    assert DigitRun(s) == 2;
    assert s[..2] == Pad2(d);
    FieldOfPad2(d, 1, 31);
    assert s[2..] == " " + rest;
    TrimStartOf(" ", rest);
  }

  lemma ClockOf(h: nat, m: nat, sec: nat)
    requires h < 100 && m < 100 && sec < 100
    ensures ParseClock(Pad2(h) + ":" + Pad2(m) + ":" + Pad2(sec))
         == if h <= 23 && m <= 59 && sec <= 61 then Some((h, m, sec)) else None
  {
    var tail := Pad2(m) + ":" + Pad2(sec);
    assert Pad2(h) + ":" + Pad2(m) + ":" + Pad2(sec) == Pad2(h) + [':'] + tail;
    SplitAtOf(Pad2(h), ':', tail);
    SplitAtOf(Pad2(m), ':', Pad2(sec));
    FieldOfPad2(h, 0, 23);
    FieldOfPad2(m, 0, 59);
    FieldOfPad2(sec, 0, 61);
  }

  lemma DateOf(t: Timestamp, clock: string)
    requires Formattable(t)
    requires clock == [] || !IsSpace(clock[0])
    ensures ParseDate(Pad4(t.year) + "-" + Pad2(t.month) + "-" + Pad2(t.day) + " " + clock)
         == if 1 <= t.month <= 12 && 1 <= t.day <= 31 then Some((t.year, t.month, t.day, clock)) else None
  {
    var afterMonth := Pad2(t.day) + " " + clock;
    var date := Pad2(t.month) + ['-'] + afterMonth;
    var s := Pad4(t.year) + "-" + Pad2(t.month) + "-" + Pad2(t.day) + " " + clock;
    assert s == Pad4(t.year) + "-" + date;
    Pad4Value(t.year);
    assert s[..4] == Pad4(t.year) && s[4] == '-' && s[5..] == date;
    SplitAtOf(Pad2(t.month), '-', afterMonth);
    FieldOfPad2(t.month, 1, 12);
    DayOf(t.day, clock);
  }

  /**
   * Parsing a formatted timestamp gives it back exactly when it is a real
   * date and time, and fails otherwise (month 13, 31 April, 29 February of
   * a common year, second 60, year 0, ...).
   */
  lemma ParseFormatted(t: Timestamp)
    requires Formattable(t)
    ensures ParseTimestamp(FormatTimestamp(t)) == if ValidTimestamp(t) then Some(t) else None
  {
    var clock := Pad2(t.hour) + ":" + Pad2(t.minute) + ":" + Pad2(t.second);
    var dateOk := 1 <= t.month <= 12 && 1 <= t.day <= 31;
    var clockOk := t.hour <= 23 && t.minute <= 59 && t.second <= 61;
    assert ParseDate(FormatTimestamp(t)) == if dateOk then Some((t.year, t.month, t.day, clock)) else None by {
      assert FormatTimestamp(t) == Pad4(t.year) + "-" + Pad2(t.month) + "-" + Pad2(t.day) + " " + clock;
      assert clock[0] == Pad2(t.hour)[0];
      DateOf(t, clock);
    }
    assert ParseClock(clock) == if clockOk then Some((t.hour, t.minute, t.second)) else None by {
      ClockOf(t.hour, t.minute, t.second);
    }
  }

  lemma ClockEndsInDigit(c: string)
    requires ParseClock(c).Some?
    ensures |c| > 0 && IsDigit(c[|c| - 1])
  {
    var (hourText, afterHour) := SplitAt(c, ':').value;
    var (minuteText, secondText) := SplitAt(afterHour, ':').value;
    assert Field(secondText, 0, 61).Some?;
    assert afterHour == minuteText + [':'] + secondText;
    assert c == hourText + [':'] + afterHour;
  }

  /** Whatever parses ends in a digit: the last character of the seconds field. */
  lemma ParsedEndsInDigit(s: string)
    requires ParseTimestamp(s).Some?
    ensures |s| > 0 && IsDigit(s[|s| - 1])
  {
    var (year, month, day, clock) := ParseDate(s).value;
    ClockEndsInDigit(clock);
    assert s[|s| - |clock|..] == clock;
    assert s[|s| - 1] == clock[|clock| - 1];
  }
}
