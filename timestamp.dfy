/** Timestamps of the `student_info` table: a calendar date and time of day
    with second precision, stored as TEXT in the form `YYYY-MM-DD HH:MM:SS`
    (main.py:55, main.py:149). */
module Timestamp {
  import opened Wrappers
  import opened Text

  /** A naive local date and time, as `datetime.datetime` without microseconds. */
  datatype DateTime = DateTime(year: int, month: int, day: int, hour: int, minute: int, second: int)

  /** Leap years of the proleptic Gregorian calendar. */
  predicate IsLeap(year: int) {
    year % 4 == 0 && (year % 100 != 0 || year % 400 == 0)
  }

  function DaysInYear(year: int): int {
    if IsLeap(year) then 366 else 365
  }

  function DaysInMonth(year: int, month: int): int
    requires 1 <= month <= 12
  {
    if month == 2 then (if IsLeap(year) then 29 else 28)
    else if month == 4 || month == 6 || month == 9 || month == 11 then 30
    else 31
  }

  /** The values `datetime` accepts: years 1 to 9999, real calendar days,
      no leap second. */
  predicate Valid(dt: DateTime) {
    1 <= dt.year <= 9999 && 1 <= dt.month <= 12 && 1 <= dt.day <= DaysInMonth(dt.year, dt.month)
    && 0 <= dt.hour < 24 && 0 <= dt.minute < 60 && 0 <= dt.second < 60
  }

  /** Chronological order: field by field, most significant first. */
  predicate Before(a: DateTime, b: DateTime) {
    a.year < b.year || (a.year == b.year &&
    (a.month < b.month || (a.month == b.month &&
    (a.day < b.day || (a.day == b.day &&
    (a.hour < b.hour || (a.hour == b.hour &&
    (a.minute < b.minute || (a.minute == b.minute &&
    a.second < b.second)))))))))
  }

  // ---------------------------------------------------------------------
  // Text form

  predicate IsDigit(c: char) {
    '0' <= c <= '9'
  }

  function DigitChar(d: int): (c: char)
    requires 0 <= d < 10
  {
    ('0' as int + d) as char
  }

  /** The number a string of decimal digits denotes. */
  function Num(s: string): int {
    if s == [] then 0 else Num(s[..|s| - 1]) * 10 + (s[|s| - 1] as int - '0' as int)
  }

  /** `%m`, `%d`, `%H`, `%M`, `%S`: two digits, zero-padded. */
  function Two(n: int): string
    requires 0 <= n < 100
  {
    [DigitChar(n / 10), DigitChar(n % 10)]
  }

  /** `%Y`: four digits, zero-padded. */
  function Four(n: int): string
    requires 0 <= n < 10000
  {
    Two(n / 100) + Two(n % 100)
  }

  /** A two-digit field after its separator. */
  function Field(sep: char, n: int): string
    requires 0 <= n < 100
  {
    [sep] + Two(n)
  }

  /** `dt.strftime("%Y-%m-%d %H:%M:%S")`. */
  function Format(dt: DateTime): string
    requires Valid(dt)
  {
    Four(dt.year) + Field('-', dt.month) + Field('-', dt.day)
    + Field(' ', dt.hour) + Field(':', dt.minute) + Field(':', dt.second)
  }

  predicate AllDigits(s: string) {
    forall k :: 0 <= k < |s| ==> IsDigit(s[k])
  }

  /** `datetime.strptime(s, "%Y-%m-%d %H:%M:%S")` on the zero-padded form:
      `None` where Python raises `ValueError`. */
  function Parse(s: string): Option<DateTime> {
    if |s| == 19 && s[4] == '-' && s[7] == '-' && s[10] == ' ' && s[13] == ':' && s[16] == ':'
       && AllDigits(s[0..4]) && AllDigits(s[5..7]) && AllDigits(s[8..10])
       && AllDigits(s[11..13]) && AllDigits(s[14..16]) && AllDigits(s[17..19])
    then
      var dt := DateTime(Num(s[0..4]), Num(s[5..7]), Num(s[8..10]), Num(s[11..13]), Num(s[14..16]), Num(s[17..19]));
      if Valid(dt) then Some(dt) else None
    else None
  }

  lemma DigitValue(d: int)
    requires 0 <= d < 10
    ensures IsDigit(DigitChar(d)) && DigitChar(d) as int - '0' as int == d
  {
  }

  lemma NumOne(c: char)
    ensures Num([c]) == c as int - '0' as int
  {
    assert [c][..0] == [];
  }

  /** The number of a string extended by one digit. */
  lemma NumSnoc(s: string, c: char)
    ensures Num(s + [c]) == Num(s) * 10 + (c as int - '0' as int)
  {
    assert (s + [c])[..|s|] == s;
  }

  lemma TwoDigits(n: int)
    requires 0 <= n < 100
    ensures |Two(n)| == 2 && AllDigits(Two(n)) && Num(Two(n)) == n
  {
    DigitValue(n / 10);
    DigitValue(n % 10);
    NumOne(DigitChar(n / 10));
    NumSnoc([DigitChar(n / 10)], DigitChar(n % 10));
    assert Two(n) == [DigitChar(n / 10)] + [DigitChar(n % 10)];
  }

  /** The number of a string extended by two digits. */
  lemma NumAppendTwo(s: string, t: string)
    requires |t| == 2
    ensures Num(s + t) == Num(s) * 100 + Num(t)
  {
    NumSnoc(s, t[0]);
    NumSnoc(s + [t[0]], t[1]);
    assert s + [t[0]] + [t[1]] == s + t;
    NumOne(t[0]);
    NumSnoc([t[0]], t[1]);
    assert [t[0]] + [t[1]] == t;
  }

  lemma FourDigits(n: int)
    requires 0 <= n < 10000
    ensures |Four(n)| == 4 && AllDigits(Four(n)) && Num(Four(n)) == n
  {
    TwoDigits(n / 100);
    TwoDigits(n % 100);
    NumAppendTwo(Two(n / 100), Two(n % 100));
  }

  lemma NumTwo(s: string)
    requires |s| == 2 && AllDigits(s)
    ensures 0 <= Num(s) < 100 && Two(Num(s)) == s
  {
    NumOne(s[0]);
    NumSnoc([s[0]], s[1]);
    assert [s[0]] + [s[1]] == s;
    var n := Num(s);
    assert n / 10 == s[0] as int - '0' as int && n % 10 == s[1] as int - '0' as int;
  }

  lemma NumFour(s: string)
    requires |s| == 4 && AllDigits(s)
    ensures 0 <= Num(s) < 10000 && Four(Num(s)) == s
  {
    var hi, lo := s[..2], s[2..];
    assert s == hi + lo;
    NumTwo(hi);
    NumTwo(lo);
    NumAppendTwo(hi, lo);
    var n := Num(s);
    assert n / 100 == Num(hi) && n % 100 == Num(lo);
  }

  /** Where each field sits in the formatted text. */
  lemma FormatLayout(dt: DateTime)
    requires Valid(dt)
    ensures var s := Format(dt);
            |s| == 19 && s[4] == '-' && s[7] == '-' && s[10] == ' ' && s[13] == ':' && s[16] == ':'
            && s[0..4] == Four(dt.year) && s[5..7] == Two(dt.month) && s[8..10] == Two(dt.day)
            && s[11..13] == Two(dt.hour) && s[14..16] == Two(dt.minute) && s[17..19] == Two(dt.second)
  {
    var p1 := Four(dt.year);
    var p2 := p1 + Field('-', dt.month);
    var p3 := p2 + Field('-', dt.day);
    var p4 := p3 + Field(' ', dt.hour);
    var p5 := p4 + Field(':', dt.minute);
    var s := p5 + Field(':', dt.second);
    assert |p1| == 4 && |p2| == 7 && |p3| == 10 && |p4| == 13 && |p5| == 16 && |s| == 19;
    assert s[..16] == p5 && p5[..13] == p4 && p4[..10] == p3 && p3[..7] == p2 && p2[..4] == p1;
    assert s[16..] == Field(':', dt.second) && p5[13..] == Field(':', dt.minute);
    assert p4[10..] == Field(' ', dt.hour) && p3[7..] == Field('-', dt.day) && p2[4..] == Field('-', dt.month);
    assert s[0..4] == p1 by { assert s[0..4] == s[..16][..13][..10][..7][..4]; }
    assert s[5..7] == Two(dt.month) by { assert s[4..7] == s[..16][..13][..10][..7][4..]; }
    assert s[8..10] == Two(dt.day) by { assert s[7..10] == s[..16][..13][..10][7..]; }
    assert s[11..13] == Two(dt.hour) by { assert s[10..13] == s[..16][..13][10..]; }
    assert s[14..16] == Two(dt.minute) by { assert s[13..16] == s[..16][13..]; }
  }

  /** Parsing the formatted text gives back the timestamp. */
  lemma ParseFormat(dt: DateTime)
    requires Valid(dt)
    ensures Parse(Format(dt)) == Some(dt)
  {
    FormatLayout(dt);
    FourDigits(dt.year);
    TwoDigits(dt.month);
    TwoDigits(dt.day);
    TwoDigits(dt.hour);
    TwoDigits(dt.minute);
    TwoDigits(dt.second);
  }

  /** Every text that parses is the formatted form of what it parses to. */
  lemma FormatParse(s: string)
    requires Parse(s).Some?
    ensures Valid(Parse(s).value) && Format(Parse(s).value) == s
  {
    var dt := Parse(s).value;
    NumFour(s[0..4]);
    NumTwo(s[5..7]);
    NumTwo(s[8..10]);
    NumTwo(s[11..13]);
    NumTwo(s[14..16]);
    NumTwo(s[17..19]);
    FormatLayout(dt);
    var f := Format(dt);
    assert forall k :: 0 <= k < 19 ==> f[k] == s[k] by {
      forall k | 0 <= k < 19 ensures f[k] == s[k] {
        if k < 4 { assert f[k] == f[0..4][k] && s[k] == s[0..4][k]; }
        else if 5 <= k < 7 { assert f[k] == f[5..7][k - 5] && s[k] == s[5..7][k - 5]; }
        else if 8 <= k < 10 { assert f[k] == f[8..10][k - 8] && s[k] == s[8..10][k - 8]; }
        else if 11 <= k < 13 { assert f[k] == f[11..13][k - 11] && s[k] == s[11..13][k - 11]; }
        else if 14 <= k < 16 { assert f[k] == f[14..16][k - 14] && s[k] == s[14..16][k - 14]; }
        else if 17 <= k < 19 { assert f[k] == f[17..19][k - 17] && s[k] == s[17..19][k - 17]; }
      }
    }
  }

  // ---------------------------------------------------------------------
  // Text order is chronological order

  lemma DigitCharOrder(x: int, y: int)
    requires 0 <= x < 10 && 0 <= y < 10
    ensures DigitChar(x) < DigitChar(y) <==> x < y
    ensures DigitChar(x) == DigitChar(y) <==> x == y
  {
  }

  lemma TwoOrder(x: int, y: int)
    requires 0 <= x < 100 && 0 <= y < 100
    ensures TextLess(Two(x), Two(y)) <==> x < y
    ensures Two(x) == Two(y) <==> x == y
  {
    DigitCharOrder(x / 10, y / 10);
    DigitCharOrder(x % 10, y % 10);
    var a, b := Two(x), Two(y);
    assert a[1..] == [a[1]] && b[1..] == [b[1]];
    assert a[1..][1..] == [] && b[1..][1..] == [];
    assert TextLess(a[1..], b[1..]) <==> a[1] < b[1];
    assert x < y <==> x / 10 < y / 10 || (x / 10 == y / 10 && x % 10 < y % 10);
    if a == b { assert a[0] == b[0] && a[1] == b[1]; }
  }

  lemma FieldOrder(c: char, x: int, y: int)
    requires 0 <= x < 100 && 0 <= y < 100
    ensures TextLess(Field(c, x), Field(c, y)) <==> x < y
    ensures Field(c, x) == Field(c, y) <==> x == y
  {
    TwoOrder(x, y);
    assert Field(c, x)[1..] == Two(x) && Field(c, y)[1..] == Two(y);
  }

  lemma FourOrder(x: int, y: int)
    requires 0 <= x < 10000 && 0 <= y < 10000
    ensures TextLess(Four(x), Four(y)) <==> x < y
    ensures Four(x) == Four(y) <==> x == y
  {
    TwoOrder(x / 100, y / 100);
    TwoOrder(x % 100, y % 100);
    TextLessBlocks(Two(x / 100), Two(x % 100), Two(y / 100), Two(y % 100));
    BlocksEqual(Two(x / 100), Two(x % 100), Two(y / 100), Two(y % 100));
  }

  /** The zero-padded text form sorts in chronological order, so
      `ORDER BY timestamp` orders entries by time. */
  lemma FormatOrder(a: DateTime, b: DateTime)
    requires Valid(a) && Valid(b)
    ensures TextLess(Format(a), Format(b)) <==> Before(a, b)
  {
    var da, db := DatePart(a), DatePart(b);
    var ta, tb := TimePart(a), TimePart(b);
    assert Format(a) == da + ta && Format(b) == db + tb;
    DateOrder(a, b);
    TimeOrder(a, b);
    TextLessBlocks(da, ta, db, tb);
    BlocksEqual(da, ta, db, tb);
  }

  /** `YYYY-MM-DD`, the first ten characters of `Format(dt)`. */
  function DatePart(dt: DateTime): string
    requires Valid(dt)
  {
    Four(dt.year) + Field('-', dt.month) + Field('-', dt.day)
  }

  /** ` HH:MM:SS`, the last nine characters of `Format(dt)`. */
  function TimePart(dt: DateTime): string
    requires Valid(dt)
  {
    Field(' ', dt.hour) + Field(':', dt.minute) + Field(':', dt.second)
  }

  lemma DateOrder(a: DateTime, b: DateTime)
    requires Valid(a) && Valid(b)
    ensures |DatePart(a)| == |DatePart(b)| == 10
    ensures TextLess(DatePart(a), DatePart(b)) <==>
      a.year < b.year || (a.year == b.year && (a.month < b.month || (a.month == b.month && a.day < b.day)))
    ensures DatePart(a) == DatePart(b) <==> a.year == b.year && a.month == b.month && a.day == b.day
  {
    FourOrder(a.year, b.year);
    FieldOrder('-', a.month, b.month);
    FieldOrder('-', a.day, b.day);
    var p1a, p1b := Four(a.year), Four(b.year);
    var p2a, p2b := p1a + Field('-', a.month), p1b + Field('-', b.month);
    TextLessBlocks(p1a, Field('-', a.month), p1b, Field('-', b.month));
    TextLessBlocks(p2a, Field('-', a.day), p2b, Field('-', b.day));
    BlocksEqual(p1a, Field('-', a.month), p1b, Field('-', b.month));
    BlocksEqual(p2a, Field('-', a.day), p2b, Field('-', b.day));
  }

  lemma TimeOrder(a: DateTime, b: DateTime)
    requires Valid(a) && Valid(b)
    ensures TextLess(TimePart(a), TimePart(b)) <==>
      a.hour < b.hour || (a.hour == b.hour && (a.minute < b.minute || (a.minute == b.minute && a.second < b.second)))
    ensures TimePart(a) == TimePart(b) <==> a.hour == b.hour && a.minute == b.minute && a.second == b.second
  {
    FieldOrder(' ', a.hour, b.hour);
    FieldOrder(':', a.minute, b.minute);
    FieldOrder(':', a.second, b.second);
    var p1a, p1b := Field(' ', a.hour), Field(' ', b.hour);
    var p2a, p2b := p1a + Field(':', a.minute), p1b + Field(':', b.minute);
    TextLessBlocks(p1a, Field(':', a.minute), p1b, Field(':', b.minute));
    TextLessBlocks(p2a, Field(':', a.second), p2b, Field(':', b.second));
    BlocksEqual(p1a, Field(':', a.minute), p1b, Field(':', b.minute));
    BlocksEqual(p2a, Field(':', a.second), p2b, Field(':', b.second));
  }

  lemma BlocksEqual(x: string, s: string, y: string, t: string)
    requires |x| == |y|
    ensures x + s == y + t <==> x == y && s == t
  {
    if x + s == y + t {
      assert x == (x + s)[..|x|] && y == (y + t)[..|y|];
      assert s == (x + s)[|x|..] && t == (y + t)[|y|..];
    }
  }

  // ---------------------------------------------------------------------
  // Seconds

  /** Days before January 1 of `year`, counted from January 1 of year 1. */
  function DaysBeforeYear(year: int): int {
    var y := year - 1;
    y * 365 + y / 4 - y / 100 + y / 400
  }

  /** Days of `year` before the first of `month`. */
  function DaysBeforeMonth(year: int, month: int): int
    requires 1 <= month <= 12
  {
    [0, 31, 59, 90, 120, 151, 181, 212, 243, 273, 304, 334][month - 1]
    + (if month > 2 && IsLeap(year) then 1 else 0)
  }

  /** `dt.toordinal()`: 1 for January 1 of year 1. */
  function Ordinal(dt: DateTime): int
    requires Valid(dt)
  {
    DaysBeforeYear(dt.year) + DaysBeforeMonth(dt.year, dt.month) + dt.day
  }

  /** Seconds since 0001-01-01 00:00:00; differences of these are what
      `(later - earlier).total_seconds()` gives for whole-second values. */
  function ToSeconds(dt: DateTime): int
    requires Valid(dt)
  {
    (Ordinal(dt) - 1) * 86400 + dt.hour * 3600 + dt.minute * 60 + dt.second
  }

  /** Going from `y - 1` to `y`, the count of multiples of `k` grows by one
      exactly when `y` is a multiple of `k`. */
  lemma MultiplesStep(y: int, k: int)
    requires k > 0
    ensures y / k - (y - 1) / k == if y % k == 0 then 1 else 0
  {
    var q, r := y / k, y % k;
    assert y == q * k + r;
    if r == 0 {
      assert y - 1 == (q - 1) * k + (k - 1);
      DivUnique(y - 1, k, q - 1, k - 1);
    } else {
      assert y - 1 == q * k + (r - 1);
      DivUnique(y - 1, k, q, r - 1);
    }
  }

  lemma DivUnique(x: int, k: int, q: int, r: int)
    requires k > 0 && 0 <= r < k && x == q * k + r
    ensures x / k == q
  {
    var q', r' := x / k, x % k;
    assert (q - q') * k == r' - r;
    MulSign(q - q', k);
  }

  lemma MulSign(d: int, k: int)
    requires k > 0
    ensures d >= 1 ==> d * k >= k
    ensures d <= -1 ==> d * k <= -k
  {
  }

  lemma YearLength(year: int)
    requires year >= 1
    ensures DaysBeforeYear(year + 1) == DaysBeforeYear(year) + DaysInYear(year)
  {
    var y := year - 1;
    MultiplesStep(year, 4);
    MultiplesStep(year, 100);
    MultiplesStep(year, 400);
    LeapDivisors(year);
    assert DaysBeforeYear(year + 1) - DaysBeforeYear(year)
        == 365 + (year / 4 - y / 4) - (year / 100 - y / 100) + (year / 400 - y / 400);
  }

  /** A multiple of 400 is one of 100, and a multiple of 100 is one of 4. */
  lemma LeapDivisors(year: int)
    ensures year % 400 == 0 ==> year % 100 == 0
    ensures year % 100 == 0 ==> year % 4 == 0
  {
    var q := year / 400;
    if year % 400 == 0 {
      assert year == (4 * q) * 100 + 0;
      DivUnique(year, 100, 4 * q, 0);
    }
    var p := year / 100;
    if year % 100 == 0 {
      assert year == (25 * p) * 4 + 0;
      DivUnique(year, 4, 25 * p, 0);
    }
  }

  /** The days of a valid date fit inside its year. */
  lemma DayOfYearBounds(dt: DateTime)
    requires Valid(dt)
    ensures 1 <= DaysBeforeMonth(dt.year, dt.month) + dt.day <= DaysInYear(dt.year)
  {
  }

  /** Within a year, an earlier month ends before a later month starts. */
  lemma MonthOrder(year: int, m1: int, d1: int, m2: int, d2: int)
    requires 1 <= m1 < m2 <= 12 && 1 <= d1 <= DaysInMonth(year, m1) && 1 <= d2
    ensures DaysBeforeMonth(year, m1) + d1 < DaysBeforeMonth(year, m2) + d2
  {
  }

  lemma {:induction false} YearOrder(y1: int, y2: int)
    requires 1 <= y1 < y2
    ensures DaysBeforeYear(y1) + DaysInYear(y1) <= DaysBeforeYear(y2)
    decreases y2 - y1
  {
    YearLength(y1);
    if y1 + 1 < y2 {
      YearOrder(y1 + 1, y2);
      YearLength(y1 + 1);
    }
  }

  /** An earlier timestamp has fewer seconds. */
  lemma BeforeSeconds(a: DateTime, b: DateTime)
    requires Valid(a) && Valid(b) && Before(a, b)
    ensures ToSeconds(a) < ToSeconds(b)
  {
    DayOfYearBounds(a);
    DayOfYearBounds(b);
    if a.year < b.year {
      YearOrder(a.year, b.year);
    } else if a.month < b.month {
      MonthOrder(a.year, a.month, a.day, b.month, b.day);
    }
    assert Ordinal(a) <= Ordinal(b);
  }

  /** Chronological order is exactly the order of seconds. */
  lemma SecondsOrder(a: DateTime, b: DateTime)
    requires Valid(a) && Valid(b)
    ensures Before(a, b) <==> ToSeconds(a) < ToSeconds(b)
    ensures a == b <==> ToSeconds(a) == ToSeconds(b)
  {
    if Before(a, b) {
      BeforeSeconds(a, b);
    } else if Before(b, a) {
      BeforeSeconds(b, a);
    }
  }
}
