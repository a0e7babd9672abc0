/**
 The launcher's timestamps: UTC, millisecond precision, in the Internet date-time format.

 A system time is a number of nanoseconds since 1970-01-01T00:00:00Z, negative before it.
 */
module Timestamp {
  import opened Common
  import opened Calendar
  import opened Text

  const NANOS_PER_MILLI := 1_000_000
  const NANOS_PER_SECOND := 1_000_000_000
  const MILLIS_PER_DAY := 86_400_000

  /** 10000-01-01T00:00:00Z, the first instant whose year needs five digits. */
  const YEAR_10000 := 253_402_300_800 * NANOS_PER_SECOND

  // ----- Reading decimal text -----

  predicate IsDigit(c: char) {
    '0' <= c <= '9'
  }

  function DigitValue(c: char): int
    requires IsDigit(c)
  {
    c as int - '0' as int
  }

  predicate AllDigits(text: string) {
    forall i :: 0 <= i < |text| ==> IsDigit(text[i])
  }

  function Number(text: string): nat
    requires AllDigits(text)
  {
    if text == [] then 0 else Number(text[..|text| - 1]) * 10 + DigitValue(text[|text| - 1])
  }

  function Power10(n: nat): nat {
    if n == 0 then 1 else 10 * Power10(n - 1)
  }

  lemma DigitReads(n: int)
    requires 0 <= n < 10
    ensures IsDigit(Digit(n)) && DigitValue(Digit(n)) == n
  {
  }

  lemma AppendedDigit(front: string, n: int)
    requires 0 <= n < 10 && AllDigits(front)
    ensures AllDigits(front + [Digit(n)]) && Number(front + [Digit(n)]) == Number(front) * 10 + n
  {
    DigitReads(n);
    assert (front + [Digit(n)])[..|front|] == front;
  }

  lemma {:induction false} PaddedReads(n: nat, width: nat)
    ensures AllDigits(Padded(n, width)) && Number(Padded(n, width)) == n
    decreases n + width
  {
    if n < 10 && width <= 1 {
      AppendedDigit([], n);
      assert [] + [Digit(n)] == Padded(n, width);
    } else {
      PaddedReads(n / 10, if width == 0 then 0 else width - 1);
      AppendedDigit(Padded(n / 10, if width == 0 then 0 else width - 1), n % 10);
    }
  }

  /** Padding is exact: the text has `width` characters unless the number needs more. */
  lemma {:induction false} PaddedLength(n: nat, width: nat)
    requires width >= 1
    ensures |Padded(n, width)| >= width
    ensures |Padded(n, width)| == width <==> n < Power10(width)
    decreases n + width
  {
    if width > 1 {
      PaddedLength(n / 10, width - 1);
    } else if n >= 10 {
      assert |Padded(n / 10, 0)| >= 1;
    }
  }

  lemma {:induction false} PaddedOrder(m: nat, n: nat, width: nat)
    requires width >= 1 && m < Power10(width) && n < Power10(width)
    ensures LexLess(Padded(m, width), Padded(n, width)) <==> m < n
    ensures Padded(m, width) == Padded(n, width) <==> m == n
  {
    if width > 1 {
      PaddedOrder(m / 10, n / 10, width - 1);
      PaddedLength(m / 10, width - 1);
      PaddedLength(n / 10, width - 1);
      LastDigitOrder(Padded(m / 10, width - 1), m % 10, Padded(n / 10, width - 1), n % 10);
      QuotientOrder(m, n);
    } else {
      LastDigitOrder([], m, [], n);
      assert [] + [Digit(m)] == Padded(m, 1) && [] + [Digit(n)] == Padded(n, 1);
    }
  }

  lemma QuotientOrder(m: nat, n: nat)
    ensures m < n <==> m / 10 < n / 10 || (m / 10 == n / 10 && m % 10 < n % 10)
    ensures m == n <==> m / 10 == n / 10 && m % 10 == n % 10
  {
  }

  lemma LastDigitOrder(a: string, x: int, b: string, y: int)
    requires |a| == |b| && 0 <= x < 10 && 0 <= y < 10
    ensures LexLess(a + [Digit(x)], b + [Digit(y)]) <==> LexLess(a, b) || (a == b && x < y)
    ensures a + [Digit(x)] == b + [Digit(y)] <==> a == b && x == y
  {
    DigitReads(x);
    DigitReads(y);
    LexOfConcat(a, [Digit(x)], b, [Digit(y)]);
    assert LexLess([Digit(x)], [Digit(y)]) <==> Digit(x) < Digit(y);
    assert (a + [Digit(x)])[..|a|] == a && (b + [Digit(y)])[..|b|] == b;
    assert (a + [Digit(x)])[|a|] == Digit(x) && (b + [Digit(y)])[|b|] == Digit(y);
  }

  // ----- The text of a time -----

  datatype Fields = Fields(date: Date, hour: int, minute: int, second: int, millis: int)

  function FieldsOf(time: int): Fields {
    var since := if time < 0 then 0 else time;
    var seconds := since / NANOS_PER_SECOND;
    var ofDay := seconds % 86_400;
    Fields(CivilFromDays(seconds / 86_400),
           ofDay / 3_600, ofDay % 3_600 / 60, ofDay % 60,
           since % NANOS_PER_SECOND / NANOS_PER_MILLI)
  }

  predicate InRange(f: Fields) {
    && ValidDate(f.date) && f.date.year >= 0
    && 0 <= f.hour < 24 && 0 <= f.minute < 60 && 0 <= f.second < 60 && 0 <= f.millis < 1_000
  }

  function DateText(d: Date): string
    requires d.year >= 0 && d.month >= 0 && d.day >= 0
  {
    Padded(d.year, 4) + ("-" + (Padded(d.month, 2) + ("-" + Padded(d.day, 2))))
  }

  function ClockText(f: Fields): string
    requires f.hour >= 0 && f.minute >= 0 && f.second >= 0 && f.millis >= 0
  {
    Padded(f.hour, 2) + (":" + (Padded(f.minute, 2) + (":" + (Padded(f.second, 2)
    + ("." + (Padded(f.millis, 3) + "Z"))))))
  }

  function TimeText(f: Fields): string
    requires InRange(f)
  {
    DateText(f.date) + ("T" + ClockText(f))
  }

  function Rfc3339(time: int): string {
    FieldsInRange(time);
    TimeText(FieldsOf(time))
  }

  /** Milliseconds since the epoch that a timestamp stands for. Earlier times read as the epoch. */
  function MillisOf(time: int): int {
    (if time < 0 then 0 else time) / NANOS_PER_MILLI
  }

  /** Milliseconds from the epoch to a date and time of day, by counting calendar days. */
  function MillisAt(f: Fields): int
    requires InRange(f)
  {
    DayCount(f.date) * MILLIS_PER_DAY
    + ((f.hour * 60 + f.minute) * 60 + f.second) * 1_000 + f.millis
  }

  lemma TimeOfDay(ofDay: int)
    requires 0 <= ofDay < 86_400
    ensures 0 <= ofDay / 3_600 < 24
    ensures 0 <= ofDay % 3_600 / 60 < 60
    ensures (ofDay / 3_600 * 60 + ofDay % 3_600 / 60) * 60 + ofDay % 60 == ofDay
  {
  }

  lemma SplitSince(since: int)
    requires since >= 0
    ensures 0 <= since % NANOS_PER_SECOND / NANOS_PER_MILLI < 1_000
    ensures since / NANOS_PER_MILLI
            == since / NANOS_PER_SECOND * 1_000 + since % NANOS_PER_SECOND / NANOS_PER_MILLI
  {
  }

  lemma BeforeInYears(d: Date, e: Date)
    requires d == e || Before(d, e)
    ensures d.year <= e.year
  {
  }

  lemma YearFrom1970(days: int)
    requires days >= 0
    ensures CivilFromDays(days).year >= 1970
  {
    hide *;
    EpochIsDayZero();
    if days > 0 {
      CivilIsMonotone(0, days);
    }
    BeforeInYears(CivilFromDays(0), CivilFromDays(days));
  }

  /** Years need a fifth digit from day 2932897 on. */
  lemma YearBefore10000(days: int)
    requires days >= 0
    ensures CivilFromDays(days).year < 10_000 <==> days < 2_932_897
  {
    hide *;
    FirstDayOf10000();
    if days < 2_932_896 {
      CivilIsMonotone(days, 2_932_896);
    } else if days > 2_932_897 {
      CivilIsMonotone(2_932_897, days);
    }
    if days < 2_932_897 {
      BeforeInYears(CivilFromDays(days), CivilFromDays(2_932_896));
    } else {
      BeforeInYears(CivilFromDays(2_932_897), CivilFromDays(days));
    }
  }

  lemma FirstDayOf10000()
    ensures CivilFromDays(2_932_896) == Date(9999, 12, 31)
    ensures CivilFromDays(2_932_897) == Date(10000, 1, 1)
  {
    hide *;
    LastDayOf9999();
    CountInvertsCivil(Date(9999, 12, 31));
    CivilSteps(2_932_896);
  }

  lemma LastDayOf9999()
    ensures ValidDate(Date(9999, 12, 31)) && DayCount(Date(9999, 12, 31)) == 2_932_896
    ensures NextDate(Date(9999, 12, 31)) == Date(10000, 1, 1)
  {
    YearIsTwelveMonths(9999);
  }

  lemma FieldsInRange(time: int)
    ensures InRange(FieldsOf(time))
  {
    var since := if time < 0 then 0 else time;
    var seconds := since / NANOS_PER_SECOND;
    CivilIsValid(seconds / 86_400);
    YearFrom1970(seconds / 86_400);
    TimeOfDay(seconds % 86_400);
    SplitSince(since);
  }

  lemma YearOfTime(time: int)
    ensures FieldsOf(time).date.year < 10_000 <==> time < YEAR_10000
  {
    var since := if time < 0 then 0 else time;
    YearBefore10000(since / NANOS_PER_SECOND / 86_400);
    assert since < YEAR_10000 <==> since / NANOS_PER_SECOND < 253_402_300_800;
    assert since / NANOS_PER_SECOND < 253_402_300_800
           <==> since / NANOS_PER_SECOND / 86_400 < 2_932_897;
  }

  /** The fields denote the instant itself, to the millisecond. */
  lemma FieldsDenoteTime(time: int)
    ensures InRange(FieldsOf(time)) && MillisAt(FieldsOf(time)) == MillisOf(time)
  {
    var since := if time < 0 then 0 else time;
    var seconds := since / NANOS_PER_SECOND;
    FieldsInRange(time);
    CivilInvertsCount(seconds / 86_400);
    TimeOfDay(seconds % 86_400);
    SplitSince(since);
  }

  /** On the first day the fields are the hours, minutes, seconds and milliseconds that have passed. */
  lemma FirstDay(hour: nat, minute: nat, second: nat, millis: nat, nanos: nat)
    requires hour < 24 && minute < 60 && second < 60 && millis < 1_000 && nanos < 1_000_000
    ensures FieldsOf((((hour * 60 + minute) * 60 + second) * 1_000 + millis) * 1_000_000 + nanos)
            == Fields(Date(1970, 1, 1), hour, minute, second, millis)
  {
    hide CivilFromDays;
    EpochIsDayZero();
    var ofDay := (hour * 60 + minute) * 60 + second;
    var since := (ofDay * 1_000 + millis) * 1_000_000 + nanos;
    Quotient(since, 1_000_000_000, ofDay, millis * 1_000_000 + nanos);
    Quotient(millis * 1_000_000 + nanos, 1_000_000, millis, nanos);
    Quotient(ofDay, 86_400, 0, ofDay);
    Quotient(ofDay, 3_600, hour, minute * 60 + second);
    Quotient(minute * 60 + second, 60, minute, second);
    Quotient(ofDay, 60, hour * 60 + minute, second);
  }

  lemma Quotient(n: int, d: int, q: int, r: int)
    requires n == q * d + r && 0 <= r < d
    ensures n / d == q && n % d == r
  {
    var k := n / d - q;
    assert k * d == r - n % d;
    assert k >= 1 ==> k * d >= d;
    assert k <= -1 ==> k * d <= -d;
  }

  // ----- RFC 3339 -----

  function Field(text: string, start: nat, length: nat): string
    requires start + length <= |text|
  {
    text[start..start + length]
  }

  /** The grammar of section 5.6 of RFC 3339, with the offset written as "Z". */
  predicate DateTime(text: string) {
    && |text| >= 20 && text[|text| - 1] == 'Z'
    && text[4] == '-' && text[7] == '-' && text[10] == 'T' && text[13] == ':' && text[16] == ':'
    && AllDigits(Field(text, 0, 4)) && AllDigits(Field(text, 5, 2)) && AllDigits(Field(text, 8, 2))
    && AllDigits(Field(text, 11, 2)) && AllDigits(Field(text, 14, 2))
    && AllDigits(Field(text, 17, 2))
    && ValidDate(DateField(text))
    && Number(Field(text, 11, 2)) <= 23 && Number(Field(text, 14, 2)) <= 59
    && Number(Field(text, 17, 2)) <= 60
    && (|text| > 20 ==> |text| >= 22 && text[19] == '.' && AllDigits(text[20..|text| - 1]))
  }

  function DateField(text: string): Date
    requires |text| >= 20
    requires AllDigits(Field(text, 0, 4)) && AllDigits(Field(text, 5, 2))
             && AllDigits(Field(text, 8, 2))
  {
    Date(Number(Field(text, 0, 4)), Number(Field(text, 5, 2)), Number(Field(text, 8, 2)))
  }

  /** Read back a date-time that carries milliseconds and no leap second. */
  function Parse(text: string): Option<int> {
    if !DateTime(text) || |text| != 24 || Number(Field(text, 17, 2)) == 60 then None
    else
      ThreeDigits(text[20..23]);
      Some(MillisAt(Fields(DateField(text), Number(Field(text, 11, 2)), Number(Field(text, 14, 2)),
                           Number(Field(text, 17, 2)), Number(text[20..23]))))
  }

  lemma ThreeDigits(text: string)
    requires |text| == 3 && AllDigits(text)
    ensures Number(text) < 1_000
  {
    assert text[..2][..1][..0] == [];
    assert Number(text[..2][..1]) < 10;
    assert Number(text[..2]) < 100;
  }

  lemma FieldWidths(f: Fields)
    requires InRange(f) && f.date.year < 10_000
    ensures |Padded(f.date.year, 4)| == 4 && |Padded(f.millis, 3)| == 3
    ensures |Padded(f.date.month, 2)| == |Padded(f.date.day, 2)| == 2
    ensures |Padded(f.hour, 2)| == |Padded(f.minute, 2)| == |Padded(f.second, 2)| == 2
  {
    assert Power10(2) == 100 && Power10(3) == 1_000 && Power10(4) == 10_000;
    PaddedLength(f.date.year, 4);
    PaddedLength(f.date.month, 2);
    PaddedLength(f.date.day, 2);
    PaddedLength(f.hour, 2);
    PaddedLength(f.minute, 2);
    PaddedLength(f.second, 2);
    PaddedLength(f.millis, 3);
  }

  lemma TextLayout(f: Fields)
    requires InRange(f) && f.date.year < 10_000
    ensures var text := TimeText(f);
            && |text| == 24 && text[23] == 'Z' && text[19] == '.'
            && text[4] == '-' && text[7] == '-' && text[10] == 'T'
            && text[13] == ':' && text[16] == ':'
            && Field(text, 0, 4) == Padded(f.date.year, 4)
            && Field(text, 5, 2) == Padded(f.date.month, 2)
            && Field(text, 8, 2) == Padded(f.date.day, 2)
            && Field(text, 11, 2) == Padded(f.hour, 2)
            && Field(text, 14, 2) == Padded(f.minute, 2)
            && Field(text, 17, 2) == Padded(f.second, 2)
            && text[20..23] == Padded(f.millis, 3)
  {
    hide Padded, DateText, ClockText;
    FieldWidths(f);
    DateLayout(f.date);
    ClockLayout(f);
    var text, day, clock := TimeText(f), DateText(f.date), ClockText(f);
    assert text[0..4] == day[0..4] && text[5..7] == day[5..7] && text[8..10] == day[8..10];
    assert text[11..13] == clock[0..2] && text[14..16] == clock[3..5];
    assert text[17..19] == clock[6..8] && text[20..23] == clock[9..12];
  }

  lemma DateLayout(d: Date)
    requires d.year >= 0 && d.month >= 0 && d.day >= 0
    requires |Padded(d.year, 4)| == 4 && |Padded(d.month, 2)| == |Padded(d.day, 2)| == 2
    ensures var text := DateText(d);
            && |text| == 10 && text[4] == '-' && text[7] == '-'
            && text[0..4] == Padded(d.year, 4) && text[5..7] == Padded(d.month, 2)
            && text[8..10] == Padded(d.day, 2)
  {
    hide Padded;
  }

  lemma ClockLayout(f: Fields)
    requires f.hour >= 0 && f.minute >= 0 && f.second >= 0 && f.millis >= 0
    requires |Padded(f.hour, 2)| == |Padded(f.minute, 2)| == |Padded(f.second, 2)| == 2
    requires |Padded(f.millis, 3)| == 3
    ensures var text := ClockText(f);
            && |text| == 13 && text[2] == ':' && text[5] == ':' && text[8] == '.' && text[12] == 'Z'
            && text[0..2] == Padded(f.hour, 2) && text[3..5] == Padded(f.minute, 2)
            && text[6..8] == Padded(f.second, 2) && text[9..12] == Padded(f.millis, 3)
  {
    hide Padded;
  }

  /** Every time before year 10000 is printed as a date-time that reads back to its millisecond. */
  lemma TimestampRoundTrip(time: int)
    requires time < YEAR_10000
    ensures DateTime(Rfc3339(time)) && Parse(Rfc3339(time)) == Some(MillisOf(time))
  {
    var f := FieldsOf(time);
    FieldsDenoteTime(time);
    YearOfTime(time);
    TextLayout(f);
    PaddedReads(f.date.year, 4);
    PaddedReads(f.date.month, 2);
    PaddedReads(f.date.day, 2);
    PaddedReads(f.hour, 2);
    PaddedReads(f.minute, 2);
    PaddedReads(f.second, 2);
    PaddedReads(f.millis, 3);
  }

  /** From year 10000 on the text is no date-time: its year has five digits or more. */
  lemma DateTimeUntilYear10000(time: int)
    ensures DateTime(Rfc3339(time)) <==> time < YEAR_10000
  {
    FieldsInRange(time);
    YearOfTime(time);
    if time < YEAR_10000 {
      TimestampRoundTrip(time);
    } else {
      var year := FieldsOf(time).date.year;
      assert Power10(4) == 10_000;
      PaddedLength(year, 4);
      PaddedReads(year, 4);
      assert Rfc3339(time)[4] == Padded(year, 4)[4];
    }
  }

  /** Reading back gives the time's own millisecond exactly for times from the epoch on. */
  lemma ReadsBackFromEpochOn(time: int)
    requires time < YEAR_10000
    ensures Parse(Rfc3339(time)) == Some(time / NANOS_PER_MILLI) <==> time >= 0
  {
    hide *;
    TimestampRoundTrip(time);
    MillisSinceEpoch(time);
  }

  lemma MillisSinceEpoch(time: int)
    ensures MillisOf(time) == time / NANOS_PER_MILLI <==> time >= 0
  {
  }

  // ----- Order -----

  predicate Earlier(f: Fields, g: Fields) {
    Before(f.date, g.date)
    || (f.date == g.date
        && (f.hour < g.hour || (f.hour == g.hour
        && (f.minute < g.minute || (f.minute == g.minute
        && (f.second < g.second || (f.second == g.second && f.millis < g.millis)))))))
  }

  lemma EarlierHasFewerMillis(f: Fields, g: Fields)
    requires InRange(f) && InRange(g)
    ensures Earlier(f, g) ==> MillisAt(f) < MillisAt(g)
  {
    if Before(f.date, g.date) {
      CountIsMonotone(f.date, g.date);
    }
  }

  /** Fixed-width fields, most significant first, compare as the fields do. */
  lemma TextOrder(f: Fields, g: Fields)
    requires InRange(f) && InRange(g) && f.date.year < 10_000 && g.date.year < 10_000
    ensures LexLess(TimeText(f), TimeText(g)) <==> Earlier(f, g)
  {
    FieldWidths(f);
    FieldWidths(g);
    assert Power10(2) == 100 && Power10(3) == 1_000 && Power10(4) == 10_000;
    var f7, g7 := Padded(f.millis, 3) + "Z", Padded(g.millis, 3) + "Z";
    var f6, g6 := Padded(f.second, 2) + ("." + f7), Padded(g.second, 2) + ("." + g7);
    var f5, g5 := Padded(f.minute, 2) + (":" + f6), Padded(g.minute, 2) + (":" + g6);
    var f4, g4 := Padded(f.hour, 2) + (":" + f5), Padded(g.hour, 2) + (":" + g5);
    FieldOrder(f.millis, g.millis, 3, "Z", "Z");
    assert !LexLess("Z", "Z");
    FieldThenOrder(f.second, g.second, 2, '.', f7, g7);
    FieldThenOrder(f.minute, g.minute, 2, ':', f6, g6);
    FieldThenOrder(f.hour, g.hour, 2, ':', f5, g5);
    DateTextOrder(f.date, g.date);
    LexOfConcat(DateText(f.date), "T" + f4, DateText(g.date), "T" + g4);
    LexOfConcat("T", f4, "T", g4);
  }

  lemma DateTextOrder(d: Date, e: Date)
    requires ValidDate(d) && ValidDate(e) && 0 <= d.year < 10_000 && 0 <= e.year < 10_000
    ensures |DateText(d)| == |DateText(e)| == 10
    ensures LexLess(DateText(d), DateText(e)) <==> Before(d, e)
    ensures DateText(d) == DateText(e) <==> d == e
  {
    FieldWidths(Fields(d, 0, 0, 0, 0));
    FieldWidths(Fields(e, 0, 0, 0, 0));
    DateLayout(d);
    DateLayout(e);
    assert Power10(2) == 100 && Power10(4) == 10_000;
    PaddedOrder(d.day, e.day, 2);
    PaddedOrder(d.month, e.month, 2);
    PaddedOrder(d.year, e.year, 4);
    var d2 := Padded(d.month, 2) + ("-" + Padded(d.day, 2));
    var e2 := Padded(e.month, 2) + ("-" + Padded(e.day, 2));
    FieldThenOrder(d.month, e.month, 2, '-', Padded(d.day, 2), Padded(e.day, 2));
    FieldThenOrder(d.year, e.year, 4, '-', d2, e2);
  }

  lemma FieldOrder(m: nat, n: nat, width: nat, rest: string, other: string)
    requires width >= 1 && m < Power10(width) && n < Power10(width)
    ensures LexLess(Padded(m, width) + rest, Padded(n, width) + other)
            <==> m < n || (m == n && LexLess(rest, other))
  {
    PaddedLength(m, width);
    PaddedLength(n, width);
    PaddedOrder(m, n, width);
    LexOfConcat(Padded(m, width), rest, Padded(n, width), other);
  }

  lemma FieldThenOrder(m: nat, n: nat, width: nat, separator: char, rest: string, other: string)
    requires width >= 1 && m < Power10(width) && n < Power10(width)
    ensures LexLess(Padded(m, width) + ([separator] + rest), Padded(n, width) + ([separator] + other))
            <==> m < n || (m == n && LexLess(rest, other))
  {
    FieldOrder(m, n, width, [separator] + rest, [separator] + other);
    LexOfConcat([separator], rest, [separator], other);
  }

  lemma EarlierIsTotal(f: Fields, g: Fields)
    ensures f == g || Earlier(f, g) || Earlier(g, f)
  {
  }

  /** Timestamps sort as text exactly as their times do. */
  lemma TimestampsSortByTime(s: int, t: int)
    requires s < YEAR_10000 && t < YEAR_10000
    ensures LexLess(Rfc3339(s), Rfc3339(t)) <==> MillisOf(s) < MillisOf(t)
  {
    FieldsDenoteTime(s);
    FieldsDenoteTime(t);
    YearOfTime(s);
    YearOfTime(t);
    FieldsSort(FieldsOf(s), FieldsOf(t));
  }

  lemma FieldsSort(f: Fields, g: Fields)
    requires InRange(f) && InRange(g) && f.date.year < 10_000 && g.date.year < 10_000
    ensures LexLess(TimeText(f), TimeText(g)) <==> MillisAt(f) < MillisAt(g)
  {
    TextOrder(f, g);
    EarlierHasFewerMillis(f, g);
    EarlierHasFewerMillis(g, f);
    EarlierIsTotal(f, g);
  }
}
