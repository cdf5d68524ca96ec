/** Instants, the text the SQLite store keeps for them, and how far text order is time order.

    An instant is a count of nanoseconds from the start of year 0, in UTC on the proleptic
    Gregorian calendar.  Its text follows RFC 3339: fields of fixed width, then a fraction of a
    second without trailing zeros, then "Z". */
module Timestamps {
  import opened Prelude
  import opened TextOrder

  const SECOND := 1_000_000_000
  const NANO_DIGITS: nat := 9

  const DAYS_OF_FOUR_DIGIT_YEARS := 3_652_425

  /** Instants of the years 0 to 9999. */
  predicate InRange(t: int) {
    0 <= t < DAYS_OF_FOUR_DIGIT_YEARS * 86_400 * SECOND
  }

  // ---------------------------------------------------------------- the calendar

  predicate Leap(year: nat) {
    year % 4 == 0 && (year % 100 != 0 || year % 400 == 0)
  }

  function YearLength(year: nat): nat {
    if Leap(year) then 366 else 365
  }

  function MonthLength(year: nat, month: nat): nat {
    if month == 2 then (if Leap(year) then 29 else 28)
    else if month == 4 || month == 6 || month == 9 || month == 11 then 30
    else 31
  }

  /** Days from the start of year `a` to the start of year `b`. */
  function DaysBetweenYears(a: nat, b: nat): nat
    requires a <= b
    decreases b - a
  {
    if a == b then 0 else YearLength(a) + DaysBetweenYears(a + 1, b)
  }

  /** Days from the start of month `a` to the start of month `b` of a year. */
  function DaysBetweenMonths(year: nat, a: nat, b: nat): nat
    requires a <= b
    decreases b - a
  {
    if a == b then 0 else MonthLength(year, a) + DaysBetweenMonths(year, a + 1, b)
  }

  /** The year that day `day` of the years from `year` on falls in, and its day within that year. */
  function YearOf(day: nat, year: nat): (r: (nat, nat))
    ensures r.0 >= year && r.1 < YearLength(r.0)
    ensures day == DaysBetweenYears(year, r.0) + r.1
    decreases day
  {
    if day < YearLength(year) then (year, day) else YearOf(day - YearLength(year), year + 1)
  }

  /** The month that day `day` of the months from `month` on falls in, and its day within it. */
  function MonthOf(day: nat, year: nat, month: nat): (r: (nat, nat))
    requires 1 <= month <= 12 && day < DaysBetweenMonths(year, month, 13)
    ensures month <= r.0 <= 12 && r.1 < MonthLength(year, r.0)
    ensures day == DaysBetweenMonths(year, month, r.0) + r.1
    decreases 12 - month
  {
    if day < MonthLength(year, month) then (month, day)
    else MonthOf(day - MonthLength(year, month), year, month + 1)
  }

  lemma MonthsFillTheYear(year: nat)
    ensures DaysBetweenMonths(year, 1, 13) == YearLength(year)
  {
    assert DaysBetweenMonths(year, 7, 13) == 184;
    assert DaysBetweenMonths(year, 3, 7) == 122;
    assert DaysBetweenMonths(year, 3, 13) == 306 by {
      assert DaysBetweenMonths(year, 5, 13) == 245;
    }
  }

  predicate IsDate(year: nat, month: nat, day: nat) {
    1 <= month <= 12 && 1 <= day <= MonthLength(year, month)
  }

  /** Days from the start of year 0 to a date. */
  function DayNumber(year: nat, month: nat, day: nat): nat
    requires IsDate(year, month, day)
  {
    DaysBetweenYears(0, year) + DaysBetweenMonths(year, 1, month) + day - 1
  }

  /** Year, month and day of the month of a day. */
  function DateOf(n: nat): (r: (nat, nat, nat))
    ensures IsDate(r.0, r.1, r.2) && DayNumber(r.0, r.1, r.2) == n
  {
    var (year, dayOfYear) := YearOf(n, 0);
    MonthsFillTheYear(year);
    var (month, dayOfMonth) := MonthOf(dayOfYear, year, 1);
    (year, month, dayOfMonth + 1)
  }

  /** Hour, minute and second of a second of the day. */
  function TimeOf(r: nat): (f: seq<nat>)
    ensures |f| == 3 && r == f[0] * 3600 + f[1] * 60 + f[2] && f[1] < 60 && f[2] < 60
  {
    assert r == r / 3600 * 3600 + r % 3600 / 60 * 60 + r % 3600 % 60;
    [r / 3600, r % 3600 / 60, r % 60]
  }

  /** The six calendar fields of a second: year, month, day, hour, minute and second. */
  function SecondFields(s: nat): (f: seq<nat>)
    ensures |f| == 6
  {
    var (year, month, day) := DateOf(s / 86_400);
    [year, month, day] + TimeOf(s % 86_400)
  }

  function Fields(t: nat): (f: seq<nat>)
    ensures |f| == 6
  {
    SecondFields(t / SECOND)
  }

  /** Which fields name a second of the calendar. */
  predicate IsCivil(f: seq<nat>) {
    && |f| == 6
    && IsDate(f[0], f[1], f[2])
    && f[3] < 24 && f[4] < 60 && f[5] < 60
  }

  /** The second that six fields name. */
  function SecondOf(f: seq<nat>): nat
    requires IsCivil(f)
  {
    DayNumber(f[0], f[1], f[2]) * 86_400 + (f[3] * 3600 + f[4] * 60 + f[5])
  }

  lemma FieldsNameTheirSecond(t: nat)
    ensures IsCivil(Fields(t)) && SecondOf(Fields(t)) == t / SECOND
  {
    var s := t / SECOND;
    assert Fields(t)[3..] == TimeOf(s % 86_400);
  }

  lemma {:induction false} YearsAdd(a: nat, b: nat, c: nat)
    requires a <= b <= c
    ensures DaysBetweenYears(a, c) == DaysBetweenYears(a, b) + DaysBetweenYears(b, c)
    decreases b - a
  {
    if a < b {
      YearsAdd(a + 1, b, c);
    }
  }

  lemma {:induction false} MonthsAdd(year: nat, a: nat, b: nat, c: nat)
    requires a <= b <= c
    ensures DaysBetweenMonths(year, a, c) == DaysBetweenMonths(year, a, b) + DaysBetweenMonths(year, b, c)
    decreases b - a
  {
    if a < b {
      MonthsAdd(year, a + 1, b, c);
    }
  }

  /** The first day of a year is later than every day of an earlier year. */
  lemma YearsInOrder(a: nat, x: nat, b: nat)
    requires a < b && x < YearLength(a)
    ensures DaysBetweenYears(0, a) + x < DaysBetweenYears(0, b)
  {
    YearsAdd(0, a, b);
  }

  lemma MonthsInOrder(year: nat, a: nat, x: nat, b: nat)
    requires 1 <= a < b && x < MonthLength(year, a)
    ensures DaysBetweenMonths(year, 1, a) + x < DaysBetweenMonths(year, 1, b)
  {
    MonthsAdd(year, 1, a, b);
  }

  lemma DayOfYearFits(year: nat, month: nat, day: nat)
    requires IsDate(year, month, day)
    ensures DaysBetweenMonths(year, 1, month) + day - 1 < YearLength(year)
  {
    MonthsFillTheYear(year);
    MonthsAdd(year, 1, month, 13);
  }

  lemma EarlierYear(a: nat, m: nat, x: nat, b: nat, n: nat, y: nat)
    requires IsDate(a, m, x) && IsDate(b, n, y) && a < b
    ensures DayNumber(a, m, x) < DayNumber(b, n, y)
  {
    DayOfYearFits(a, m, x);
    YearsInOrder(a, DaysBetweenMonths(a, 1, m) + x - 1, b);
  }

  lemma EarlierMonth(a: nat, m: nat, x: nat, n: nat, y: nat)
    requires IsDate(a, m, x) && IsDate(a, n, y) && m < n
    ensures DayNumber(a, m, x) < DayNumber(a, n, y)
  {
    MonthsInOrder(a, m, x - 1, n);
  }

  /** Dates sort field by field. */
  lemma DatesInOrder(a: nat, m: nat, x: nat, b: nat, n: nat, y: nat)
    requires IsDate(a, m, x) && IsDate(b, n, y)
    ensures DayNumber(a, m, x) < DayNumber(b, n, y) <==> a < b || (a == b && (m < n || (m == n && x < y)))
  {
    if a < b {
      EarlierYear(a, m, x, b, n, y);
    } else if b < a {
      EarlierYear(b, n, y, a, m, x);
    } else if m < n {
      EarlierMonth(a, m, x, n, y);
    } else if n < m {
      EarlierMonth(a, n, y, m, x);
    }
  }

  /** Days before a year: 365 for each year, and one more for each leap year. */
  lemma {:induction false} DaysBefore(year: nat)
    ensures DaysBetweenYears(0, year) == 365 * year + (year + 3) / 4 - (year + 99) / 100 + (year + 399) / 400
  {
    if year > 0 {
      var y := year - 1;
      DaysBefore(y);
      YearsAdd(0, y, year);
      assert DaysBetweenYears(y, year) == YearLength(y);
      FourthYear(y);
      HundredthYear(y);
      FourHundredthYear(y);
    }
  }

  lemma Quotient4(n: nat, q: nat, r: nat)
    requires n == 4 * q + r && r < 4
    ensures n / 4 == q
  {
  }

  lemma FourthYear(y: nat)
    ensures (y + 4) / 4 == (y + 3) / 4 + (if y % 4 == 0 then 1 else 0)
  {
    var q, r := y / 4, y % 4;
    Quotient4(y + 4, q + 1, r);
    if r == 0 {
      Quotient4(y + 3, q, 3);
    } else {
      Quotient4(y + 3, q + 1, r - 1);
    }
  }

  lemma Quotient100(n: nat, q: nat, r: nat)
    requires n == 100 * q + r && r < 100
    ensures n / 100 == q
  {
  }

  lemma HundredthYear(y: nat)
    ensures (y + 100) / 100 == (y + 99) / 100 + (if y % 100 == 0 then 1 else 0)
    ensures y % 100 == 0 ==> y % 4 == 0
  {
    var q, r := y / 100, y % 100;
    Quotient100(y + 100, q + 1, r);
    if r == 0 {
      Quotient100(y + 99, q, 99);
      assert y == 4 * (25 * q);
    } else {
      Quotient100(y + 99, q + 1, r - 1);
    }
  }

  lemma Quotient400(n: nat, q: nat, r: nat)
    requires n == 400 * q + r && r < 400
    ensures n / 400 == q
  {
  }

  lemma FourHundredthYear(y: nat)
    ensures (y + 400) / 400 == (y + 399) / 400 + (if y % 400 == 0 then 1 else 0)
    ensures y % 400 == 0 ==> y % 100 == 0
  {
    var q, r := y / 400, y % 400;
    Quotient400(y + 400, q + 1, r);
    if r == 0 {
      Quotient400(y + 399, q, 399);
      assert y == 100 * (4 * q);
    } else {
      Quotient400(y + 399, q + 1, r - 1);
    }
  }

  lemma FirstDayOfYear(year: nat)
    ensures DayNumber(year, 1, 1) == DaysBetweenYears(0, year)
  {
    assert DaysBetweenMonths(year, 1, 1) == 0;
  }

  lemma YearTenThousand(year: nat)
    requires year == 10_000
    ensures DayNumber(year, 1, 1) == DAYS_OF_FOUR_DIGIT_YEARS
  {
    DaysBefore(year);
    FirstDayOfYear(year);
    Quotient4(year + 3, 2_500, 3);
    Quotient100(year + 99, 100, 99);
    Quotient400(year + 399, 25, 399);
  }

  lemma InRangeByDay(t: nat)
    ensures InRange(t) <==> t / SECOND / 86_400 < DAYS_OF_FOUR_DIGIT_YEARS
  {
    var s := t / SECOND;
    assert s * SECOND <= t < (s + 1) * SECOND;
    assert s / 86_400 * 86_400 <= s < (s / 86_400 + 1) * 86_400;
  }

  /** The range of instants is exactly the years that four digits can write. */
  lemma InRangeIffFourDigitYear(t: nat)
    ensures InRange(t) <==> Fields(t)[0] <= 9999
  {
    YearTenThousand(10_000);
    var day := t / SECOND / 86_400;
    InRangeByDay(t);
    var (year, month, d) := DateOf(day);
    DatesInOrder(year, month, d, 10_000, 1, 1);
  }

  /** Order of field lists: the first field that differs decides. */
  function FieldOrder(f: seq<nat>, g: seq<nat>): int
    requires |f| == |g|
  {
    if f == [] then 0
    else if f[0] < g[0] then -1
    else if f[0] > g[0] then 1
    else FieldOrder(f[1..], g[1..])
  }

  lemma {:induction false} FieldOrderAt(f: seq<nat>, g: seq<nat>, k: nat)
    requires |f| == |g| && k < |f|
    requires f[k] < g[k] && forall i :: 0 <= i < k ==> f[i] == g[i]
    ensures FieldOrder(f, g) == -1 && FieldOrder(g, f) == 1
  {
    if k > 0 {
      FieldOrderAt(f[1..], g[1..], k - 1);
    }
  }

  /** Later seconds have later fields. */
  lemma FieldsInOrder(t: nat, u: nat)
    requires t / SECOND < u / SECOND
    ensures FieldOrder(Fields(t), Fields(u)) == -1 && FieldOrder(Fields(u), Fields(t)) == 1
  {
    var s, v := t / SECOND, u / SECOND;
    if s / 86_400 < v / 86_400 {
      EarlierDay(s, v);
    } else {
      EarlierTime(s, v);
    }
  }

  lemma EarlierDay(s: nat, v: nat)
    requires s / 86_400 < v / 86_400
    ensures FieldOrder(SecondFields(s), SecondFields(v)) == -1 && FieldOrder(SecondFields(v), SecondFields(s)) == 1
  {
    var (a, m, x) := DateOf(s / 86_400);
    var (b, n, y) := DateOf(v / 86_400);
    DatesInOrder(a, m, x, b, n, y);
    var f, g := SecondFields(s), SecondFields(v);
    FieldOrderAt(f, g, if f[0] < g[0] then 0 else if f[1] < g[1] then 1 else 2);
  }

  lemma EarlierTime(s: nat, v: nat)
    requires s < v && s / 86_400 == v / 86_400
    ensures FieldOrder(SecondFields(s), SecondFields(v)) == -1 && FieldOrder(SecondFields(v), SecondFields(s)) == 1
  {
    var f, g := SecondFields(s), SecondFields(v);
    assert s % 86_400 < v % 86_400;
    assert f[3..] == TimeOf(s % 86_400) && g[3..] == TimeOf(v % 86_400);
    FieldOrderAt(f, g, if f[3] < g[3] then 3 else if f[4] < g[4] then 4 else 5);
  }

  // ---------------------------------------------------------------- formatting

  /** A field of the layout: the text that leads it and its number of digits. */
  datatype Field = Field(lead: string, width: nat)

  const LAYOUT: seq<Field> := [Field("", 4), Field("-", 2), Field("-", 2), Field("T", 2), Field(":", 2), Field(":", 2)]

  function Print(f: seq<nat>, layout: seq<Field>): string
    requires |f| == |layout|
  {
    if f == [] then "" else layout[0].lead + Digits(f[0], layout[0].width) + Print(f[1..], layout[1..])
  }

  /** The digits of the fraction of a second, without trailing zeros. */
  function FractionDigits(t: nat): string {
    Trimmed(t % SECOND, NANO_DIGITS)
  }

  function FractionOf(digits: string): string {
    (if digits == "" then "" else "." + digits) + "Z"
  }

  function FractionText(t: nat): string {
    FractionOf(FractionDigits(t))
  }

  function FormatTime(t: nat): string {
    Print(Fields(t), LAYOUT) + FractionText(t)
  }

  /** Fields that fit their widths. */
  predicate Fits(f: seq<nat>, layout: seq<Field>) {
    |f| == |layout| && forall i :: 0 <= i < |f| ==> f[i] < Pow10(layout[i].width)
  }

  lemma {:induction false} PrintLength(f: seq<nat>, g: seq<nat>, layout: seq<Field>)
    requires |f| == |g| == |layout|
    ensures |Print(f, layout)| == |Print(g, layout)|
  {
    if f != [] {
      PrintLength(f[1..], g[1..], layout[1..]);
    }
  }

  /** Printed fields sort like the fields. */
  lemma {:induction false} PrintSortsByFields(f: seq<nat>, g: seq<nat>, layout: seq<Field>)
    requires Fits(f, layout) && Fits(g, layout)
    ensures Compare(Print(f, layout), Print(g, layout)) == FieldOrder(f, g)
  {
    if f != [] {
      var lead, w := layout[0].lead, layout[0].width;
      var a, b := Digits(f[0], w), Digits(g[0], w);
      var c, d := Print(f[1..], layout[1..]), Print(g[1..], layout[1..]);
      PrintSortsByFields(f[1..], g[1..], layout[1..]);
      DigitsSortByValue(f[0], g[0], w);
      CompareEqual(a, b);
      CompareBlocks(a, b, c, d);
      assert lead + a + c == lead + (a + c) && lead + b + d == lead + (b + d);
      CompareBlocks(lead, lead, a + c, b + d);
    }
  }

  lemma FieldsFit(t: nat)
    requires InRange(t)
    ensures Fits(Fields(t), LAYOUT)
  {
    FieldsNameTheirSecond(t);
    InRangeIffFourDigitYear(t);
    assert Pow10(2) == 100 && Pow10(4) == 10_000;
  }

  // ---------------------------------------------------------------- text order against time order

  predicate SameSecond(t: nat, u: nat) {
    t / SECOND == u / SECOND
  }

  /** The case in which the shorter text is the earlier time but sorts last. */
  predicate ProperPrefixCase(t: nat, u: nat) {
    && SameSecond(t, u)
    && (FractionDigits(t) < FractionDigits(u) || FractionDigits(u) < FractionDigits(t))
  }

  function TextOrderOf(t: nat, u: nat): int {
    Compare(FormatTime(t), FormatTime(u))
  }

  /** The text of a fraction that continues another sorts first: "Z" sorts after "." and after every digit. */
  lemma LongerFractionSortsFirst(f: string, g: string)
    requires f < g && AllDigits(g)
    ensures Compare(FractionOf(f), FractionOf(g)) == 1 && Compare(FractionOf(g), FractionOf(f)) == -1
  {
    assert IsDigit(g[|f|]);
    if f == "" {
      assert FractionOf(g)[0] == '.';
    } else {
      var rest := g[|f|..] + "Z";
      assert FractionOf(g) == ("." + f) + rest;
      CompareBlocks("." + f, "." + f, "Z", rest);
      CompareBlocks("." + f, "." + f, rest, "Z");
    }
  }

  lemma Billion()
    ensures Pow10(NANO_DIGITS) == SECOND
  {
    assert Pow10(3) == 1000;
    assert Pow10(6) == 1_000_000;
  }

  /** Fractions that diverge sort like their digits. */
  lemma DivergingFractions(f: string, g: string)
    requires !(f <= g) && !(g <= f)
    ensures Compare(FractionOf(f), FractionOf(g)) == Compare(f, g)
  {
    CompareDiverging(f, g, "Z", "Z");
    assert FractionOf(f) == "." + (f + "Z") && FractionOf(g) == "." + (g + "Z");
    CompareBlocks(".", ".", f + "Z", g + "Z");
  }

  /** The whole seconds are compared first. */
  lemma TextOrderIs(t: nat, u: nat)
    requires InRange(t) && InRange(u)
    ensures TextOrderOf(t, u) == if SameSecond(t, u) then Compare(FractionText(t), FractionText(u)) else Sign(t - u)
  {
    var f, g := Fields(t), Fields(u);
    var p, q := Print(f, LAYOUT), Print(g, LAYOUT);
    PrintLength(f, g, LAYOUT);
    CompareBlocks(p, q, FractionText(t), FractionText(u));
    if SameSecond(t, u) {
      assert f == g;
    } else {
      SecondsSort(t, u);
      CompareEqual(p, q);
    }
  }

  lemma SecondsSort(t: nat, u: nat)
    requires InRange(t) && InRange(u) && !SameSecond(t, u)
    ensures Compare(Print(Fields(t), LAYOUT), Print(Fields(u), LAYOUT)) == Sign(t - u) != 0
  {
    FieldsFit(t);
    FieldsFit(u);
    PrintSortsByFields(Fields(t), Fields(u), LAYOUT);
    if t / SECOND < u / SECOND {
      FieldsInOrder(t, u);
    } else {
      FieldsInOrder(u, t);
    }
  }

  /** Text order is time order except in the proper-prefix case, where it is the opposite. */
  lemma TextOrderIsTimeOrderIff(t: nat, u: nat)
    requires InRange(t) && InRange(u)
    ensures TextOrderOf(t, u) == if ProperPrefixCase(t, u) then -Sign(t - u) else Sign(t - u)
    ensures (TextOrderOf(t, u) <= 0 <==> t <= u) <==> !ProperPrefixCase(t, u)
  {
    TextOrderIs(t, u);
    if SameSecond(t, u) {
      var f, g := FractionDigits(t), FractionDigits(u);
      var m, n := t % SECOND, u % SECOND;
      Billion();
      TrimmedPads(m, NANO_DIGITS);
      TrimmedPads(n, NANO_DIGITS);
      if f < g {
        LongerFractionIsLarger(m, n, NANO_DIGITS);
        LongerFractionSortsFirst(f, g);
      } else if g < f {
        LongerFractionIsLarger(n, m, NANO_DIGITS);
        LongerFractionSortsFirst(g, f);
      } else if f == g {
        EqualFractionsAreEqual(m, n, NANO_DIGITS);
        CompareEqual(FractionText(t), FractionText(u));
      } else {
        DivergingFractionsSortByValue(m, n, NANO_DIGITS);
        DivergingFractions(f, g);
      }
    }
  }

  /** Which way text order errs: the later time sorts first exactly when, in the same second, its
      fraction properly continues the other's. */
  lemma TextOrderErrsIff(t: nat, u: nat)
    requires InRange(t) && InRange(u)
    ensures TextOrderOf(t, u) <= 0 && t > u <==> SameSecond(t, u) && FractionDigits(u) < FractionDigits(t)
    ensures TextOrderOf(t, u) > 0 && t <= u <==> SameSecond(t, u) && FractionDigits(t) < FractionDigits(u)
  {
    TextOrderIsTimeOrderIff(t, u);
    if SameSecond(t, u) {
      Billion();
      if FractionDigits(t) < FractionDigits(u) {
        LongerFractionIsLarger(t % SECOND, u % SECOND, NANO_DIGITS);
      } else if FractionDigits(u) < FractionDigits(t) {
        LongerFractionIsLarger(u % SECOND, t % SECOND, NANO_DIGITS);
      }
    }
  }

  /** Section 5.1 of RFC 3339: with equally many fractional digits, text order is time order. */
  lemma EqualDigitCountsAgree(t: nat, u: nat)
    requires InRange(t) && InRange(u) && |FractionDigits(t)| == |FractionDigits(u)|
    ensures TextOrderOf(t, u) == Sign(t - u)
  {
    TextOrderIsTimeOrderIff(t, u);
  }

  // ---------------------------------------------------------------- parsing

  /** Reads the fields of the layout; yields them with the text that remains. */
  function Scan(s: string, layout: seq<Field>): Option<(seq<nat>, string)> {
    if layout == [] then Some(([], s))
    else
      var lead, w := layout[0].lead, layout[0].width;
      if lead <= s && |s| >= |lead| + w && AllDigits(s[|lead|..|lead| + w]) then
        match Scan(s[|lead| + w..], layout[1..])
        case None => None
        case Some((f, rest)) => Some(([Value(s[|lead|..|lead| + w])] + f, rest))
      else None
  }

  /** Reads an optional fraction and the closing "Z"; yields nanoseconds. */
  function ScanFraction(s: string): Option<nat> {
    if s == "Z" then Some(0)
    else if 3 <= |s| <= 11 && s[0] == '.' && s[|s| - 1] == 'Z' && AllDigits(s[1..|s| - 1]) then
      Some(Value(s[1..|s| - 1] + Zeros(11 - |s|)))
    else None
  }

  function Parse(s: string, layout: seq<Field>): Option<nat> {
    match Scan(s, layout)
    case None => None
    case Some((f, rest)) =>
      if !IsCivil(f) then None
      else
        match ScanFraction(rest)
        case None => None
        case Some(nanos) => Some(SecondOf(f) * SECOND + nanos)
  }

  /** Reads a timestamp written as section 5.6 of RFC 3339 has it, with "Z" for the offset. */
  function ParseTime(s: string): Option<nat> {
    Parse(s, LAYOUT)
  }

  lemma ScanField(a: string, more: string, layout: seq<Field>)
    requires layout != [] && |a| == layout[0].width && AllDigits(a) && Scan(more, layout[1..]).Some?
    ensures var (g, rest) := Scan(more, layout[1..]).value;
            Scan(layout[0].lead + a + more, layout) == Some(([Value(a)] + g, rest))
  {
    var lead, s := layout[0].lead, layout[0].lead + a + more;
    assert s[|lead|..|lead| + |a|] == a && s[|lead| + |a|..] == more;
  }

  lemma {:induction false} ScanUndoesPrint(f: seq<nat>, layout: seq<Field>, rest: string)
    requires Fits(f, layout)
    ensures Scan(Print(f, layout) + rest, layout) == Some((f, rest))
  {
    if f == [] {
      assert "" + rest == rest;
    } else {
      var a, more := Digits(f[0], layout[0].width), Print(f[1..], layout[1..]);
      ScanUndoesPrint(f[1..], layout[1..], rest);
      ValueOfDigits(f[0], layout[0].width);
      ScanField(a, more + rest, layout);
      Regroup(layout[0].lead + a, more, rest);
      assert f == [f[0]] + f[1..];
    }
  }

  lemma ScanUndoesFraction(t: nat)
    ensures ScanFraction(FractionText(t)) == Some(t % SECOND)
  {
    var n, f := t % SECOND, FractionDigits(t);
    var s := FractionText(t);
    TrimmedPads(n, NANO_DIGITS);
    Billion();
    ValueOfDigits(n, NANO_DIGITS);
    if f == "" {
      assert Digits(n, NANO_DIGITS) == Zeros(NANO_DIGITS);
      ZerosAreDigits(NANO_DIGITS);
      ValueOfDigits(0, NANO_DIGITS);
    } else {
      assert s[1..|s| - 1] == f;
      assert f + Zeros(11 - |s|) == Digits(n, NANO_DIGITS);
    }
  }

  lemma ParseUndoesPrint(f: seq<nat>, fraction: string, nanos: nat, layout: seq<Field>)
    requires IsCivil(f) && Fits(f, layout) && ScanFraction(fraction) == Some(nanos)
    ensures Parse(Print(f, layout) + fraction, layout) == Some(SecondOf(f) * SECOND + nanos)
  {
    ScanUndoesPrint(f, layout, fraction);
  }

  /** Storing an instant and loading it back gives the same nanosecond. */
  lemma ParseUndoesFormat(t: nat)
    requires InRange(t)
    ensures ParseTime(FormatTime(t)) == Some(t)
  {
    FieldsFit(t);
    FieldsNameTheirSecond(t);
    ScanUndoesFraction(t);
    ParseUndoesPrint(Fields(t), FractionText(t), t % SECOND, LAYOUT);
  }

  // ---------------------------------------------------------------- what parsing accepts

  /** A date is the date of its day number. */
  lemma DateOfDay(year: nat, month: nat, day: nat)
    requires IsDate(year, month, day)
    ensures DateOf(DayNumber(year, month, day)) == (year, month, day)
  {
    var (a, m, x) := DateOf(DayNumber(year, month, day));
    DatesInOrder(a, m, x, year, month, day);
    DatesInOrder(year, month, day, a, m, x);
  }

  lemma TimeOfSecond(h: nat, m: nat, s: nat)
    requires h < 24 && m < 60 && s < 60
    ensures TimeOf(h * 3600 + m * 60 + s) == [h, m, s] && h * 3600 + m * 60 + s < 86_400
  {
    var r := h * 3600 + m * 60 + s;
    assert r == h * 3600 + (m * 60 + s);
    Hours(r, h, m * 60 + s);
    Minutes(m * 60 + s, m, s);
    Minutes(r, h * 60 + m, s);
  }

  lemma Hours(n: nat, q: nat, r: nat)
    requires n == 3600 * q + r && r < 3600
    ensures n / 3600 == q && n % 3600 == r
  {
  }

  lemma Minutes(n: nat, q: nat, r: nat)
    requires n == 60 * q + r && r < 60
    ensures n / 60 == q && n % 60 == r
  {
  }

  /** The calendar fields of the second that fields name are those fields. */
  lemma FieldsOfTheirSecond(f: seq<nat>)
    requires IsCivil(f)
    ensures SecondFields(SecondOf(f)) == f
  {
    var day := DayNumber(f[0], f[1], f[2]);
    var r := f[3] * 3600 + f[4] * 60 + f[5];
    TimeOfSecond(f[3], f[4], f[5]);
    DateOfDay(f[0], f[1], f[2]);
    DaysAndRest(day, r);
  }

  lemma DaysAndRest(day: nat, r: nat)
    requires r < 86_400
    ensures (day * 86_400 + r) / 86_400 == day && (day * 86_400 + r) % 86_400 == r
  {
  }

  /** The text that a successful scan has read: a lead, digits, and the rest. */
  lemma ScanStep(s: string, layout: seq<Field>) returns (a: string, more: string)
    requires layout != [] && Scan(s, layout).Some?
    ensures s == layout[0].lead + a + more
    ensures AllDigits(a) && |a| == layout[0].width && Scan(more, layout[1..]).Some?
    ensures var (g, rest) := Scan(more, layout[1..]).value;
            Scan(s, layout) == Some(([Value(a)] + g, rest))
  {
    var lead, w := layout[0].lead, layout[0].width;
    a, more := s[|lead|..|lead| + w], s[|lead| + w..];
  }

  lemma PrintCons(v: nat, g: seq<nat>, layout: seq<Field>)
    requires layout != [] && v < Pow10(layout[0].width) && Fits(g, layout[1..])
    ensures Fits([v] + g, layout)
    ensures Print([v] + g, layout) == layout[0].lead + Digits(v, layout[0].width) + Print(g, layout[1..])
  {
    assert ([v] + g)[1..] == g;
  }

  lemma {:induction false} PrintUndoesScan(s: string, layout: seq<Field>)
    requires Scan(s, layout).Some?
    ensures Fits(Scan(s, layout).value.0, layout)
    ensures s == Print(Scan(s, layout).value.0, layout) + Scan(s, layout).value.1
    decreases layout
  {
    if layout == [] {
      assert "" + s == s;
    } else {
      var a, more := ScanStep(s, layout);
      var (g, rest) := Scan(more, layout[1..]).value;
      PrintUndoesScan(more, layout[1..]);
      DigitsOfValue(a);
      PrintCons(Value(a), g, layout);
      Regroup(layout[0].lead + a, Print(g, layout[1..]), rest);
    }
  }

  lemma Regroup(x: string, y: string, z: string)
    ensures x + (y + z) == x + y + z
  {
  }

  /** A fraction that is not written with trailing zeros. */
  predicate Shortest(fraction: string) {
    fraction == "Z" || (|fraction| >= 2 && fraction[|fraction| - 2] != '0')
  }

  /** Padding a fraction to nine digits and trimming it again drops its trailing zeros. */
  lemma PaddedFraction(d: string, k: nat)
    requires AllDigits(d) && |d| + k == NANO_DIGITS
    ensures Value(d + Zeros(k)) < SECOND
    ensures Trimmed(Value(d + Zeros(k)), NANO_DIGITS) == TrimZeros(d)
  {
    Billion();
    DigitsOfValue(d + Zeros(k));
    TrimZerosIgnoresZeros(d, k);
  }

  lemma FractionUndoesScan(x: string)
    requires ScanFraction(x).Some?
    ensures ScanFraction(x).value < SECOND
    ensures FractionOf(Trimmed(ScanFraction(x).value, NANO_DIGITS)) == x <==> Shortest(x)
  {
    if x == "Z" {
      TrimmedZero(NANO_DIGITS);
    } else {
      var d := x[1..|x| - 1];
      PaddedFraction(d, 11 - |x|);
      TrimZerosSplits(d);
      var f := TrimZeros(d);
      assert x == "." + d + "Z";
      assert |f| < |d| <==> d[|d| - 1] == '0';
      assert |FractionOf(f)| == if f == "" then 1 else |f| + 2;
    }
  }

  /** Only texts of real instants parse, and only those spelled the store's way come back from
      `FormatTime` unchanged: the others differ in trailing zeros of the fraction. */
  lemma ParseAccepts(s: string)
    requires ParseTime(s).Some?
    ensures var t := ParseTime(s).value;
            && InRange(t)
            && exists fraction ::
                 && s == Print(Fields(t), LAYOUT) + fraction
                 && ScanFraction(fraction) == Some(t % SECOND)
                 && (FormatTime(t) == s <==> Shortest(fraction))
  {
    var t := ParseTime(s).value;
    var (f, fraction) := Scan(s, LAYOUT).value;
    PrintUndoesScan(s, LAYOUT);
    FieldsOfTheirSecond(f);
    FractionUndoesScan(fraction);
    assert t / SECOND == SecondOf(f) && t % SECOND == ScanFraction(fraction).value;
    assert Fields(t) == f;
    FourDigitYear(f);
    InRangeIffFourDigitYear(t);
    SameTail(Print(f, LAYOUT), FractionText(t), fraction);
  }

  lemma FourDigitYear(f: seq<nat>)
    requires Fits(f, LAYOUT)
    ensures f[0] <= 9999
  {
    assert Pow10(2) == 100 && Pow10(4) == 10_000;
    assert f[0] < Pow10(LAYOUT[0].width);
  }

  lemma SameTail(p: string, x: string, y: string)
    ensures p + x == p + y <==> x == y
  {
    if p + x == p + y {
      assert x == (p + x)[|p|..] && y == (p + y)[|p|..];
    }
  }

  // ---------------------------------------------------------------- the calendar in closed form

  /** Days before a year. */
  function YearStart(year: nat): int {
    365 * year + (year + 3) / 4 - (year + 99) / 100 + (year + 399) / 400
  }

  /** Days before a month of a year. */
  function MonthStart(year: nat, month: nat): int {
    var shift := if month <= 2 then 0 else if YearStart(year + 1) - YearStart(year) == 366 then 1 else 2;
    (367 * month - 362) / 12 - shift
  }

  lemma LeapIff(year: nat)
    ensures Leap(year) <==> YearStart(year + 1) - YearStart(year) == 366
  {
    DaysBefore(year);
    DaysBefore(year + 1);
    YearsAdd(0, year, year + 1);
    assert DaysBetweenYears(year, year + 1) == YearLength(year);
  }

  /** What a month adds, at each month. */
  lemma MonthAdds(month: nat, shift: nat, next: nat)
    requires 1 <= month <= 12
    requires if month <= 2 then shift == 0 else 1 <= shift <= 2
    requires if month == 1 then next == 0 else 1 <= next <= 2 && (month > 2 ==> next == shift)
    ensures (367 * (month + 1) - 362) / 12 - next - ((367 * month - 362) / 12 - shift)
         == if month == 2 then 30 - next else if month in {4, 6, 9, 11} then 30 else 31
  {
  }

  lemma MonthAddsItsLength(year: nat, month: nat)
    requires 1 <= month <= 12
    ensures MonthStart(year, month + 1) == MonthStart(year, month) + MonthLength(year, month)
  {
    var long := if YearStart(year + 1) - YearStart(year) == 366 then 1 else 2;
    LeapIff(year);
    MonthAdds(month, if month <= 2 then 0 else long, if month == 1 then 0 else long);
  }

  lemma {:induction false} MonthStartIs(year: nat, month: nat)
    requires 1 <= month <= 13
    ensures DaysBetweenMonths(year, 1, month) == MonthStart(year, month)
    decreases month
  {
    if month > 1 {
      var before := month - 1;
      MonthStartIs(year, before);
      MonthsAdd(year, 1, before, month);
      MonthAddsItsLength(year, before);
    }
  }

  /** Which triples are dates, and which day each of them is. */
  lemma DateIs(year: nat, month: nat, day: nat)
    ensures IsDate(year, month, day)
            <==> 1 <= month <= 12 && 1 <= day <= MonthStart(year, month + 1) - MonthStart(year, month)
    ensures IsDate(year, month, day) ==>
              DayNumber(year, month, day) == YearStart(year) + MonthStart(year, month) + day - 1
  {
    if 1 <= month <= 12 {
      MonthStartIs(year, month);
      MonthAddsItsLength(year, month);
      DaysBefore(year);
    }
  }

  // ---------------------------------------------------------------- the text, character by character

  /** A timestamp of section 5.6 of RFC 3339 with "Z" for the offset and at most nine digits of a
      fraction: where its digits and its other characters stand, and that it names a real second. */
  predicate IsTimestamp(s: string) {
    && 20 <= |s| <= 30 && |s| != 21
    && s[4] == '-' && s[7] == '-' && s[10] == 'T' && s[13] == ':' && s[16] == ':'
    && s[19] == (if |s| == 20 then 'Z' else '.') && s[|s| - 1] == 'Z'
    && AllDigits(s[0..4]) && AllDigits(s[5..7]) && AllDigits(s[8..10])
    && AllDigits(s[11..13]) && AllDigits(s[14..16]) && AllDigits(s[17..19])
    && (|s| > 20 ==> AllDigits(s[20..|s| - 1]))
    && var (year, month, day) := (Value(s[0..4]), Value(s[5..7]), Value(s[8..10]));
       && 1 <= month <= 12 && 1 <= day <= MonthStart(year, month + 1) - MonthStart(year, month)
       && Value(s[11..13]) < 24 && Value(s[14..16]) < 60 && Value(s[17..19]) < 60
  }

  /** The nanoseconds of the fraction. */
  function NanosIn(s: string): nat
    requires IsTimestamp(s)
  {
    if |s| == 20 then 0 else Value(s[20..|s| - 1] + Zeros(30 - |s|))
  }

  /** The second that the digits name, counted from the start of year 0. */
  function SecondIn(s: string): int
    requires IsTimestamp(s)
  {
    var day := YearStart(Value(s[0..4])) + MonthStart(Value(s[0..4]), Value(s[5..7])) + Value(s[8..10]) - 1;
    ((day * 24 + Value(s[11..13])) * 60 + Value(s[14..16])) * 60 + Value(s[17..19])
  }

  /** Where the six fields of a text stand. */
  predicate HasFields(s: string) {
    && |s| >= 19 && s[4] == '-' && s[7] == '-' && s[10] == 'T' && s[13] == ':' && s[16] == ':'
    && AllDigits(s[0..4]) && AllDigits(s[5..7]) && AllDigits(s[8..10])
    && AllDigits(s[11..13]) && AllDigits(s[14..16]) && AllDigits(s[17..19])
  }

  function FieldsIn(s: string): seq<nat>
    requires HasFields(s)
  {
    [Value(s[0..4]), Value(s[5..7]), Value(s[8..10]), Value(s[11..13]), Value(s[14..16]), Value(s[17..19])]
  }

  /** Six blocks of digits, written as a date and a time. */
  function Blocks(a: string, b: string, c: string, d: string, e: string, f: string): string {
    (a + "-" + b + "-" + c) + ("T" + d + ":" + e + ":" + f)
  }

  lemma BlocksStand(a: string, b: string, c: string, d: string, e: string, f: string, rest: string)
    requires |a| == 4 && |b| == |c| == |d| == |e| == |f| == 2
    ensures var s := Blocks(a, b, c, d, e, f) + rest;
            && |s| >= 19 && s[4] == '-' && s[7] == '-' && s[10] == 'T' && s[13] == ':' && s[16] == ':'
            && s[0..4] == a && s[5..7] == b && s[8..10] == c && s[11..13] == d && s[14..16] == e && s[17..19] == f
            && s[19..] == rest
  {
  }

  lemma BlocksMakeText(s: string)
    requires |s| >= 19 && s[4] == '-' && s[7] == '-' && s[10] == 'T' && s[13] == ':' && s[16] == ':'
    ensures s == Blocks(s[0..4], s[5..7], s[8..10], s[11..13], s[14..16], s[17..19]) + s[19..]
  {
  }

  /** The six fields as they are written. */
  function Written(f: seq<nat>): string
    requires |f| == 6
  {
    Blocks(Digits(f[0], 4), Digits(f[1], 2), Digits(f[2], 2), Digits(f[3], 2), Digits(f[4], 2), Digits(f[5], 2))
  }

  lemma PrintNext(f: seq<nat>, k: nat)
    requires |f| == 6 && k < 6
    ensures Print(f[k..], LAYOUT[k..])
         == LAYOUT[k].lead + Digits(f[k], LAYOUT[k].width) + Print(f[k + 1..], LAYOUT[k + 1..])
  {
    assert f[k..][1..] == f[k + 1..] && LAYOUT[k..][1..] == LAYOUT[k + 1..];
  }

  lemma PrintTimeIs(f: seq<nat>)
    requires |f| == 6
    ensures Print(f[3..], LAYOUT[3..]) == "T" + Digits(f[3], 2) + ":" + Digits(f[4], 2) + ":" + Digits(f[5], 2)
  {
    PrintNext(f, 3);
    PrintNext(f, 4);
    PrintNext(f, 5);
    assert Print(f[6..], LAYOUT[6..]) == "";
  }

  lemma PrintDateIs(f: seq<nat>)
    requires |f| == 6
    ensures Print(f, LAYOUT)
         == "" + Digits(f[0], 4) + ("-" + Digits(f[1], 2) + ("-" + Digits(f[2], 2) + Print(f[3..], LAYOUT[3..])))
  {
    PrintNext(f, 0);
    PrintNext(f, 1);
    PrintNext(f, 2);
    assert f[0..] == f && LAYOUT[0..] == LAYOUT;
  }

  lemma DateThenTime(a: string, b: string, c: string, time: string)
    ensures "" + a + ("-" + b + ("-" + c + time)) == (a + "-" + b + "-" + c) + time
  {
  }

  lemma PrintIs(f: seq<nat>)
    requires |f| == 6
    ensures Print(f, LAYOUT) == Written(f)
  {
    PrintDateIs(f);
    PrintTimeIs(f);
    DateThenTime(Digits(f[0], 4), Digits(f[1], 2), Digits(f[2], 2), Print(f[3..], LAYOUT[3..]));
  }

  lemma FieldFits(f: seq<nat>, k: nat)
    requires Fits(f, LAYOUT) && k < 6
    ensures Value(Digits(f[k], if k == 0 then 4 else 2)) == f[k]
  {
    assert f[k] < Pow10(LAYOUT[k].width);
    ValueOfDigits(f[k], if k == 0 then 4 else 2);
  }

  lemma WrittenIs(f: seq<nat>, rest: string)
    requires Fits(f, LAYOUT)
    ensures var s := Written(f) + rest;
            HasFields(s) && FieldsIn(s) == f && s[19..] == rest
  {
    forall k | 0 <= k < 6 ensures Value(Digits(f[k], if k == 0 then 4 else 2)) == f[k] {
      FieldFits(f, k);
    }
    BlocksStand(
      Digits(f[0], 4), Digits(f[1], 2), Digits(f[2], 2), Digits(f[3], 2), Digits(f[4], 2), Digits(f[5], 2), rest);
  }

  lemma FieldsAreWritten(s: string)
    requires HasFields(s)
    ensures Fits(FieldsIn(s), LAYOUT) && s == Written(FieldsIn(s)) + s[19..]
  {
    DigitsOfValue(s[0..4]);
    DigitsOfValue(s[5..7]);
    DigitsOfValue(s[8..10]);
    DigitsOfValue(s[11..13]);
    DigitsOfValue(s[14..16]);
    DigitsOfValue(s[17..19]);
    BlocksMakeText(s);
  }

  lemma ScanIs(s: string)
    ensures Scan(s, LAYOUT) == if HasFields(s) then Some((FieldsIn(s), s[19..])) else None
  {
    if HasFields(s) {
      FieldsAreWritten(s);
      PrintIs(FieldsIn(s));
      ScanUndoesPrint(FieldsIn(s), LAYOUT, s[19..]);
    } else if Scan(s, LAYOUT).Some? {
      var (f, rest) := Scan(s, LAYOUT).value;
      PrintUndoesScan(s, LAYOUT);
      PrintIs(f);
      WrittenIs(f, rest);
    }
  }

  lemma ScanFractionIs(s: string)
    requires |s| >= 19
    ensures var ok := && 20 <= |s| <= 30 && |s| != 21 && s[19] == (if |s| == 20 then 'Z' else '.')
                      && s[|s| - 1] == 'Z' && (|s| > 20 ==> AllDigits(s[20..|s| - 1]));
            ScanFraction(s[19..])
            == if !ok then None else if |s| == 20 then Some(0) else Some(Value(s[20..|s| - 1] + Zeros(30 - |s|)))
  {
    var x := s[19..];
    if |s| > 20 {
      assert x[1..|x| - 1] == s[20..|s| - 1];
    }
    if |s| == 20 {
      assert x == [s[19]];
    }
  }

  lemma CivilIs(f: seq<nat>)
    requires |f| == 6
    ensures IsCivil(f)
            <==> && 1 <= f[1] <= 12 && 1 <= f[2] <= MonthStart(f[0], f[1] + 1) - MonthStart(f[0], f[1])
                 && f[3] < 24 && f[4] < 60 && f[5] < 60
    ensures IsCivil(f) ==>
              SecondOf(f)
              == (((YearStart(f[0]) + MonthStart(f[0], f[1]) + f[2] - 1) * 24 + f[3]) * 60 + f[4]) * 60 + f[5]
  {
    DateIs(f[0], f[1], f[2]);
  }

  lemma ParseIs(s: string)
    ensures ParseTime(s).Some? <==> HasFields(s) && IsCivil(FieldsIn(s)) && ScanFraction(s[19..]).Some?
    ensures ParseTime(s).Some? ==>
              ParseTime(s).value == SecondOf(FieldsIn(s)) * SECOND + ScanFraction(s[19..]).value
  {
    ScanIs(s);
  }

  /** Exactly these texts are read, and each as the instant that its digits name. */
  lemma ParseTimeIs(s: string)
    ensures ParseTime(s) == if IsTimestamp(s) then Some(SecondIn(s) * 1_000_000_000 + NanosIn(s)) else None
  {
    ParseIs(s);
    if HasFields(s) {
      ScanFractionIs(s);
      CivilIs(FieldsIn(s));
    }
  }

  lemma NanosFit(s: string)
    requires IsTimestamp(s)
    ensures NanosIn(s) < 1_000_000_000
  {
    if |s| > 20 {
      Billion();
      DigitsOfValue(s[20..|s| - 1] + Zeros(30 - |s|));
    }
  }

  lemma FractionEnds(t: nat)
    ensures var x := FractionText(t);
            |x| > 1 ==> x[|x| - 2] != '0'
  {
    TrimmedPads(t % SECOND, NANO_DIGITS);
  }

  /** The text of an instant, character by character: it names the instant, and its fraction has no
      trailing zeros. */
  lemma FormatTimeIs(t: nat)
    requires InRange(t)
    ensures var s := FormatTime(t);
            && IsTimestamp(s) && SecondIn(s) == t / 1_000_000_000 && NanosIn(s) == t % 1_000_000_000
            && (|s| > 20 ==> s[|s| - 2] != '0')
  {
    var s := FormatTime(t);
    ParseUndoesFormat(t);
    ParseTimeIs(s);
    NanosFit(s);
    SecondsAndNanos(t, SecondIn(s), NanosIn(s));
    FieldsFit(t);
    PrintIs(Fields(t));
    WrittenIs(Fields(t), FractionText(t));
    FractionEnds(t);
    assert s[19..] == FractionText(t);
  }

  lemma SecondsAndNanos(t: nat, seconds: int, nanos: nat)
    requires t == seconds * 1_000_000_000 + nanos && nanos < 1_000_000_000
    ensures seconds == t / 1_000_000_000 && nanos == t % 1_000_000_000
  {
  }
}
