/** The Gregorian calendar, counted day by day. */
module Gregorian {
  datatype Date = Date(y: nat, m: nat, d: nat)

  predicate IsLeap(y: nat) { y % 4 == 0 && (y % 100 != 0 || y % 400 == 0) }

  function DaysInMonth(y: nat, m: nat): nat {
    if m == 2 then (if IsLeap(y) then 29 else 28)
    else if m == 4 || m == 6 || m == 9 || m == 11 then 30
    else 31
  }

  predicate Valid(a: Date) { 1 <= a.m <= 12 && 1 <= a.d <= DaysInMonth(a.y, a.m) }

  function Tomorrow(a: Date): Date {
    if a.d < DaysInMonth(a.y, a.m) then Date(a.y, a.m, a.d + 1)
    else if a.m < 12 then Date(a.y, a.m + 1, 1)
    else Date(a.y + 1, 1, 1)
  }

  function Yesterday(a: Date): Date
    requires Valid(a) && a.y > 0
  {
    if a.d > 1 then Date(a.y, a.m, a.d - 1)
    else if a.m > 1 then Date(a.y, a.m - 1, DaysInMonth(a.y, a.m - 1))
    else Date(a.y - 1, 12, 31)
  }

  /** How many days have passed since 1 January 2000. */
  function Elapsed(a: Date): nat
    requires Valid(a) && a.y >= 2000
    decreases a.y, a.m, a.d
  {
    if a == Date(2000, 1, 1) then 0 else 1 + Elapsed(Yesterday(a))
  }

  lemma YesterdayAndTomorrow(a: Date)
    requires Valid(a) && a.y > 0
    ensures Valid(Yesterday(a)) && Tomorrow(Yesterday(a)) == a
    ensures Valid(Tomorrow(a)) && Yesterday(Tomorrow(a)) == a
  {
  }

  lemma OneDayLater(a: Date)
    requires Valid(a) && a.y >= 2000
    ensures Elapsed(Tomorrow(a)) == Elapsed(a) + 1
  {
    YesterdayAndTomorrow(a);
  }
}

/** `DateTime::dayOfTheWeek` and `TimeSpan`. */
module RtcLib {
  import opened MachineInts
  import opened Division
  import opened Gregorian

  const MONTH_TABLE: seq<nat> := [0, 3, 2, 5, 0, 3, 5, 1, 4, 6, 2, 4]

  /** The fields of a `DateTime`; the year is kept as an offset in eight bits. */
  datatype DateTime = DateTime(yOff: byte, m: nat, d: nat)

  function FromYmd(year: uint16, month: nat, day: nat): DateTime {
    DateTime((if year >= 2000 then year - 2000 else year) % 0x100, month, day)
  }

  function Year(t: DateTime): nat { t.yOff + 2000 }

  /** A day a year, one more in a leap year. */
  function YearSum(y: nat): int { y + y / 4 - y / 100 + y / 400 }

  /** Sakamoto's sum for a year, month and day. */
  function Sakamoto(year: nat, m: nat, d: nat): nat
    requires year > 0 && 1 <= m <= 12
  {
    var y := if m < 3 then year - 1 else year;
    YearSumIsPositive(y);
    (YearSum(y) + MONTH_TABLE[m - 1] + d) % 7
  }

  lemma YearSumIsPositive(y: nat)
    ensures YearSum(y) >= 0
  {
  }

  function DayOfTheWeek(t: DateTime): nat
    requires 1 <= t.m <= 12
  {
    Sakamoto(Year(t), t.m, t.d)
  }

  /** February's length is the difference the leap rule makes to the sum. */
  lemma LeapYearSum(y: nat)
    requires y > 0
    ensures YearSum(y) == YearSum(y - 1) + 1 + if IsLeap(y) then 1 else 0
  {
    DivFour(y);
    DivHundred(y);
    DivFourHundred(y);
    LeapRule(y);
  }

  lemma DivFour(y: nat)
    requires y > 0
    ensures y / 4 == (y - 1) / 4 + if y % 4 == 0 then 1 else 0
  {
  }

  lemma DivHundred(y: nat)
    requires y > 0
    ensures y / 100 == (y - 1) / 100 + if y % 100 == 0 then 1 else 0
  {
  }

  lemma DivFourHundred(y: nat)
    requires y > 0
    ensures y / 400 == (y - 1) / 400 + if y % 400 == 0 then 1 else 0
  {
  }

  lemma LeapRule(y: nat)
    ensures y % 400 == 0 ==> y % 100 == 0
    ensures y % 100 == 0 ==> y % 4 == 0
  {
    Parts(4 * (y / 400), 0, 100);
    Parts(25 * (y / 100), 0, 4);
  }

  lemma WholeWeeks(sum: int, next: int)
    requires next - sum - 1 in {0, -7, -14, -21, -28, -35}
    ensures next % 7 == (sum % 7 + 1) % 7
  {
  }

  /** Over every month end, leap day and century, one day later is one weekday later. */
  lemma WeekdayAdvances(a: Date)
    requires Valid(a) && a.y > 0
    ensures var b := Tomorrow(a);
            Sakamoto(b.y, b.m, b.d) == (Sakamoto(a.y, a.m, a.d) + 1) % 7
  {
    hide YearSum, IsLeap;
    LeapYearSum(a.y);
    var b := Tomorrow(a);
    var sum := YearSum(if a.m < 3 then a.y - 1 else a.y) + MONTH_TABLE[a.m - 1] + a.d;
    var next := YearSum(if b.m < 3 then b.y - 1 else b.y) + MONTH_TABLE[b.m - 1] + b.d;
    WholeWeeks(sum, next);
  }

  /** 1 January 2000 was a Saturday, and the sum counts on from there. */
  lemma {:induction false} SakamotoCounts(a: Date)
    requires Valid(a) && a.y >= 2000
    ensures Sakamoto(a.y, a.m, a.d) == (6 + Elapsed(a)) % 7
    decreases a.y, a.m, a.d
  {
    hide Sakamoto;
    if a == Date(2000, 1, 1) {
      SaturdayAtFirst();
    } else {
      YesterdayAndTomorrow(a);
      OneDayLater(Yesterday(a));
      SakamotoCounts(Yesterday(a));
      WeekdayAdvances(Yesterday(a));
    }
  }

  lemma SaturdayAtFirst()
    ensures Sakamoto(2000, 1, 1) == 6
  {
  }

  /** For a date of the next 512 years the weekday is right exactly as long as the
      year offset fits its byte. */
  lemma WeekdayIsRight(a: Date)
    requires Valid(a) && 2000 <= a.y <= 2511
    ensures DayOfTheWeek(FromYmd(a.y, a.m, a.d)) == (6 + Elapsed(a)) % 7 <==> a.y <= 2255
  {
    hide Sakamoto, Elapsed, FromYmd;
    SakamotoCounts(a);
    StoredYear(a.y, a.m, a.d);
    if a.y > 2255 {
      YearsWrapped(a.y, a.m, a.d);
    }
  }

  /** Years below 2000 are taken as years of this century, 256 of them at most. */
  lemma ShortYears(year: uint16, m: nat, d: nat)
    requires year < 2000
    ensures Year(FromYmd(year, m, d)) == 2000 + year % 0x100
  {
  }

  /** The year that is left of one when its offset has been stored. */
  function KeptYear(year: nat): nat
    requires year >= 2000
  {
    2000 + (year - 2000) % 0x100
  }

  /** For any year the constructor takes from 2000 on: it is right exactly when the years
      lost to the byte make whole weeks. */
  lemma WeekdayOfAnyYear(a: Date)
    requires Valid(a) && 2000 <= a.y <= 0xFFFF
    ensures DayOfTheWeek(FromYmd(a.y, a.m, a.d)) == (6 + Elapsed(a)) % 7
       <==> var kept := KeptYear(a.y);
            (if a.m < 3 then YearSum(a.y - 1) - YearSum(kept - 1) else YearSum(a.y) - YearSum(kept)) % 7 == 0
  {
    hide YearSum, Elapsed;
    SakamotoCounts(a);
    var kept := KeptYear(a.y);
    var y, z := if a.m < 3 then a.y - 1 else a.y, if a.m < 3 then kept - 1 else kept;
    var k := MONTH_TABLE[a.m - 1] + a.d;
    Congruent(YearSum(y) + k, YearSum(z) + k);
    assert YearSum(y) + k - (YearSum(z) + k) == YearSum(y) - YearSum(z);
  }

  lemma Congruent(a: int, b: int)
    ensures a % 7 == b % 7 <==> (a - b) % 7 == 0
  {
  }

  /** `test_rtclib.cpp`'s Monday, and days around leap years and centuries. */
  lemma KnownDays()
    ensures DayOfTheWeek(FromYmd(2026, 2, 23)) == 1
    ensures Sakamoto(2000, 2, 29) == 2 && Sakamoto(2024, 2, 29) == 4 && Sakamoto(2024, 3, 1) == 5
    ensures Sakamoto(2100, 2, 28) == 0 && Sakamoto(2100, 3, 1) == 1
  {
  }

  /** Every fourth year is a leap year, but a century only if its number divides by four. */
  lemma LeapYears(c: nat, n: nat)
    requires n < 100
    ensures IsLeap(100 * c + n) <==> if n == 0 then c % 4 == 0 else n % 4 == 0
    ensures DaysInMonth(100 * c + n, 2) == if IsLeap(100 * c + n) then 29 else 28
  {
    Parts(c, n, 100);
    Parts(25 * c + n / 4, n % 4, 4);
    if n == 0 { Parts(c / 4, 100 * (c % 4), 400); }
  }

  lemma DaysOfYear(y: nat)
    ensures var d := m => DaysInMonth(y, m);
      d(1) + d(2) + d(3) + d(4) + d(5) + d(6) + d(7) + d(8) + d(9) + d(10) + d(11) + d(12) == if IsLeap(y) then 366 else 365
  {
  }

  lemma StoredYear(year: uint16, m: nat, d: nat)
    requires 2000 <= year <= 2511
    ensures var t := FromYmd(year, m, d);
            Year(t) == (if year <= 2255 then year else year - 256) && t.m == m && t.d == d
  {
  }

  /** 256 years are never a whole number of weeks. */
  lemma YearsWrapped(year: nat, m: nat, d: nat)
    requires year > 256 && 1 <= m <= 12
    ensures Sakamoto(year, m, d) != Sakamoto(year - 256, m, d)
  {
    hide YearSum;
    var y := if m < 3 then year - 1 else year;
    YearSumWrapped(y);
    var k := MONTH_TABLE[m - 1] + d;
    Incongruent(YearSum(y) + k, YearSum(y - 256) + k);
  }

  lemma Incongruent(a: int, b: int)
    requires 317 <= a - b <= 319
    ensures a % 7 != b % 7
  {
  }

  lemma YearSumWrapped(y: nat)
    requires y >= 256
    ensures 317 <= YearSum(y) - YearSum(y - 256) <= 319
  {
    var z := y - 256;
    assert y / 4 == z / 4 + 64;
    assert 2 <= y / 100 - z / 100 <= 3;
    assert 0 <= y / 400 - z / 400 <= 1;
  }

  // ---- TimeSpan ------------------------------------------------------------------------

  /** C++ division and remainder: toward zero. */
  function Quot(a: int, b: int): int
    requires b > 0
  {
    if a >= 0 then a / b else -((-a) / b)
  }

  function Rem(a: int, b: int): int
    requires b > 0
  {
    a - b * Quot(a, b)
  }

  type int32 = n: int | -0x8000_0000 <= n < 0x8000_0000

  function I32(n: int): int32 { (n + 0x8000_0000) % 0x1_0000_0000 - 0x8000_0000 }

  lemma TotalWraps(n: int)
    ensures (I32(n) - n) % 0x1_0000_0000 == 0
  {
  }

  function TimeSpan(days: int, hours: int, minutes: int, seconds: int): int32 {
    I32(days * 86400 + hours * 3600 + minutes * 60 + seconds)
  }

  function Days(total: int32): int16 { I16(Quot(total, 86400)) }
  function Hours(total: int32): int { Quot(Rem(total, 86400), 3600) }
  function Minutes(total: int32): int { Quot(Rem(total, 3600), 60) }
  function Seconds(total: int32): int { Rem(total, 60) }

  lemma Hours24(n: nat)
    ensures n % 86400 % 3600 == n % 3600
  {
    var q, r := n / 86400, n % 86400;
    assert n == 3600 * (24 * q + r / 3600) + r % 3600;
  }

  lemma Minutes60(n: nat)
    ensures n % 3600 % 60 == n % 60
  {
    var q, r := n / 3600, n % 3600;
    assert n == 60 * (60 * q + r / 60) + r % 60;
  }

  lemma NatFields(n: nat)
    ensures n == n / 86400 * 86400 + n % 86400 / 3600 * 3600 + n % 3600 / 60 * 60 + n % 60
    ensures n % 86400 / 3600 < 24 && n % 3600 / 60 < 60
  {
    Hours24(n);
    Minutes60(n);
    var a, b := n % 86400, n % 3600;
    assert a == a / 3600 * 3600 + a % 3600;
    assert b == b / 60 * 60 + b % 60;
  }

  /** The fields of any span, negative ones included, add up to it and share its sign. */
  lemma FieldsAddUp(total: int32)
    ensures Days(total) * 86400 + Hours(total) * 3600 + Minutes(total) * 60 + Seconds(total) == total
    ensures -24 < Hours(total) < 24 && -60 < Minutes(total) < 60 && -60 < Seconds(total) < 60
    ensures total >= 0 ==> Days(total) >= 0 && Hours(total) >= 0 && Minutes(total) >= 0 && Seconds(total) >= 0
    ensures total <= 0 ==> Days(total) <= 0 && Hours(total) <= 0 && Minutes(total) <= 0 && Seconds(total) <= 0
  {
    hide Days, Hours, Minutes, Seconds;
    NatFields(Abs(total));
    DaysAndSeconds(total);
    HoursAndMinutes(total);
  }

  /** `n` with the sign of the span. */
  function Signed(total: int, n: nat): int { if total >= 0 then n else 0 - n }

  lemma DaysAndSeconds(total: int32)
    ensures Days(total) == Signed(total, Abs(total) / 86400) && Seconds(total) == Signed(total, Abs(total) % 60)
  {
    SignedFields(total, 86400);
    SignedFields(total, 60);
    assert Abs(total) / 86400 <= 0x7FFF;
  }

  lemma HoursAndMinutes(total: int32)
    ensures Hours(total) == Signed(total, Abs(total) % 86400 / 3600)
    ensures Minutes(total) == Signed(total, Abs(total) % 3600 / 60)
  {
    hide Quot, Rem;
    SignedFields(total, 86400);
    SignedFields(total, 3600);
    QuotOfRem(total, Abs(total) % 86400, 3600);
    QuotOfRem(total, Abs(total) % 3600, 60);
  }

  lemma SignedFields(total: int, b: int)
    requires b > 0
    ensures Quot(total, b) == Signed(total, Abs(total) / b) && Rem(total, b) == Signed(total, Abs(total) % b)
  {
  }

  lemma QuotOfRem(total: int, r: nat, b: int)
    requires b > 0
    ensures Quot(Signed(total, r), b) == Signed(total, r / b)
  {
  }

  predicate FieldsInRange(h: int, m: int, s: int) { -24 < h < 24 && -60 < m < 60 && -60 < s < 60 }

  predicate SameSign(d: int, h: int, m: int, s: int) {
    (d >= 0 && h >= 0 && m >= 0 && s >= 0) || (d <= 0 && h <= 0 && m <= 0 && s <= 0)
  }

  type int8 = n: int | -0x80 <= n < 0x80

  /** For any arguments of the constructor: they come back exactly when hours, minutes and
      seconds are in range, no two fields pull in opposite directions and the total fits 32 bits. */
  lemma FieldsComeBack(d: int16, h: int8, m: int8, s: int8)
    ensures var t := TimeSpan(d, h, m, s);
            (Days(t) == d && Hours(t) == h && Minutes(t) == m && Seconds(t) == s)
            <==> FieldsInRange(h, m, s) && SameSign(d, h, m, s) && TotalFits(d * 86400 + h * 3600 + m * 60 + s)
  {
    hide Days, Hours, Minutes, Seconds, I32, FieldsInRange, SameSign, TotalFits;
    var n: int := d * 86400 + h * 3600 + m * 60 + s;
    var t := TimeSpan(d, h, m, s);
    assert t == I32(n);
    FieldsOf(t);
    if FieldsInRange(h, m, s) && SameSign(d, h, m, s) && TotalFits(n) {
      TotalKept(n);
      OneWayToAdd(d, h, m, s, Days(t), Hours(t), Minutes(t), Seconds(t));
    }
  }

  lemma FieldsOf(t: int32)
    ensures FieldsInRange(Hours(t), Minutes(t), Seconds(t)) && SameSign(Days(t), Hours(t), Minutes(t), Seconds(t))
    ensures TotalFits(Days(t) * 86400 + Hours(t) * 3600 + Minutes(t) * 60 + Seconds(t))
    ensures Days(t) * 86400 + Hours(t) * 3600 + Minutes(t) * 60 + Seconds(t) == t
  {
    hide Days, Hours, Minutes, Seconds;
    FieldsAddUp(t);
  }

  lemma TotalKept(n: int)
    requires TotalFits(n)
    ensures I32(n) == n
  {
  }

  predicate TotalFits(n: int) { -0x8000_0000 <= n < 0x8000_0000 }

  lemma OneWayToAdd(d: int, h: int, m: int, s: int, d': int, h': int, m': int, s': int)
    requires d * 86400 + h * 3600 + m * 60 + s == d' * 86400 + h' * 3600 + m' * 60 + s'
    requires FieldsInRange(h, m, s) && SameSign(d, h, m, s)
    requires FieldsInRange(h', m', s') && SameSign(d', h', m', s')
    ensures d == d' && h == h' && m == m' && s == s'
  {
    var a, a' := (d * 24 + h) * 60 + m, (d' * 24 + h') * 60 + m';
    Sixtieths(a, s, a', s');
    Sixtieths(d * 24 + h, m, d' * 24 + h', m');
  }

  lemma Sixtieths(a: int, x: int, b: int, y: int)
    requires a * 60 + x == b * 60 + y && -60 < x - y < 60
    ensures a == b && x == y
  {
  }
}
