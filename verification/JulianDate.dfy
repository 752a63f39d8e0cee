/** j2date (pg_time.c) against the Gregorian calendar. */
module JulianDate {
  import opened Base

  datatype Date = Date(year: int, month: int, day: int)

  // ---------------------------------------------------------------- the calendar

  predicate Leap(y: int) {
    y % 4 == 0 && (y % 100 != 0 || y % 400 == 0)
  }

  function DaysInMonth(y: int, m: int): int {
    if m == 2 then (if Leap(y) then 29 else 28)
    else if m == 4 || m == 6 || m == 9 || m == 11 then 30
    else 31
  }

  predicate Valid(d: Date) {
    1 <= d.month <= 12 && 1 <= d.day <= DaysInMonth(d.year, d.month)
  }

  function NextDay(d: Date): Date {
    if d.day < DaysInMonth(d.year, d.month) then Date(d.year, d.month, d.day + 1)
    else if d.month < 12 then Date(d.year, d.month + 1, 1)
    else Date(d.year + 1, 1, 1)
  }

  /** How many multiples of `d` lie in 0 .. y-1, negated below zero. */
  function Multiples(y: int, d: int): int
    requires d > 0
  {
    (y + d - 1) / d
  }

  function YearDays(y: int): int {
    if Leap(y) then 366 else 365
  }

  /** Days before January 1 of year `y`, counted from year 0, negative before it. */
  function DaysBeforeYear(y: int): int
    decreases if y < 0 then -y else y
  {
    if y == 0 then 0
    else if y > 0 then DaysBeforeYear(y - 1) + YearDays(y - 1)
    else DaysBeforeYear(y + 1) - YearDays(y)
  }

  function DaysBeforeMonth(y: int, m: int): int {
    if m <= 1 then 0 else DaysBeforeMonth(y, m - 1) + DaysInMonth(y, m - 1)
  }

  /** The Julian day number of a date. */
  function DayNumber(d: Date): int {
    DaysBeforeYear(d.year) + DaysBeforeMonth(d.year, d.month) + d.day + 1721059
  }

  lemma MultiplesStep(y: int, d: int)
    requires d > 1
    ensures Multiples(y + 1, d) == Multiples(y, d) + (if y % d == 0 then 1 else 0)
    ensures Multiples(y + 1, d) == y / d + 1
  {
    var q, r := y / d, y % d;
    assert y == d * q + r;
    assert d * (q + 1) == d * q + d;
    DivUnique(y + d, d, q + 1, r);
    if r == 0 {
      DivUnique(y + d - 1, d, q, d - 1);
    } else {
      DivUnique(y + d - 1, d, q + 1, r - 1);
    }
  }

  lemma MultiplesShift(y: int, d: int, k: int)
    requires d > 1
    ensures Multiples(y - d * k, d) == Multiples(y, d) - k
    ensures (y - d * k) % d == y % d
  {
    var x := y + d - 1;
    assert d * (x / d - k) == d * (x / d) - d * k;
    DivUnique(x - d * k, d, x / d - k, x % d);
    assert d * (y / d - k) == d * (y / d) - d * k;
    DivUnique(y - d * k, d, y / d - k, y % d);
  }

  lemma Nested(y: int)
    ensures y % 400 == 0 ==> y % 100 == 0
    ensures y % 100 == 0 ==> y % 4 == 0
  {
  }

  lemma YearLength(y: int)
    ensures DaysBeforeYear(y + 1) == DaysBeforeYear(y) + YearDays(y)
  {
  }

  /** The usual closed form of the day count. */
  lemma {:induction false} DaysClosed(y: int)
    ensures DaysBeforeYear(y) == 365 * y + Multiples(y, 4) - Multiples(y, 100) + Multiples(y, 400)
    decreases if y < 0 then -y else y
  {
    hide Multiples;
    if y > 0 {
      DaysClosed(y - 1);
      LeapDays(y - 1);
    } else if y < 0 {
      DaysClosed(y + 1);
      LeapDays(y);
    } else {
      NoMultiples();
    }
  }

  lemma NoMultiples()
    ensures Multiples(0, 4) == 0 && Multiples(0, 100) == 0 && Multiples(0, 400) == 0
  {
  }

  /** One more year adds its leap day. */
  lemma LeapDays(y: int)
    ensures Multiples(y + 1, 4) - Multiples(y + 1, 100) + Multiples(y + 1, 400)
         == Multiples(y, 4) - Multiples(y, 100) + Multiples(y, 400) + if Leap(y) then 1 else 0
  {
    hide Multiples;
    MultiplesStep(y, 4);
    MultiplesStep(y, 100);
    MultiplesStep(y, 400);
    Nested(y);
  }

  lemma MonthTable(y: int, m: int)
    requires 1 <= m <= 12
    ensures var n := if Leap(y) then 1 else 0;
      DaysBeforeMonth(y, m) ==
        if m == 1 then 0 else if m == 2 then 31 else if m == 3 then 59 + n else if m == 4 then 90 + n
        else if m == 5 then 120 + n else if m == 6 then 151 + n else if m == 7 then 181 + n
        else if m == 8 then 212 + n else if m == 9 then 243 + n else if m == 10 then 273 + n
        else if m == 11 then 304 + n else 334 + n
  {
    if m == 1 {
    } else {
      MonthTable(y, m - 1);
    }
  }

  /** The calendar's successor is one day later. */
  lemma NextDayNumber(d: Date)
    requires Valid(d)
    ensures Valid(NextDay(d)) && DayNumber(NextDay(d)) == DayNumber(d) + 1
  {
    hide DaysBeforeMonth, DaysBeforeYear, Leap;
    MonthTable(d.year, d.month);
    if d.month < 12 {
      MonthTable(d.year, d.month + 1);
    } else {
      MonthTable(d.year + 1, 1);
    }
    YearLength(d.year);
  }

  lemma {:induction false} YearsGrow(y: int, z: int)
    requires y <= z
    ensures DaysBeforeYear(y) <= DaysBeforeYear(z)
    decreases z - y
  {
    if y == z {
    } else {
      YearsGrow(y, z - 1);
      YearLength(z - 1);
    }
  }

  lemma WithinYear(d: Date)
    requires Valid(d)
    ensures DaysBeforeYear(d.year) < DayNumber(d) - 1721059 <= DaysBeforeYear(d.year + 1)
  {
    MonthTable(d.year, d.month);
    YearLength(d.year);
  }

  /** No two dates share a day number. */
  lemma DayNumberInjective(a: Date, b: Date)
    requires Valid(a) && Valid(b) && DayNumber(a) == DayNumber(b)
    ensures a == b
  {
    hide DaysBeforeMonth, DaysBeforeYear, Leap;
    WithinYear(a);
    WithinYear(b);
    if a.year < b.year { YearsGrow(a.year + 1, b.year); }
    if b.year < a.year { YearsGrow(b.year + 1, a.year); }
    MonthTable(a.year, a.month);
    MonthTable(b.year, b.month);
  }

  // ---------------------------------------------------------------- the conversion

  const WORD: int := 0x1_0000_0000

  function U32(x: int): (r: nat)
    ensures r < 0x1_0000_0000 && (x - r) % 0x1_0000_0000 == 0
  {
    x % WORD
  }

  /** The day number of the Julian-style count that j2date works on: every fourth year is long. */
  function Stretched(jd: int): nat {
    var n := U32(U32(jd) + 32044);
    var q := n / 146097;
    var extra := U32(U32(U32(n - q * 146097) * 4) + 3);
    U32(n + 60 + q * 3 + extra / 146097)
  }

  /** Day of the year that starts on March 1, and the year of the Julian-style count. */
  function YearDay(j: nat): (int, int) {
    var quad, r := j / 1461, j % 1461;
    var y := r * 4 / 1461;
    (y + quad * 4, if y != 0 then (r + 305) % 365 else (r + 306) % 366)
  }

  /** Month and day from the day of the March year. */
  function MonthDay(e: nat): (int, int) {
    var p := e + 123;
    var quad := p * 2141 / 65536;
    ((quad + 10) % 12 + 1, p - 7834 * quad / 256)
  }

  function J2DateOf(jd: int): Date {
    var (y, e) := YearDay(Stretched(jd));
    var (m, d) := MonthDay(e);
    Date(y - 4800, m, d)
  }

  /** The days before each month of the March year. */
  function MarchTable(m: int): int {
    if m == 3 then 0 else if m == 4 then 31 else if m == 5 then 61 else if m == 6 then 92 else if m == 7 then 122
    else if m == 8 then 153 else if m == 9 then 184 else if m == 10 then 214 else if m == 11 then 245
    else if m == 12 then 275 else if m == 1 then 306 else 337
  }

  lemma MonthDayRight(e: nat)
    requires e < 366
    ensures var (m, d) := MonthDay(e);
      && 1 <= m <= 12 && MarchTable(m) + d == e + 1 && 1 <= d
      && (m <= 2 <==> e >= 306)
      && d <= if m == 2 then 29 else DaysInMonth(1, m)
  {
    var q := (e + 123) * 2141 / 65536;
    assert 4 <= q <= 15;
    assert q == 4 || q == 5 || q == 6 || q == 7 || q == 8 || q == 9 || q == 10 || q == 11 || q == 12 || q == 13
      || q == 14 || q == 15;
  }

  /** The four years of the count start at days 0, 366, 731 and 1096. */
  lemma YearOfFour(r: nat)
    requires r < 1461
    ensures var y := r * 4 / 1461;
      0 <= y < 4 && if y == 0 then r < 366 else 365 * y + 1 <= r <= 365 * y + 365
  {
  }

  /** The day of the March year, for day `s` of a calendar year. */
  lemma DayOfFour(y: nat, s: nat)
    requires if y == 0 then s < 366 else s < 365
    ensures if y != 0 then (365 * y + 1 + s + 305) % 365 == (if s < 59 then s + 306 else s - 59)
            else (s + 306) % 366 == if s < 60 then s + 306 else s - 60
  {
    if y != 0 {
      var e := if s < 59 then s + 306 else s - 59;
      DivUnique(365 * y + 1 + s + 305, 365, if s < 59 then y else y + 1, e);
    }
  }

  /** The March year `z` and its day `e` behind a stretched day number. */
  lemma YearDayRight(j: nat)
    ensures var (y, e) := YearDay(j);
      var z := if e >= 306 then y - 1 else y;
      && 0 <= e < 366 && (e == 365 ==> z % 4 == 3)
      && j - 60 == 365 * z + z / 4 + e
      && y >= 0
  {
    var quad, r := j / 1461, j % 1461;
    var y := r * 4 / 1461;
    YearOfFour(r);
    var s := if y == 0 then r else r - 365 * y - 1;
    DayOfFour(y, s);
    var (w, e) := YearDay(j);
    assert w == 4 * quad + y && j == 1461 * quad + r;
    if e < 306 {
      DivUnique(w, 4, quad, y);
    } else if y > 0 {
      DivUnique(w - 1, 4, quad, y - 1);
    } else {
      DivUnique(w - 1, 4, quad - 1, 3);
    }
  }

  lemma LeapCount(z: int)
    ensures DaysBeforeYear(z + 1) == 365 * z + 366 + z / 4 - z / 100 + z / 400
  {
    hide Multiples, DaysBeforeYear;
    DaysClosed(z + 1);
    MultiplesStep(z, 4);
    MultiplesStep(z, 100);
    MultiplesStep(z, 400);
  }

  lemma Shift(z: int)
    ensures DaysBeforeYear(z - 4800) == DaysBeforeYear(z) - 1753164
    ensures Leap(z - 4800) == Leap(z)
  {
    hide Multiples, DaysBeforeYear;
    DaysClosed(z);
    DaysClosed(z - 4800);
    MultiplesShift(z, 4, 1200);
    MultiplesShift(z, 100, 48);
    MultiplesShift(z, 400, 12);
  }

  /** Months and days of a March year, in the calendar's own count. */
  lemma DayOfMarchYear(y: int, e: nat)
    requires e < 366
    ensures var (m, d) := MonthDay(e);
      DaysBeforeMonth(y, m) + d == if e >= 306 then e - 305 else e + 60 + (if Leap(y) then 1 else 0)
  {
    hide MonthDay, Leap;
    var (m, d) := MonthDay(e);
    MonthDayRight(e);
    MonthTable(y, m);
  }

  /** The day number of the converted date, from the March year and its day. */
  lemma DayNumberFromMarch(z: int, e: nat)
    requires e < 366
    ensures var (m, d) := MonthDay(e);
      DayNumber(Date((if e >= 306 then z + 1 else z) - 4800, m, d)) == 365 * z + z / 4 - z / 100 + z / 400 + e - 32044
  {
    hide MonthDay, DaysBeforeMonth, DaysBeforeYear, Leap;
    LeapCount(z);
    if e >= 306 {
      DayOfMarchYear(z + 1 - 4800, e);
      Shift(z + 1);
    } else {
      DayOfMarchYear(z - 4800, e);
      Shift(z);
      YearLength(z);
    }
  }

  /** The century inside a 400-year cycle: only its last one has 36525 days. */
  lemma Century(r: nat)
    requires r < 146097
    ensures var c := (r * 4 + 3) / 146097;
      0 <= c <= 3 && 0 <= r - 36524 * c <= if c == 3 then 36524 else 36523
  {
  }

  /** A stretched day `t` days into century `C` belongs to a March year of that century. */
  lemma YearInCentury(z: int, e: nat, C: nat, t: nat)
    requires t < 36525 && e < 366 && (e == 365 ==> z % 4 == 3)
    requires 365 * z + z / 4 + e == 36525 * C + t
    ensures z / 100 == C && (e == 365 && z % 100 == 99 ==> t == 36524)
  {
    var w, v := z / 4, z % 4;
    var s := 365 * v + e;
    assert 1461 * w + s == 36525 * C + t;
    assert 0 <= s < 1461;
    DivUnique(36525 * C + t, 1461, w, s);
    DivUnique(36525 * C + t, 1461, 25 * C + t / 1461, t % 1461);
    DivUnique(z, 100, C, 4 * (t / 1461) + v);
  }

  predicate InMarchYear(jd: int, z: int, e: nat) {
    e < 366 && jd + 32044 == 365 * z + z / 4 - z / 100 + z / 400 + e && (e == 365 ==> Leap(z + 1))
  }

  /** Undoing the century correction finds the March year of the count itself. */
  lemma MarchYearFound(n: nat, z: int, e: nat)
    requires e < 366 && (e == 365 ==> z % 4 == 3)
    requires 365 * z + z / 4 + e == n + n / 146097 * 3 + (n % 146097 * 4 + 3) / 146097
    ensures InMarchYear(n - 32044, z, e)
  {
    var q, r := n / 146097, n % 146097;
    var c := (r * 4 + 3) / 146097;
    Century(r);
    assert n == 146097 * q + r;
    YearInCentury(z, e, 4 * q + c, r - 36524 * c);
    var u := z % 100;
    assert z == 400 * q + (100 * c + u);
    DivUnique(z, 400, q, 100 * c + u);
    if e == 365 {
      LeapAfter(z, q, c, u);
    }
  }

  lemma LeapAfter(z: int, q: nat, c: nat, u: nat)
    requires c <= 3 && u <= 99 && z == 400 * q + 100 * c + u && u % 4 == 3 && (u == 99 ==> c == 3)
    ensures Leap(z + 1)
  {
    if u == 99 {
      DivUnique(z + 1, 400, q + 1, 0);
    } else {
      DivUnique(z + 1, 100, 4 * q + c, u + 1);
      DivUnique(z + 1, 4, 100 * q + 25 * c + (u + 1) / 4, 0);
    }
    Nested(z + 1);
  }

  predicate Int32(x: int) {
    -0x8000_0000 <= x < 0x8000_0000
  }

  /** From day -32044 on no unsigned step wraps harmfully. */
  lemma StretchedRight(jd: int)
    requires Int32(jd) && -32044 <= jd
    ensures var n := jd + 32044;
      Stretched(jd) - 60 == n + n / 146097 * 3 + (n % 146097 * 4 + 3) / 146097
  {
    hide Stretched;
    assert U32(U32(jd) + 32044) == jd + 32044;
    StretchedIs(jd, jd + 32044);
  }

  /** The date found from a March year is a date of the calendar, and the right one. */
  lemma FromMarchYear(jd: int, z: int, e: nat)
    requires InMarchYear(jd, z, e)
    ensures var (m, d) := MonthDay(e);
      var date := Date((if e >= 306 then z + 1 else z) - 4800, m, d);
      Valid(date) && DayNumber(date) == jd
  {
    hide Leap, DayNumber, MonthDay;
    var (m, d) := MonthDay(e);
    MonthDayRight(e);
    DayNumberFromMarch(z, e);
    Shift(z + 1);
  }

  /** The conversion is the calendar: it yields the one valid date with the given day number. */
  lemma IsCalendarDate(jd: int)
    requires Int32(jd) && -32044 <= jd
    ensures Valid(J2DateOf(jd)) && DayNumber(J2DateOf(jd)) == jd
  {
    hide Stretched, YearDay, MonthDay, InMarchYear, Valid, DayNumber;
    var j := Stretched(jd);
    var (y, e) := YearDay(j);
    var z := if e >= 306 then y - 1 else y;
    StretchedRight(jd);
    YearDayRight(j);
    MarchYearFound(jd + 32044, z, e);
    FromMarchYear(jd, z, e);
  }

  /** Before day -32044 the first sum does not wrap: the negative day, made unsigned, stays a huge number, and the
      date is the wrong one. */
  lemma WrongBelow(jd: int)
    requires Int32(jd) && jd < -32044
    ensures DayNumber(J2DateOf(jd)) != jd
  {
    hide Stretched, YearDay, MonthDay, DayNumber;
    var j := Stretched(jd);
    var (y, e) := YearDay(j);
    var z := if e >= 306 then y - 1 else y;
    YearDayRight(j);
    DayNumberFromMarch(z, e);
    var n := jd + 32044 + WORD;
    StretchedBelow(jd, n);
    var k := n / 146097 * 3 + (n % 146097 * 4 + 3) / 146097;
    if j == n + 60 + k {
      MarchYearFound(n, z, e);
    } else {
      assert z / 100 - z / 400 < 1000;
    }
  }

  lemma StretchedBelow(jd: int, n: nat)
    requires Int32(jd) && n == jd + 32044 + WORD && n < WORD
    ensures var k := n / 146097 * 3 + (n % 146097 * 4 + 3) / 146097;
      k >= 44000 && (Stretched(jd) == n + 60 + k || (Stretched(jd) == n + 60 + k - WORD && Stretched(jd) < 100000))
  {
    hide Stretched;
    assert U32(U32(jd) + 32044) == n;
    Century(n % 146097);
    StretchedIs(jd, n);
  }

  /** The sums after the first one, for a first sum `n`. */
  lemma StretchedIs(jd: int, n: nat)
    requires U32(U32(jd) + 32044) == n
    ensures Stretched(jd) == U32(n + 60 + n / 146097 * 3 + (n % 146097 * 4 + 3) / 146097)
  {
    hide U32;
    var r := n % 146097;
    assert n - n / 146097 * 146097 == r;
    Small(r);
    Small(r * 4);
    Small(r * 4 + 3);
  }

  lemma Small(x: nat)
    requires x < WORD
    ensures U32(x) == x
  {
  }

  /** Exactly the days from -32044 on are converted rightly. */
  lemma CorrectFromMinus32044(jd: int)
    requires Int32(jd)
    ensures Valid(J2DateOf(jd)) && DayNumber(J2DateOf(jd)) == jd <==> -32044 <= jd
  {
    if -32044 <= jd {
      IsCalendarDate(jd);
    } else {
      WrongBelow(jd);
    }
  }

  /** One day later is the calendar's next date, under the Gregorian leap rule. */
  lemma NextDayConverted(jd: int)
    requires -32044 <= jd && Int32(jd + 1)
    ensures J2DateOf(jd + 1) == NextDay(J2DateOf(jd))
  {
    hide J2DateOf, NextDay, DayNumber, Valid;
    IsCalendarDate(jd);
    IsCalendarDate(jd + 1);
    NextDayNumber(J2DateOf(jd));
    DayNumberInjective(J2DateOf(jd + 1), NextDay(J2DateOf(jd)));
  }

  /** Every calendar date in range is the conversion of its own day number, and of no other day. */
  lemma Bijection(d: Date, jd: int)
    requires Valid(d) && Int32(jd) && -32044 <= jd
    ensures J2DateOf(jd) == d <==> DayNumber(d) == jd
  {
    hide J2DateOf, DayNumber, Valid;
    IsCalendarDate(jd);
    if DayNumber(d) == jd {
      DayNumberInjective(d, J2DateOf(jd));
    }
  }

  /** The two epochs the program names: UNIX_EPOCH_JDATE and POSTGRES_EPOCH_JDATE. */
  lemma Epochs()
    ensures J2DateOf(2440588) == Date(1970, 1, 1)
    ensures J2DateOf(2451545) == Date(2000, 1, 1)
    ensures J2DateOf(-32044) == Date(-4800, 3, 1)
  {
    hide J2DateOf, DaysBeforeYear;
    DaysClosed(1970);
    DaysClosed(2000);
    DaysClosed(-4800);
    Bijection(Date(1970, 1, 1), 2440588);
    Bijection(Date(2000, 1, 1), 2451545);
    MonthTable(-4800, 3);
    Bijection(Date(-4800, 3, 1), -32044);
  }

  /** The day before the first right one has its day number wrapped round. */
  lemma DayBelow()
    ensures J2DateOf(-32045) == Date(-4559, 8, 16)
  {
    hide Stretched;
    OneDayBelow();
    DivUnique(88253, 1461, 60, 593);
  }

  lemma OneDayBelow()
    ensures Stretched(-32045) == 88253
  {
    DivUnique(-32045, WORD, -1, WORD - 32045);
    DivUnique(WORD - 1, WORD, 0, WORD - 1);
    DivUnique(WORD - 1, 146097, 29398, 7689);
    DivUnique(7689, WORD, 0, 7689);
    DivUnique(30756, WORD, 0, 30756);
    DivUnique(30759, WORD, 0, 30759);
    DivUnique(30759, 146097, 0, 30759);
    DivUnique(WORD + 88253, WORD, 1, 88253);
  }

  method J2Date(jd: int) returns (year: int, month: int, day: int)
    requires Int32(jd)
    ensures Date(year, month, day) == J2DateOf(jd)
    ensures Valid(Date(year, month, day)) && DayNumber(Date(year, month, day)) == jd <==> -32044 <= jd
  {
    hide U32, YearDay, MonthDay, J2DateOf, Valid, DayNumber;
    var julian := U32(jd);
    julian := U32(julian + 32044);
    var quad := julian / 146097;
    var extra := U32(U32(U32(julian - quad * 146097) * 4) + 3);
    julian := U32(julian + 60 + quad * 3 + extra / 146097);
    ghost var stretched := julian;
    assert stretched == Stretched(jd);
    quad := julian / 1461;
    julian := U32(julian - quad * 1461);
    var y: int := julian * 4 / 1461;
    julian := (if y != 0 then (julian + 305) % 365 else (julian + 306) % 366) + 123;
    ghost var e := julian - 123;
    YearSteps(stretched, y, e);
    y := y + quad * 4;
    year := y - 4800;
    quad := julian * 2141 / 65536;
    day := julian - 7834 * quad / 256;
    month := (quad + 10) % 12 + 1;
    MonthSteps(jd, stretched, y, e);
    CorrectFromMinus32044(jd);
  }

  lemma YearSteps(j: nat, y: nat, e: nat)
    requires j < WORD
    requires y == U32(j - j / 1461 * 1461) * 4 / 1461
    requires e == if y != 0 then (U32(j - j / 1461 * 1461) + 305) % 365 else (U32(j - j / 1461 * 1461) + 306) % 366
    ensures (y + j / 1461 * 4, e) == YearDay(j)
  {
    hide U32;
    Remainder(j);
  }

  lemma Remainder(j: nat)
    requires j < WORD
    ensures U32(j - j / 1461 * 1461) == j % 1461
  {
    assert j - j / 1461 * 1461 == j % 1461;
    Small(j % 1461);
  }

  lemma MonthSteps(jd: int, j: nat, y: int, e: nat)
    requires j == Stretched(jd)
    requires (y, e) == YearDay(j)
    ensures var quad := (e + 123) * 2141 / 65536;
      J2DateOf(jd) == Date(y - 4800, (quad + 10) % 12 + 1, e + 123 - 7834 * quad / 256)
  {
    hide Stretched, YearDay;
  }
}
