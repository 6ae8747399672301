/**
 Julian day numbers and civil dates (base/Date.cc), against the proleptic Gregorian calendar given by its
 leap-year rule and month lengths.
 */
module Calendar {

  /** C++ integer division: truncates toward zero. */
  function Quot(a: int, b: int): (q: int)
    requires b > 0
  {
    if a >= 0 then a / b else -((-a) / b)
  }

  datatype Date = Date(year: int, month: int, day: int)

  // ---- the formulas of the source ------------------------------------------------------

  /** getJulianDayNumber */
  function JulianDay(year: int, month: int, day: int): (j: int) {
    var a := Quot(14 - month, 12);
    var y := year + 4800 - a;
    var m := month + 12 * a - 3;
    day + Quot(153 * m + 2, 5) + y * 365 + Quot(y, 4) - Quot(y, 100) + Quot(y, 400) - 32045
  }

  function JulianDayOf(d: Date): (j: int) { JulianDay(d.year, d.month, d.day) }

  /** getYearMonthDay */
  function CivilDate(j: int): (d: Date) {
    var a := j + 32044;
    var b := Quot(4 * a + 3, 146097);
    var c := a - Quot(b * 146097, 4);
    var d := Quot(4 * c + 3, 1461);
    var e := c - Quot(1461 * d, 4);
    var m := Quot(5 * e + 2, 153);
    Date(b * 100 + d - 4800 + Quot(m, 10), m + 3 - 12 * Quot(m, 10), e - Quot(153 * m + 2, 5) + 1)
  }

  // ---- the calendar --------------------------------------------------------------------

  predicate IsLeap(year: int) {
    year % 4 == 0 && (year % 100 != 0 || year % 400 == 0)
  }

  function DaysInMonth(year: int, month: int): (n: int)
    requires 1 <= month <= 12
    ensures 28 <= n <= 31
  {
    if month == 2 then (if IsLeap(year) then 29 else 28)
    else if month == 4 || month == 6 || month == 9 || month == 11 then 30
    else 31
  }

  /** A date of the calendar. */
  predicate IsDate(d: Date) {
    1 <= d.month <= 12 && 1 <= d.day <= DaysInMonth(d.year, d.month)
  }

  function NextDay(d: Date): (r: Date)
    requires IsDate(d)
    ensures IsDate(r)
  {
    if d.day < DaysInMonth(d.year, d.month) then Date(d.year, d.month, d.day + 1)
    else if d.month < 12 then Date(d.year, d.month + 1, 1)
    else Date(d.year + 1, 1, 1)
  }

  /** On or after 1 March of the year -4800, where the formulas start counting. */
  predicate FromStart(d: Date) {
    d.year > -4800 || (d.year == -4800 && d.month >= 3)
  }

  const FIRST_DAY: int := -32044

  /** Largest day number whose intermediate products stay in 32 bits: 4a + 3 is the largest of them. */
  const LAST_DAY: int := 536838867

  // ---- the two counts in base 146097/4 and 1461/4 ----------------------------------------

  /** The 400-year or 4-year cycle: unit `b` has 4k+1 quarters of a day, so every fourth one has a day more. */
  lemma CenturySplit(a: int)
    requires a >= 0
    ensures
      var b := (4 * a + 3) / 146097;
      var c := a - b * 146097 / 4;
      0 <= b && 0 <= c <= (if b % 4 == 3 then 36524 else 36523)
  {
  }

  lemma CenturyJoin(b: int, c: int)
    requires 0 <= b && 0 <= c <= (if b % 4 == 3 then 36524 else 36523)
    ensures var a := b * 146097 / 4 + c; (4 * a + 3) / 146097 == b
  {
    var r := b % 4;
    assert b * 146097 / 4 == (b * 146097 - r) / 4;
  }

  lemma YearSplit(c: int)
    requires 0 <= c <= 36524
    ensures
      var d := (4 * c + 3) / 1461;
      var e := c - 1461 * d / 4;
      0 <= d <= 99 && 0 <= e <= (if d % 4 == 3 then 365 else 364) && (d == 99 && e == 365 ==> c == 36524)
  {
  }

  lemma YearJoin(d: int, e: int)
    requires 0 <= d <= 99 && 0 <= e <= (if d % 4 == 3 then 365 else 364)
    ensures
      var c := 1461 * d / 4 + e;
      (4 * c + 3) / 1461 == d && 0 <= c <= 36524 && (c == 36524 ==> d == 99 && e == 365)
  {
    var r := d % 4;
    assert 1461 * d / 4 == (1461 * d - r) / 4;
  }

  /** Days before month m of a year that starts in March. */
  function MonthStart(m: int): (s: int) { (153 * m + 2) / 5 }

  lemma MonthSplit(e: int)
    requires 0 <= e <= 365
    ensures var m := (5 * e + 2) / 153; 0 <= m <= 11 && MonthStart(m) <= e < MonthStart(m + 1)
  {
  }

  lemma MonthJoin(m: int, e: int)
    requires 0 <= m <= 11 && MonthStart(m) <= e < MonthStart(m + 1) && e <= 366
    ensures (5 * e + 2) / 153 == m
  {
  }

  /** Length of the m-th month of a March-based year, the last one aside. */
  lemma MonthLength(m: int)
    requires 0 <= m <= 10
    ensures
      var month := if m >= 10 then m - 9 else m + 3;
      1 <= month <= 12 && month != 2 &&
      forall y :: DaysInMonth(y, month) == MonthStart(m + 1) - MonthStart(m)
  {
  }

  /** Day offset in a March-based year: century b, year d of it, month m, day of month. */
  function Offset(b: int, d: int, m: int, day: int): (a: int) {
    b * 146097 / 4 + (1461 * d / 4 + (MonthStart(m) + day - 1))
  }

  /** Civil date of those coordinates. */
  function Assemble(b: int, d: int, m: int, day: int): (r: Date) {
    Date(b * 100 + d - 4800 + (if m >= 10 then 1 else 0), if m >= 10 then m - 9 else m + 3, day)
  }

  predicate Coordinates(b: int, d: int, m: int, day: int) {
    0 <= b && 0 <= d <= 99 && 0 <= m <= 11 && IsDate(Assemble(b, d, m, day))
  }

  /** Where February ends the March-based year: the leap rule is the rule of the two cycles. */
  lemma YearLength(b: int, d: int)
    requires 0 <= b && 0 <= d <= 99
    ensures
      var y := b * 100 + d - 4800 + 1;
      IsLeap(y) <==> d % 4 == 3 && (d != 99 || b % 4 == 3)
  {
    hide IsLeap;
    LeapByParts(b - 48, d + 1);
    assert b * 100 + d - 4800 + 1 == 100 * (b - 48) + (d + 1);
  }

  lemma LeapByParts(q: int, r: int)
    requires 1 <= r <= 100
    ensures IsLeap(100 * q + r) <==> if r < 100 then r % 4 == 0 else (q + 1) % 4 == 0
  {
    Hundreds(q, r);
    if r == 100 {
      assert 100 * q + r == 100 * (q + 1);
      FourHundreds(q + 1);
    }
  }

  lemma Hundreds(q: int, r: int)
    requires 0 <= r <= 100
    ensures (100 * q + r) % 4 == r % 4
    ensures (100 * q + r) % 100 == if r == 100 then 0 else r
  {
    var k := 25 * q + r / 4;
    assert 100 * q + r == 4 * k + r % 4;
    Modulo4(k, r % 4);
    if r == 100 {
      assert 100 * q + r == 100 * (q + 1) + 0;
      Modulo100(q + 1, 0);
    } else {
      Modulo100(q, r);
    }
  }

  lemma Modulo4(k: int, r: int)
    requires 0 <= r < 4
    ensures (4 * k + r) % 4 == r
  {
  }

  lemma Modulo100(k: int, r: int)
    requires 0 <= r < 100
    ensures (100 * k + r) % 100 == r
  {
  }

  lemma FourHundreds(q: int)
    ensures (100 * q) % 400 == 0 <==> q % 4 == 0
  {
    var k, r := q / 4, q % 4;
    assert 100 * q == 400 * k + 100 * r;
  }

  /** Every day offset has coordinates of a calendar date, the ones getYearMonthDay computes. */
  lemma SplitOffset(a: int) returns (b: int, d: int, m: int, day: int)
    requires a >= 0
    ensures Coordinates(b, d, m, day) && Offset(b, d, m, day) == a
    ensures CivilDate(a - 32044) == Assemble(b, d, m, day)
  {
    hide IsDate, MonthStart, CivilDate;
    b := (4 * a + 3) / 146097;
    CenturySplit(a);
    var c := a - b * 146097 / 4;
    YearSplit(c);
    d := (4 * c + 3) / 1461;
    var e := c - 1461 * d / 4;
    MonthSplit(e);
    m := (5 * e + 2) / 153;
    day := e - MonthStart(m) + 1;
    DayInMonth(b, d, m, e);
    CivilOf(a, b, c, d, e, m);
  }

  lemma DayInMonth(b: int, d: int, m: int, e: int)
    requires 0 <= b && 0 <= d <= 99 && 0 <= m <= 11 && MonthStart(m) <= e < MonthStart(m + 1)
    requires e <= (if d % 4 == 3 && (d != 99 || b % 4 == 3) then 365 else 364)
    ensures Coordinates(b, d, m, e - MonthStart(m) + 1)
  {
    YearLength(b, d);
    if m <= 10 { MonthLength(m); }
  }

  lemma DayOffsetInYear(b: int, d: int, m: int, day: int)
    requires Coordinates(b, d, m, day)
    ensures
      var e := MonthStart(m) + day - 1;
      MonthStart(m) <= e < MonthStart(m + 1) && 0 <= e <= (if d % 4 == 3 && (d != 99 || b % 4 == 3) then 365 else 364)
  {
    YearLength(b, d);
    if m <= 10 { MonthLength(m); }
  }

  /** Coordinates are recovered from their offset. */
  lemma JoinOffset(b: int, d: int, m: int, day: int)
    requires Coordinates(b, d, m, day)
    ensures Offset(b, d, m, day) >= 0
    ensures CivilDate(Offset(b, d, m, day) - 32044) == Assemble(b, d, m, day)
  {
    hide IsDate, MonthStart, CivilDate;
    DayOffsetInYear(b, d, m, day);
    var e := MonthStart(m) + day - 1;
    YearJoin(d, e);
    var c := 1461 * d / 4 + e;
    CenturyJoin(b, c);
    MonthJoin(m, e);
    CivilOf(Offset(b, d, m, day), b, c, d, e, m);
  }

  lemma CivilOf(a: int, b: int, c: int, d: int, e: int, m: int)
    requires a >= 0 && 0 <= b && 0 <= c && 0 <= d && 0 <= e && 0 <= m <= 11
    requires b == (4 * a + 3) / 146097 && c == a - b * 146097 / 4
    requires d == (4 * c + 3) / 1461 && e == c - 1461 * d / 4 && m == (5 * e + 2) / 153
    ensures CivilDate(a - 32044) == Assemble(b, d, m, e - MonthStart(m) + 1)
  {
  }

  /** getJulianDayNumber on coordinates. */
  lemma JulianOfCoordinates(b: int, d: int, m: int, day: int)
    requires 0 <= b && 0 <= d <= 99 && 0 <= m <= 11
    ensures JulianDayOf(Assemble(b, d, m, day)) == Offset(b, d, m, day) - 32044
  {
    var y := 100 * b + d;
    assert y / 100 == b && y / 400 == b / 4 && y / 4 == 25 * b + d / 4;
    assert b * 146097 / 4 == 36524 * b + b / 4;
    assert 1461 * d / 4 == 365 * d + d / 4;
    JulianFromMarch(y, m, day);
  }

  lemma JulianFromMarch(y: int, m: int, day: int)
    requires 0 <= y && 0 <= m <= 11
    ensures
      JulianDay(y - 4800 + (if m >= 10 then 1 else 0), if m >= 10 then m - 9 else m + 3, day) ==
      day + MonthStart(m) + y * 365 + y / 4 - y / 100 + y / 400 - 32045
  {
  }

  /** Every calendar date from the start on has coordinates. */
  lemma FindCoordinates(x: Date) returns (b: int, d: int, m: int)
    requires IsDate(x) && FromStart(x)
    ensures Coordinates(b, d, m, x.day) && Assemble(b, d, m, x.day) == x
  {
    m := if x.month <= 2 then x.month + 9 else x.month - 3;
    var y := x.year + 4800 - (if x.month <= 2 then 1 else 0);
    b, d := y / 100, y % 100;
  }

  // ---- results --------------------------------------------------------------------------

  /** From day number -32044 on, every number is a calendar date and is recovered from it. */
  lemma JulianOfCivil(j: int)
    requires j >= FIRST_DAY
    ensures IsDate(CivilDate(j)) && FromStart(CivilDate(j))
    ensures JulianDayOf(CivilDate(j)) == j
  {
    hide CivilDate, JulianDay, Offset, IsLeap;
    var b, d, m, day := SplitOffset(j + 32044);
    JulianOfCoordinates(b, d, m, day);
  }

  /** Every calendar date from 1 March -4800 on is recovered from its day number. */
  lemma CivilOfJulian(x: Date)
    requires IsDate(x) && FromStart(x)
    ensures CivilDate(JulianDayOf(x)) == x && JulianDayOf(x) >= FIRST_DAY
  {
    hide CivilDate, JulianDay, Offset, IsLeap;
    var b, d, m := FindCoordinates(x);
    JulianOfCoordinates(b, d, m, x.day);
    JoinOffset(b, d, m, x.day);
  }

  lemma NextDayInYear(b: int, d: int, m: int, day: int)
    requires Coordinates(b, d, m, day) && m <= 10
    ensures JulianDayOf(NextDay(Assemble(b, d, m, day))) == Offset(b, d, m, day) + 1 - 32044
  {
    hide JulianDay, IsLeap;
    MonthLength(m);
    var x := Assemble(b, d, m, day);
    if day < DaysInMonth(x.year, x.month) {
      JulianOfCoordinates(b, d, m, day + 1);
    } else {
      JulianOfCoordinates(b, d, m + 1, 1);
    }
  }

  lemma NextDayAtYearEnd(b: int, d: int, day: int)
    requires Coordinates(b, d, 11, day)
    ensures JulianDayOf(NextDay(Assemble(b, d, 11, day))) == Offset(b, d, 11, day) + 1 - 32044
  {
    hide JulianDay, IsLeap;
    var x := Assemble(b, d, 11, day);
    if day < DaysInMonth(x.year, x.month) {
      JulianOfCoordinates(b, d, 11, day + 1);
    } else {
      YearLength(b, d);
      if d < 99 {
        JulianOfCoordinates(b, d + 1, 0, 1);
      } else {
        JulianOfCoordinates(b + 1, 0, 0, 1);
      }
    }
  }

  /** The day number of the next day is the next number. */
  lemma JulianOfNextDay(x: Date)
    requires IsDate(x) && FromStart(x)
    ensures JulianDayOf(NextDay(x)) == JulianDayOf(x) + 1
  {
    hide JulianDay, Offset, IsLeap, NextDay;
    var b, d, m := FindCoordinates(x);
    JulianOfCoordinates(b, d, m, x.day);
    if m <= 10 {
      NextDayInYear(b, d, m, x.day);
    } else {
      NextDayAtYearEnd(b, d, x.day);
    }
  }

  /** Consecutive numbers are consecutive dates. */
  lemma CivilOfNext(j: int)
    requires j >= FIRST_DAY
    ensures IsDate(CivilDate(j)) && CivilDate(j + 1) == NextDay(CivilDate(j))
  {
    hide CivilDate, JulianDay, IsLeap;
    JulianOfCivil(j);
    var x := CivilDate(j);
    JulianOfNextDay(x);
    CivilOfJulian(NextDay(x));
  }

  /** Below -32044 truncating division yields a day of month below one, so the bound is exact. */
  lemma CivilIsDateIff(j: int)
    ensures IsDate(CivilDate(j)) <==> j >= FIRST_DAY
  {
    if j >= FIRST_DAY {
      JulianOfCivil(j);
    } else {
      BeforeStart(j + 32044);
    }
  }

  lemma BeforeStart(a: int)
    requires a < 0
    ensures CivilDate(a - 32044).day <= 0
  {
    var b := Quot(4 * a + 3, 146097);
    var c := a - Quot(b * 146097, 4);
    NegativeRemainder(a, 146097);
    assert c < 0;
    var d := Quot(4 * c + 3, 1461);
    var e := c - Quot(1461 * d, 4);
    NegativeRemainder(c, 1461);
    assert e < 0;
    var m := Quot(5 * e + 2, 153);
    assert e - Quot(153 * m + 2, 5) + 1 <= 0;
  }

  lemma NegativeRemainder(a: int, k: int)
    requires a < 0 && (k == 146097 || k == 1461)
    ensures a - Quot(k * Quot(4 * a + 3, k), 4) < 0
  {
  }

  /** A calendar date is recovered from its day number exactly when it is not before 1 March -4800. */
  lemma CivilOfJulianIff(x: Date)
    requires IsDate(x)
    ensures CivilDate(JulianDayOf(x)) == x <==> FromStart(x)
  {
    hide CivilDate, JulianDay, IsLeap, IsDate;
    if FromStart(x) {
      CivilOfJulian(x);
    } else {
      var j := JulianDayOf(x);
      CivilIsDateIff(j);
      if j >= FIRST_DAY { JulianOfCivil(j); }
    }
  }

  predicate Int32(x: int) { -0x8000_0000 <= x <= 0x7fff_ffff }

  /** In the stated range no intermediate value of getYearMonthDay leaves 32 bits. */
  lemma NoOverflow(j: int)
    requires FIRST_DAY <= j <= LAST_DAY
    ensures
      var a := j + 32044;
      var b := Quot(4 * a + 3, 146097);
      var c := a - Quot(b * 146097, 4);
      var d := Quot(4 * c + 3, 1461);
      var e := c - Quot(1461 * d, 4);
      Int32(4 * a + 3) && Int32(b * 146097) && Int32(4 * c + 3) && Int32(1461 * d) && Int32(5 * e + 2)
        && Int32(b * 100 + d - 4800)
  {
    var a := j + 32044;
    CenturySplit(a);
    var c := a - (4 * a + 3) / 146097 * 146097 / 4;
    YearSplit(c);
  }

  /** Nor does any intermediate value of getJulianDayNumber, on every date with a day number in that range. */
  lemma JulianNoOverflow(x: Date)
    requires IsDate(x) && FromStart(x) && JulianDayOf(x) <= LAST_DAY
    ensures
      var a := Quot(14 - x.month, 12);
      var y := x.year + 4800 - a;
      var m := x.month + 12 * a - 3;
      var s1 := x.day + Quot(153 * m + 2, 5);
      var s2 := s1 + y * 365;
      var s3 := s2 + Quot(y, 4);
      && Int32(x.year + 4800) && Int32(y) && Int32(12 * a) && Int32(153 * m + 2) && Int32(s1) && Int32(y * 365)
        && Int32(s2)
      && Int32(s3) && Int32(s3 - Quot(y, 100)) && Int32(s3 - Quot(y, 100) + Quot(y, 400)) && Int32(JulianDayOf(x))
  {
    hide IsLeap;
    var a := Quot(14 - x.month, 12);
    assert a == if x.month <= 2 then 1 else 0;
    var y := x.year + 4800 - a;
    assert y >= 0;
    YearBelow(y, x.day + Quot(153 * (x.month + 12 * a - 3) + 2, 5));
  }

  lemma YearBelow(y: int, days: int)
    requires y >= 0 && days >= 1 && days + y * 365 + y / 4 - y / 100 + y / 400 - 32045 <= LAST_DAY
    ensures 0 <= y < 1_480_000
  {
    assert y / 100 <= y / 4;
  }

  /** The bound is the last one: the next day number overflows. */
  lemma OverflowNext()
    ensures !Int32(4 * (LAST_DAY + 1 + 32044) + 3)
  {
  }

  lemma EpochDay()
    ensures JulianDay(1970, 1, 1) == 2440588
  {
  }
}
