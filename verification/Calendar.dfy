/** The proleptic Gregorian calendar: days counted from 1 January of year 1, by years and months. */
module Calendar {

  predicate Leap(y: int) {
    y % 4 == 0 && (y % 100 != 0 || y % 400 == 0)
  }

  // Days from the epoch to 1 January of year y.
  function YearStart(y: int): int {
    365 * (y - 1) + (y - 1) / 4 - (y - 1) / 100 + (y - 1) / 400
  }

  function DaysIn(y: int, m: int): (n: int)
    ensures 28 <= n <= 31
  {
    if m == 2 then (if Leap(y) then 29 else 28)
    else if m == 4 || m == 6 || m == 9 || m == 11 then 30
    else 31
  }

  // Days of year y that precede month m; month 13 stands for the end of the year.
  function MonthOffset(y: int, m: int): int
    requires 1 <= m <= 13
  {
    if m == 1 then 0 else MonthOffset(y, m - 1) + DaysIn(y, m - 1)
  }

  function MonthStart(y: int, m: int): int
    requires 1 <= m <= 13
  {
    YearStart(y) + MonthOffset(y, m)
  }

  // A day number split into whole 400-, 100-, 4- and 1-year cycles; a leap day that ends a
  // cycle stays in it.
  function Cycles(d: int): (r: (int, int, int, int))
    ensures 0 <= r.1 <= 3 && 0 <= r.2 <= 24 && 0 <= r.3 <= 3
    ensures var left := d - (146097 * r.0 + 36524 * r.1 + 1461 * r.2 + 365 * r.3);
      0 <= left && (left < 365 || (left == 365 && r.3 == 3 && (r.2 < 24 || r.1 == 3)))
  {
    var c := d / 146097;
    var in400 := d % 146097;
    var a := if in400 / 36524 < 3 then in400 / 36524 else 3;
    var in100 := in400 - 36524 * a;
    var b := in100 / 1461;
    var in4 := in100 - 1461 * b;
    assert 0 <= in100 <= 36524 && (a < 3 ==> in100 < 36524);
    assert 0 <= b <= 24 && 0 <= in4 < 1461;
    (c, a, b, if in4 / 365 < 3 then in4 / 365 else 3)
  }

  function YearOfDay(d: int): int {
    var (c, a, b, e) := Cycles(d);
    400 * c + 100 * a + 4 * b + e + 1
  }

  function MonthOfDay(d: int): (m: int)
    ensures 1 <= m <= 12
  {
    MonthSearch(YearOfDay(d), d - YearStart(YearOfDay(d)), 1)
  }

  // The last month from m on that starts no later than the given day of the year.
  function MonthSearch(y: int, yearDay: int, m: int): (r: int)
    requires 1 <= m <= 12
    ensures m <= r <= 12
    ensures r < 12 ==> yearDay < MonthOffset(y, r + 1)
    ensures MonthOffset(y, m) <= yearDay ==> MonthOffset(y, r) <= yearDay
    decreases 12 - m
  {
    if m == 12 || yearDay < MonthOffset(y, m + 1) then m else MonthSearch(y, yearDay, m + 1)
  }

  lemma MonthSearchUnique(y: int, yearDay: int, m: int)
    requires 1 <= m <= 12 && MonthOffset(y, m) <= yearDay < MonthOffset(y, m + 1)
    ensures MonthSearch(y, yearDay, 1) == m
  {
    var r := MonthSearch(y, yearDay, 1);
    MonthOffsetMonotone(y, 1, m);
    if r < m {
      MonthOffsetMonotone(y, r + 1, m);
    } else if m < r {
      MonthOffsetMonotone(y, m + 1, r);
    }
  }

  lemma DaysInYear(y: int)
    ensures MonthOffset(y, 13) == if Leap(y) then 366 else 365
  {
    assert MonthOffset(y, 2) == 31;
    assert MonthOffset(y, 4) == DaysIn(y, 2) + 62;
    assert MonthOffset(y, 6) == DaysIn(y, 2) + 123;
    assert MonthOffset(y, 8) == DaysIn(y, 2) + 184;
    assert MonthOffset(y, 10) == DaysIn(y, 2) + 245;
    assert MonthOffset(y, 12) == DaysIn(y, 2) + 306;
  }

  lemma QuotientStep(y: int)
    ensures y / 4 == (y - 1) / 4 + if y % 4 == 0 then 1 else 0
    ensures y / 100 == (y - 1) / 100 + if y % 100 == 0 then 1 else 0
    ensures y / 400 == (y - 1) / 400 + if y % 400 == 0 then 1 else 0
  {
  }

  lemma CenturyIsFourth(y: int)
    ensures (y % 400 == 0 ==> y % 100 == 0) && (y % 100 == 0 ==> y % 4 == 0)
  {
  }

  lemma YearStartStep(y: int)
    ensures YearStart(y + 1) == YearStart(y) + if Leap(y) then 366 else 365
  {
    QuotientStep(y);
    CenturyIsFourth(y);
  }

  lemma YearLength(y: int)
    ensures YearStart(y + 1) == MonthStart(y, 13)
  {
    DaysInYear(y);
    YearStartStep(y);
  }

  lemma {:induction false} YearStartMonotone(y: int, z: int)
    requires y <= z
    ensures YearStart(y) + 365 * (z - y) <= YearStart(z)
    decreases z - y
  {
    if y < z {
      YearStartMonotone(y, z - 1);
      YearStartStep(z - 1);
    }
  }

  lemma YearStartByCycles(c: int, a: int, b: int, e: int)
    requires 0 <= a <= 3 && 0 <= b <= 24 && 0 <= e <= 3
    ensures YearStart(400 * c + 100 * a + 4 * b + e + 1) == 146097 * c + 36524 * a + 1461 * b + 365 * e
  {
    var z := 400 * c + 100 * a + 4 * b + e;
    assert z / 4 == 100 * c + 25 * a + b;
    assert z / 100 == 4 * c + a;
    assert z / 400 == c;
  }

  lemma YearStartAfterCycles(c: int, a: int, b: int, e: int)
    requires 0 <= a <= 3 && 0 <= b <= 24 && 0 <= e <= 3
    ensures YearStart(400 * c + 100 * a + 4 * b + e + 2) ==
      if e < 3 then 146097 * c + 36524 * a + 1461 * b + 365 * (e + 1)
      else if b < 24 then 146097 * c + 36524 * a + 1461 * (b + 1)
      else if a < 3 then 146097 * c + 36524 * (a + 1)
      else 146097 * (c + 1)
  {
    if e < 3 {
      YearStartByCycles(c, a, b, e + 1);
    } else if b < 24 {
      YearStartByCycles(c, a, b + 1, 0);
    } else if a < 3 {
      YearStartByCycles(c, a + 1, 0, 0);
    } else {
      YearStartByCycles(c + 1, 0, 0, 0);
    }
  }

  // YearOfDay inverts YearStart.
  lemma YearOfDayBounds(d: int)
    ensures YearStart(YearOfDay(d)) <= d < YearStart(YearOfDay(d) + 1)
  {
    var (c, a, b, e) := Cycles(d);
    YearStartByCycles(c, a, b, e);
    YearStartAfterCycles(c, a, b, e);
  }

  lemma YearOfDayUnique(d: int, y: int)
    requires YearStart(y) <= d < YearStart(y + 1)
    ensures YearOfDay(d) == y
  {
    YearOfDayBounds(d);
    if YearOfDay(d) < y {
      YearStartMonotone(YearOfDay(d) + 1, y);
    } else if y < YearOfDay(d) {
      YearStartMonotone(y + 1, YearOfDay(d));
    }
  }

  lemma MonthOfDayBounds(d: int)
    ensures MonthStart(YearOfDay(d), MonthOfDay(d)) <= d < MonthStart(YearOfDay(d), MonthOfDay(d) + 1)
  {
    YearOfDayBounds(d);
    YearLength(YearOfDay(d));
  }

  lemma {:induction false} MonthOffsetMonotone(y: int, m: int, n: int)
    requires 1 <= m <= n <= 13
    ensures MonthOffset(y, m) <= MonthOffset(y, n)
  {
    if m < n {
      MonthOffsetMonotone(y, m, n - 1);
    }
  }

  lemma MonthWithinYear(y: int, m: int)
    requires 1 <= m <= 12
    ensures YearStart(y) <= MonthStart(y, m) < MonthStart(y, m + 1) <= YearStart(y + 1)
  {
    YearLength(y);
    MonthOffsetMonotone(y, 1, m);
    MonthOffsetMonotone(y, m + 1, 13);
  }

  lemma MonthOfDayUnique(d: int, y: int, m: int)
    requires 1 <= m <= 12 && MonthStart(y, m) <= d < MonthStart(y, m + 1)
    ensures YearOfDay(d) == y && MonthOfDay(d) == m
  {
    MonthWithinYear(y, m);
    YearOfDayUnique(d, y);
    MonthSearchUnique(y, d - YearStart(y), m);
  }
}
