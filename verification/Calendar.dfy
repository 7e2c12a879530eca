/** The Gregorian calendar from its leap rule alone: what a date is and how many
    days lie before it (section 5.7 and Appendix C of RFC 3339). */
module Calendar {

  predicate Leap(year: nat) {
    year % 4 == 0 && (year % 100 != 0 || year % 400 == 0)
  }

  function YearLength(year: nat): nat {
    if Leap(year) then 366 else 365
  }

  function MonthLength(year: nat, month: nat): nat
    requires 1 <= month <= 12
  {
    if month == 2 then (if Leap(year) then 29 else 28)
    else if month == 4 || month == 6 || month == 9 || month == 11 then 30
    else 31
  }

  datatype Date = Date(year: nat, month: nat, day: nat)

  predicate ValidDate(d: Date) {
    1 <= d.month <= 12 && 1 <= d.day <= MonthLength(d.year, d.month)
  }

  /** Days in the years before `year`, counted from year 0. */
  function DaysBeforeYear(year: nat): nat {
    if year == 0 then 0 else DaysBeforeYear(year - 1) + YearLength(year - 1)
  }

  /** Days in the months before `month`. */
  function DaysBeforeMonth(year: nat, month: nat): nat
    requires 1 <= month <= 13
  {
    if month == 1 then 0 else DaysBeforeMonth(year, month - 1) + MonthLength(year, month - 1)
  }

  /** Days since the first of January of year 0. */
  function DayNumber(d: Date): nat
    requires ValidDate(d)
  {
    DaysBeforeYear(d.year) + DaysBeforeMonth(d.year, d.month) + d.day - 1
  }

  // -----------------------------------------------------------------------
  // Closed forms

  /** A year number by its place in the cycle of 400 years. */
  lemma Cycle(year: nat) returns (e: nat, c: nat, q: nat, k: nat)
    ensures c < 4 && q < 25 && k < 4 && year == 400 * e + 100 * c + 4 * q + k
    ensures year / 400 == e && year / 100 == 4 * e + c && year / 4 == 100 * e + 25 * c + q
    ensures Leap(year) <==> k == 0 && (q != 0 || c == 0)
  {
    e := year / 400;
    var r := year % 400;
    c := r / 100;
    q := r % 100 / 4;
    k := r % 4;
    InCycle(e, c, q, k);
  }

  lemma InCycle(e: nat, c: nat, q: nat, k: nat)
    requires c < 4 && q < 25 && k < 4
    ensures var year := 400 * e + 100 * c + 4 * q + k;
            && year / 400 == e && year / 100 == 4 * e + c && year / 4 == 100 * e + 25 * c + q
            && (Leap(year) <==> k == 0 && (q != 0 || c == 0))
  {
    var year := 400 * e + 100 * c + 4 * q + k;
    assert year % 4 == k;
    assert year % 100 == 4 * q + k;
    assert year % 400 == 100 * c + 4 * q + k;
  }

  /** The days before the first of March of `year`, from that of year 0. */
  function MarchDays(year: nat): nat {
    365 * year + year / 4 - year / 100 + year / 400
  }

  lemma MarchStep(year: nat)
    ensures MarchDays(year + 1) == MarchDays(year) + YearLength(year + 1)
  {
    var e, c, q, k := Cycle(year);
    if k < 3 {
      InCycle(e, c, q, k + 1);
    } else if q < 24 {
      InCycle(e, c, q + 1, 0);
    } else if c < 3 {
      InCycle(e, c + 1, 0, 0);
    } else {
      InCycle(e + 1, 0, 0, 0);
    }
  }

  lemma {:induction false} MarchIsMarch(year: nat)
    ensures DaysBeforeYear(year) + DaysBeforeMonth(year, 3) == MarchDays(year) + 60
  {
    assert DaysBeforeMonth(year, 3) == DaysBeforeMonth(year, 2) + MonthLength(year, 2);
    assert DaysBeforeMonth(year, 2) == 31;
    if year > 0 {
      MarchIsMarch(year - 1);
      MarchStep(year - 1);
      assert DaysBeforeMonth(year - 1, 3) == DaysBeforeMonth(year - 1, 2) + MonthLength(year - 1, 2);
      assert DaysBeforeMonth(year - 1, 2) == 31;
    }
  }

  /** Days before each month, by its distance from March. */
  lemma MonthTable(year: nat, m: nat)
    requires 1 <= m <= 13
    ensures DaysBeforeMonth(year, m) ==
              if m == 1 then 0 else if m == 2 then 31
              else DaysBeforeMonth(year, 3) + (153 * (m - 3) + 2) / 5
    ensures DaysBeforeMonth(year, 3) == YearLength(year) - 306
  {
    if m > 3 {
      MonthTable(year, m - 1);
    } else if m == 3 {
      assert DaysBeforeMonth(year, 2) == 31;
    } else {
      assert DaysBeforeMonth(year, 2) == 31;
      assert DaysBeforeMonth(year, 3) == 31 + MonthLength(year, 2);
    }
  }

  // -----------------------------------------------------------------------
  // Order

  predicate Before(a: Date, b: Date) {
    a.year < b.year || (a.year == b.year && (a.month < b.month || (a.month == b.month && a.day < b.day)))
  }

  lemma {:induction false} YearsGrow(a: nat, b: nat)
    requires a < b
    ensures DaysBeforeYear(a) + YearLength(a) <= DaysBeforeYear(b)
    decreases b
  {
    if a < b - 1 {
      YearsGrow(a, b - 1);
    }
  }

  lemma {:induction false} MonthsGrow(year: nat, a: nat, b: nat)
    requires 1 <= a < b <= 13
    ensures DaysBeforeMonth(year, a) + MonthLength(year, a) <= DaysBeforeMonth(year, b)
    decreases b
  {
    if a < b - 1 {
      MonthsGrow(year, a, b - 1);
    }
  }

  /** A date lies within its year. */
  lemma DayInYear(d: Date)
    requires ValidDate(d)
    ensures DaysBeforeYear(d.year) <= DayNumber(d) < DaysBeforeYear(d.year) + YearLength(d.year)
  {
    if d.month < 12 {
      MonthsGrow(d.year, d.month, 13);
    }
    MonthTable(d.year, 13);
    assert DaysBeforeMonth(d.year, 13) == YearLength(d.year);
  }

  /** Day numbers are ordered as dates are; so no two dates share one. */
  lemma DayNumberOrder(a: Date, b: Date)
    requires ValidDate(a) && ValidDate(b)
    ensures DayNumber(a) < DayNumber(b) <==> Before(a, b)
    ensures DayNumber(a) == DayNumber(b) <==> a == b
  {
    hide DaysBeforeYear, DaysBeforeMonth, MonthLength, YearLength;
    if a.year != b.year {
      DayInYear(a);
      DayInYear(b);
      if a.year < b.year { YearsGrow(a.year, b.year); } else { YearsGrow(b.year, a.year); }
    } else if a.month < b.month {
      MonthsGrow(a.year, a.month, b.month);
    } else if b.month < a.month {
      MonthsGrow(a.year, b.month, a.month);
    }
  }
}
