/** Proleptic Gregorian calendar dates, and the two calendar offsets that
    `pd.Timestamp(...) + pd.DateOffset(months=1, days=-1)` applies in turn. */
module Calendar {

  datatype Date = Date(year: int, month: int, day: int)

  predicate IsLeapYear(y: int) {
    y % 4 == 0 && (y % 100 != 0 || y % 400 == 0)
  }

  function DaysInMonth(y: int, m: int): (n: int)
    requires 1 <= m <= 12
    ensures 28 <= n <= 31
    ensures n == 29 <==> m == 2 && IsLeapYear(y)
    ensures n == 28 <==> m == 2 && !IsLeapYear(y)
  {
    if m == 2 then (if IsLeapYear(y) then 29 else 28)
    else if m == 4 || m == 6 || m == 9 || m == 11 then 30
    else 31
  }

  predicate ValidDate(d: Date) {
    1 <= d.month <= 12 && 1 <= d.day <= DaysInMonth(d.year, d.month)
  }

  /** The last calendar day of month m of year y. */
  function LastDayOfMonth(y: int, m: int): (d: Date)
    requires 1 <= m <= 12
    ensures ValidDate(d) && d.year == y && d.month == m
    ensures forall k :: 1 <= k <= 31 && ValidDate(Date(y, m, k)) ==> k <= d.day
  {
    Date(y, m, DaysInMonth(y, m))
  }

  /** A one-month offset: same day of the next month, clipped to that month's length. */
  function AddOneMonth(d: Date): (r: Date)
    requires ValidDate(d)
    ensures ValidDate(r)
    ensures r.day == if d.day <= DaysInMonth(r.year, r.month) then d.day else DaysInMonth(r.year, r.month)
    ensures if d.month == 12 then r.year == d.year + 1 && r.month == 1
            else r.year == d.year && r.month == d.month + 1
  {
    var y := if d.month == 12 then d.year + 1 else d.year;
    var m := if d.month == 12 then 1 else d.month + 1;
    var n := DaysInMonth(y, m);
    Date(y, m, if d.day <= n then d.day else n)
  }

  /** The calendar day before d. */
  function SubtractOneDay(d: Date): (r: Date)
    requires ValidDate(d)
    ensures ValidDate(r)
    ensures d.day > 1 ==> r == Date(d.year, d.month, d.day - 1)
    ensures d.day == 1 ==>
      r.day == DaysInMonth(r.year, r.month) &&
      (if d.month == 1 then r.year == d.year - 1 && r.month == 12
       else r.year == d.year && r.month == d.month - 1)
  {
    if d.day > 1 then Date(d.year, d.month, d.day - 1)
    else if d.month == 1 then Date(d.year - 1, 12, 31)
    else Date(d.year, d.month - 1, DaysInMonth(d.year, d.month - 1))
  }

  /** Going one month forward from the first of a month and one day back lands
      on the last day of that same month. */
  lemma {:induction false} MonthOffsetGivesLastDay(y: int, m: int)
    requires 1 <= m <= 12
    ensures SubtractOneDay(AddOneMonth(Date(y, m, 1))) == LastDayOfMonth(y, m)
  {
    var next := AddOneMonth(Date(y, m, 1));
    assert next.day == 1;
    if m == 12 {
      assert next == Date(y + 1, 1, 1);
    } else {
      assert next == Date(y, m + 1, 1);
    }
  }
}
