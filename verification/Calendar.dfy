/** The panel's calendar, against a count of days from 1 January of year 1 (proleptic Gregorian), a Monday.
    Months are numbered from 0, days of the week from Monday. */
module Calendar {

  predicate Leap(y: int) { (y % 4 == 0 && y % 100 != 0) || y % 400 == 0 }

  /** days_in_month */
  function DaysInMonth(y: int, m: nat): (d: nat)
    requires m < 12
    ensures 28 <= d <= 31
  {
    if m == 1 then (if Leap(y) then 29 else 28)
    else if m == 3 || m == 5 || m == 8 || m == 10 then 30
    else 31
  }

  /** The table of dow_first. */
  function Offset(m: nat): nat
    requires m < 12
  {
    match m
    case 0 => 0 case 1 => 3 case 2 => 2 case 3 => 5 case 4 => 0 case 5 => 3
    case 6 => 5 case 7 => 1 case 8 => 4 case 9 => 6 case 10 => 2 case _ => 4
  }

  /** Division and remainder as C has them: towards zero. */
  function Quot(a: int, b: int): int
    requires b > 0
  {
    if a >= 0 then a / b else -((-a) / b)
  }

  function Rem(a: int, b: int): int
    requires b > 0
  {
    if a >= 0 then a % b else -((-a) % b)
  }

  /** dow_first, for any year. */
  function DowFirst(year: int, m: nat): (d: nat)
    requires m < 12
    ensures d < 7
  {
    var y := if m < 2 then year - 1 else year;
    var d := Rem(y + Quot(y, 4) - Quot(y, 100) + Quot(y, 400) + Offset(m) + 1, 7);
    Rem(d + 6, 7)
  }

  // ---------- counting days ----------

  /** Days from 1 January of year 1 to the first of the month. */
  function DayNumber(y: nat, m: nat): nat
    requires y >= 1 && m < 12
    decreases y, m
  {
    if m > 0 then DayNumber(y, m - 1) + DaysInMonth(y, m - 1)
    else if y > 1 then DayNumber(y - 1, 11) + DaysInMonth(y - 1, 11)
    else 0
  }

  function LeapsThrough(y: nat): nat { y / 4 - y / 100 + y / 400 }

  lemma LeapStep(y: nat)
    requires y >= 1
    ensures LeapsThrough(y) == LeapsThrough(y - 1) + if Leap(y) then 1 else 0
  {
    Quotient(y, 4);
    Quotient(y, 100);
    Quotient(y, 400);
    Multiples(y);
  }

  lemma Quotient(y: nat, d: nat)
    requires y >= 1 && d in {4, 100, 400}
    ensures y / d == (y - 1) / d + if y % d == 0 then 1 else 0
  {
  }

  lemma Multiples(y: nat)
    ensures (y % 400 == 0 ==> y % 100 == 0) && (y % 100 == 0 ==> y % 4 == 0)
  {
    assert y % 400 == 0 ==> y == 100 * (4 * (y / 400));
    assert y % 100 == 0 ==> y == 4 * (25 * (y / 100));
  }

  /** How far the first of the month is into the week, before taking the remainder. */
  function Raw(year: nat, m: nat): nat
    requires year >= 1 && m < 12
  {
    var y := if m < 2 then year - 1 else year;
    y + LeapsThrough(y) + Offset(m)
  }

  lemma DowFirstIsRaw(year: nat, m: nat)
    requires year >= 1 && m < 12
    ensures DowFirst(year, m) == Raw(year, m) % 7
  {
    BackOneDay(Raw(year, m));
  }

  lemma BackOneDay(r: nat)
    ensures ((r + 1) % 7 + 6) % 7 == r % 7
  {
    assert r == 7 * (r / 7) + r % 7;
  }

  lemma NextInYear(y: nat, m: nat)
    requires y >= 1 && m < 11
    ensures (Raw(y, m + 1) - Raw(y, m) - DaysInMonth(y, m)) % 7 == 0
  {
    if m == 1 {
      LeapStep(y);
    }
  }

  lemma NextYear(y: nat)
    requires y >= 1
    ensures (Raw(y + 1, 0) - Raw(y, 11) - DaysInMonth(y, 11)) % 7 == 0
  {
  }

  lemma SameRemainder(a: int, b: int, d: int)
    requires (a - b - d) % 7 == 0
    ensures a % 7 == (b + d) % 7
  {
  }

  lemma AddRemainder(a: int, b: int, d: int)
    requires a % 7 == b % 7
    ensures (a + d) % 7 == (b + d) % 7
  {
  }

  lemma FirstDay()
    ensures DowFirst(1, 0) == 0
  {
  }

  /** The first of the month falls on the day of the week the calendar says. */
  lemma {:induction false} DowFirstCounts(y: nat, m: nat)
    requires y >= 1 && m < 12
    ensures DowFirst(y, m) == DayNumber(y, m) % 7
    decreases y, m
  {
    hide DowFirst, Raw, DaysInMonth;
    DowFirstIsRaw(y, m);
    if m > 0 {
      DowFirstCounts(y, m - 1);
      DowFirstIsRaw(y, m - 1);
      NextInYear(y, m - 1);
      SameRemainder(Raw(y, m), Raw(y, m - 1), DaysInMonth(y, m - 1));
      AddRemainder(Raw(y, m - 1), DayNumber(y, m - 1), DaysInMonth(y, m - 1));
    } else if y > 1 {
      DowFirstCounts(y - 1, 11);
      DowFirstIsRaw(y - 1, 11);
      NextYear(y - 1);
      SameRemainder(Raw(y, 0), Raw(y - 1, 11), DaysInMonth(y - 1, 11));
      AddRemainder(Raw(y - 1, 11), DayNumber(y - 1, 11), DaysInMonth(y - 1, 11));
    } else {
      FirstDay();
    }
  }

  // ---------- the page ----------

  datatype Date = Date(year: nat, month: nat, day: nat)

  predicate ValidDate(d: Date) {
    d.year >= 1 && d.month < 12 && 1 <= d.day <= DaysInMonth(d.year, d.month)
  }

  function Ordinal(d: Date): int
    requires ValidDate(d)
  {
    DayNumber(d.year, d.month) + d.day - 1
  }

  function Following(y: int, m: nat): (int, nat) { if m == 11 then (y + 1, 0) else (y, m + 1) }

  /** The month that follows begins when this one has passed, in every year. */
  lemma FollowingBegins(y: int, m: nat)
    requires m < 12
    ensures var (y1, m1) := Following(y, m); m1 < 12 && 12 * y1 + m1 == 12 * y + m + 1
    ensures y >= 1 ==> var (y1, m1) := Following(y, m); y1 >= 1 && DayNumber(y1, m1) == DayNumber(y, m) + DaysInMonth(y, m)
  {
    hide DaysInMonth;
  }

  /** The label of a cell, as calendar_populate computes it. */
  function Label(y: int, m: nat, i: nat): int
    requires m < 12
  {
    var ndays, start := DaysInMonth(y, m), DowFirst(y, m);
    var prevDays := if m == 0 then DaysInMonth(y - 1, 11) else DaysInMonth(y, m - 1);
    if i < start then prevDays - start + i + 1
    else if i - start + 1 > ndays then i - start + 1 - ndays
    else i - start + 1
  }

  /** Every page shows 42 consecutive days, the first a Monday, with the whole month among them. */
  lemma PageIsConsecutive(y: nat, m: nat, i: nat) returns (d: Date)
    requires y >= 1 && m < 12 && i < 42
    ensures ValidDate(d) && Label(y, m, i) == d.day
    ensures Ordinal(d) == DayNumber(y, m) - DowFirst(y, m) + i && Ordinal(d) % 7 == i % 7
    ensures d.year == y && d.month == m <==> DowFirst(y, m) <= i < DowFirst(y, m) + DaysInMonth(y, m)
    ensures DowFirst(y, m) + DaysInMonth(y, m) <= 42
  {
    var start, ndays := DowFirst(y, m), DaysInMonth(y, m);
    DowFirstCounts(y, m);
    if i < start {
      FirstPageStartsOnMonday(y, m);
      d := if m == 0 then Date(y - 1, 11, DaysInMonth(y - 1, 11) - start + i + 1)
        else Date(y, m - 1, DaysInMonth(y, m - 1) - start + i + 1);
    } else if i - start + 1 > ndays {
      var (y1, m1) := Following(y, m);
      d := Date(y1, m1, i - start + 1 - ndays);
    } else {
      d := Date(y, m, i - start + 1);
    }
    ColumnIsWeekday(DayNumber(y, m), i);
  }

  /** Before January of year 1 there is nothing to show, and nothing is shown. */
  lemma FirstPageStartsOnMonday(y: nat, m: nat)
    requires y >= 1 && m < 12 && DowFirst(y, m) > 0
    ensures m > 0 || y > 1
  {
  }

  lemma ColumnIsWeekday(n: nat, i: nat)
    ensures (n - n % 7 + i) % 7 == i % 7
  {
    assert n - n % 7 == 7 * (n / 7);
    Multiple(n / 7, i);
  }

  lemma {:induction false} Multiple(q: nat, i: nat)
    ensures (7 * q + i) % 7 == i % 7
  {
    if q > 0 {
      Multiple(q - 1, i);
      assert 7 * q + i == 7 * (q - 1) + i + 7;
    }
  }

  class Panel {
    var calYear: int
    var calMonth: nat
    const calDays: array<int>

    ghost predicate Valid()
      reads this
    {
      calMonth < 12 && calDays.Length == 42
    }

    /** calendar_populate */
    method Populate()
      requires Valid()
      modifies calDays
      ensures forall i :: 0 <= i < 42 ==> calDays[i] == Label(calYear, calMonth, i)
    {
      hide DaysInMonth, DowFirst;
      var ndays: int := DaysInMonth(calYear, calMonth);
      var startDow: int := DowFirst(calYear, calMonth);
      var prevNdays: int := if calMonth == 0 then DaysInMonth(calYear - 1, 11) else DaysInMonth(calYear, calMonth - 1);
      for i := 0 to 42
        invariant forall k :: 0 <= k < i ==> calDays[k] == Label(calYear, calMonth, k)
      {
        var dayNum: int := i - startDow + 1;
        if i < startDow {
          calDays[i] := prevNdays - startDow + i + 1;
        } else if dayNum > ndays {
          calDays[i] := dayNum - ndays;
        } else {
          calDays[i] := dayNum;
        }
      }
    }

    /** next_month_cb */
    method NextMonth()
      requires Valid()
      modifies this, calDays
      ensures Valid() && (calYear, calMonth) == Following(old(calYear), old(calMonth))
      ensures 12 * calYear + calMonth == 12 * old(calYear) + old(calMonth) + 1
      ensures forall i :: 0 <= i < 42 ==> calDays[i] == Label(calYear, calMonth, i)
    {
      calMonth := calMonth + 1;
      if calMonth > 11 {
        calMonth := 0;
        calYear := calYear + 1;
      }
      Populate();
    }

    /** prev_month_cb */
    method PrevMonth()
      requires Valid()
      modifies this, calDays
      ensures Valid() && Following(calYear, calMonth) == (old(calYear), old(calMonth))
      ensures 12 * calYear + calMonth == 12 * old(calYear) + old(calMonth) - 1
      ensures forall i :: 0 <= i < 42 ==> calDays[i] == Label(calYear, calMonth, i)
    {
      if calMonth == 0 {
        calMonth := 11;
        calYear := calYear - 1;
      } else {
        calMonth := calMonth - 1;
      }
      Populate();
    }
  }
}
