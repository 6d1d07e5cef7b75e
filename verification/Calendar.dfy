// The ISO 8601 week label of a date, as the web client computes it with `Date`.
module Calendar {
  // ---- The proleptic Gregorian calendar as day numbers -----------------------------

  predicate IsLeap(y: int) {
    y % 4 == 0 && (y % 100 != 0 || y % 400 == 0)
  }

  // Day number of 1 January of year y; 1 January of year 1, a Monday, is day 0.
  function YearStart(y: int): int {
    var e := y - 1;
    365 * e + e / 4 - e / 100 + e / 400
  }

  lemma QuotientGrows(e: int, d: nat)
    requires d == 4 || d == 100 || d == 400
    ensures (e + 1) / d == e / d + (if (e + 1) % d == 0 then 1 else 0)
  {
  }

  lemma HundredsAreFours(y: int)
    requires y % 100 == 0
    ensures y % 4 == 0
  {
    assert y == 4 * (25 * (y / 100));
  }

  lemma FourHundredsAreHundreds(y: int)
    requires y % 400 == 0
    ensures y % 100 == 0
  {
    assert y == 100 * (4 * (y / 400));
  }

  function One(b: bool): int {
    if b then 1 else 0
  }

  // The leap rule by inclusion and exclusion.
  lemma LeapRule(y: int, four: bool, hundred: bool, fourHundred: bool)
    requires four == (y % 4 == 0) && hundred == (y % 100 == 0) && fourHundred == (y % 400 == 0)
    ensures One(four) - One(hundred) + One(fourHundred) == One(IsLeap(y))
  {
    if fourHundred {
      FourHundredsAreHundreds(y);
    }
    if hundred {
      HundredsAreFours(y);
    }
  }

  lemma YearLength(y: int)
    ensures YearStart(y + 1) == YearStart(y) + 365 + One(IsLeap(y))
  {
    var e := y - 1;
    var four, hundred, fourHundred := y % 4 == 0, y % 100 == 0, y % 400 == 0;
    assert y / 4 == e / 4 + One(four) by { QuotientGrows(e, 4); }
    assert y / 100 == e / 100 + One(hundred) by { QuotientGrows(e, 100); }
    assert y / 400 == e / 400 + One(fourHundred) by { QuotientGrows(e, 400); }
    LeapRule(y, four, hundred, fourHundred);
  }

  lemma {:induction false} YearsAreOrdered(x: int, y: int)
    requires x <= y
    ensures YearStart(y) >= YearStart(x) + 365 * (y - x)
    decreases y - x
  {
    if x < y {
      YearsAreOrdered(x, y - 1);
      YearLength(y - 1);
    }
  }

  lemma YearsGrow(y: int)
    ensures YearStart(y - 1) < YearStart(y) < YearStart(y + 1) < YearStart(y + 2)
  {
    YearLength(y - 1);
    YearLength(y);
    YearLength(y + 1);
  }

  // The year of a day, searched from a first guess.
  function YearFrom(day: int, guess: int): (y: int)
    ensures YearStart(y) <= day < YearStart(y + 1)
    decreases if day < YearStart(guess) then YearStart(guess) - day
              else if day >= YearStart(guess + 1) then day - YearStart(guess + 1) + 1 else 0
  {
    YearsGrow(guess);
    if day < YearStart(guess) then YearFrom(day, guess - 1)
    else if day >= YearStart(guess + 1) then YearFrom(day, guess + 1)
    else guess
  }

  function YearOf(day: int): (y: int)
    ensures YearStart(y) <= day < YearStart(y + 1)
  {
    YearFrom(day, day / 365)
  }

  lemma YearIsUnique(day: int, y: int)
    requires YearStart(y) <= day < YearStart(y + 1)
    ensures YearOf(day) == y
  {
    var z := YearOf(day);
    if z < y {
      YearsAreOrdered(z + 1, y);
    } else if y < z {
      YearsAreOrdered(y + 1, z);
    }
  }

  function DaysBeforeMonth(y: int, month: nat): nat
    requires month < 12
  {
    [0, 31, 59, 90, 120, 151, 181, 212, 243, 273, 304, 334][month]
    + (if month >= 2 && IsLeap(y) then 1 else 0)
  }

  // A calendar date with a month counted from 0, as `getMonth` does.
  datatype Date = Date(year: int, month: nat, dayOfMonth: nat)
  {
    predicate Valid() {
      && month < 12 && dayOfMonth >= 1
      && DaysBeforeMonth(year, month) + dayOfMonth <=
           (if month < 11 then DaysBeforeMonth(year, month + 1) else if IsLeap(year) then 366 else 365)
    }

    function DayNumber(): int
      requires month < 12
    {
      YearStart(year) + DaysBeforeMonth(year, month) + dayOfMonth - 1
    }
  }

  lemma DateLiesInItsYear(d: Date)
    requires d.Valid()
    ensures YearOf(d.DayNumber()) == d.year
  {
    YearLength(d.year);
    YearIsUnique(d.DayNumber(), d.year);
  }

  // Month lengths, as the calendar has them.
  function MonthLength(y: int, month: nat): nat
    requires month < 12
  {
    if month == 1 then (if y % 4 == 0 && (y % 100 != 0 || y % 400 == 0) then 29 else 28)
    else if month in {3, 5, 8, 10} then 30
    else 31
  }

  function NextDate(d: Date): Date
    requires d.month < 12
  {
    if d.dayOfMonth < MonthLength(d.year, d.month) then d.(dayOfMonth := d.dayOfMonth + 1)
    else if d.month < 11 then Date(d.year, d.month + 1, 1)
    else Date(d.year + 1, 0, 1)
  }

  lemma MonthEnds(y: int, month: nat)
    requires month < 12
    ensures DaysBeforeMonth(y, month) + MonthLength(y, month) ==
              if month < 11 then DaysBeforeMonth(y, month + 1) else 365 + One(IsLeap(y))
  {
  }

  lemma FirstOfMonth(y: int, month: nat)
    requires month < 12
    ensures Date(y, month, 1).Valid()
    ensures DaysBeforeMonth(y, 0) == 0
  {
    MonthEnds(y, month);
  }

  lemma DateIsValidExactlyWhen(d: Date)
    ensures d.Valid() <==> d.month < 12 && 1 <= d.dayOfMonth <= MonthLength(d.year, d.month)
  {
    if d.month < 12 {
      MonthEnds(d.year, d.month);
    }
  }

  // Day numbers count the dates of the calendar, one by one.
  lemma DatesAreCounted(d: Date)
    requires d.Valid()
    ensures NextDate(d).Valid() && NextDate(d).DayNumber() == d.DayNumber() + 1
  {
    DateIsValidExactlyWhen(d);
    if d.dayOfMonth < MonthLength(d.year, d.month) {
      DateIsValidExactlyWhen(NextDate(d));
    } else if d.month < 11 {
      MonthEnds(d.year, d.month);
      FirstOfMonth(d.year, d.month + 1);
    } else {
      LastDayOfYear(d.year);
    }
  }

  lemma LastDayOfYear(y: int)
    ensures MonthLength(y, 11) == 31 && Date(y + 1, 0, 1).Valid()
    ensures Date(y + 1, 0, 1).DayNumber() == Date(y, 11, 31).DayNumber() + 1
  {
    FirstOfMonth(y + 1, 0);
    MonthEnds(y, 11);
    YearLength(y);
  }

  // 1 January 1970 is a Thursday.
  lemma EpochIsThursday()
    ensures Date(1970, 0, 1).DayNumber() % 7 == 3
  {
    assert YearStart(1970) == 719162;
    FirstOfMonth(1970, 0);
  }

  // ---- ISO 8601 -------------------------------------------------------------------

  // The Monday of the week a day lies in, and its Thursday.
  function Monday(day: int): int {
    day - day % 7
  }

  function Thursday(day: int): int {
    Monday(day) + 3
  }

  predicate SameWeek(a: int, b: int) {
    Monday(a) == Monday(b)
  }

  datatype Label = Label(year: int, week: int)

  // Section 2.2.10 of ISO 8601:2004: a week belongs to the year that holds most of it,
  // that is its Thursday, and week 1 is the week of 4 January.
  function IsoLabel(day: int): Label {
    var y := YearOf(Thursday(day));
    Label(y, (Monday(day) - Monday(YearStart(y) + 3)) / 7 + 1)
  }

  // The number of the week of Thursday `t` in the year that starts on day `start`, as
  // weeks from the week of 4 January and as Thursdays counted from the start.
  lemma WeekNumber(t: int, start: int)
    requires t % 7 == 3 && start <= t < start + 366
    ensures Monday(t) - Monday(start + 3) == 7 * (CeilSeventh(t - start + 1) - 1)
    ensures 1 <= CeilSeventh(t - start + 1) <= 53
  {
    var a, b, s := t / 7, start / 7, start % 7;
    assert t == 7 * a + 3 && start == 7 * b + s;
    if s <= 3 {
      assert Monday(start + 3) == 7 * b;
      SeventhOf(a - b, 4 - s);
    } else {
      assert Monday(start + 3) == 7 * b + 7;
      SeventhOf(a - b - 1, 11 - s);
    }
  }

  lemma SeventhOf(k: int, r: int)
    requires 1 <= r <= 7
    ensures CeilSeventh(7 * k + r) == k + 1
  {
  }

  lemma ThursdayOfWeek(day: int)
    ensures Thursday(day) % 7 == 3 && Monday(Thursday(day)) == Monday(day)
  {
  }

  // `Math.ceil(n / 7)`.
  function CeilSeventh(n: int): int {
    -(-n / 7)
  }

  // Counting Thursdays from the start of the year gives the ISO number.
  lemma ThursdayCountIsIsoWeek(day: int)
    ensures var y := YearOf(Thursday(day));
            IsoLabel(day) == Label(y, CeilSeventh(Thursday(day) - YearStart(y) + 1))
    ensures 1 <= IsoLabel(day).week <= 53
    ensures Monday(day) == Monday(YearStart(IsoLabel(day).year) + 3) + 7 * (IsoLabel(day).week - 1)
  {
    var t := Thursday(day);
    var y := YearOf(t);
    YearLength(y);
    ThursdayOfWeek(day);
    WeekNumber(t, YearStart(y));
  }

  lemma SameWeekSameLabel(a: int, b: int)
    requires SameWeek(a, b)
    ensures IsoLabel(a) == IsoLabel(b)
  {
    assert Thursday(a) == Thursday(b);
  }

  // The label with year y and week w is that of the days of the week whose Thursday lies
  // in the year and which begins w - 1 weeks after the one with 4 January.
  lemma IsoLabelMeans(day: int, y: int, w: int)
    ensures var fourth := Date(y, 0, 4).DayNumber();
            IsoLabel(day) == Label(y, w) <==>
              && Date(y, 0, 1).DayNumber() <= day - day % 7 + 3 < Date(y + 1, 0, 1).DayNumber()
              && day - day % 7 == fourth - fourth % 7 + 7 * (w - 1)
  {
    StartOfYear(y);
    StartOfYear(y + 1);
    IsoLabelAt(day, y, w);
  }

  lemma IsoLabelAt(day: int, y: int, w: int)
    ensures IsoLabel(day) == Label(y, w) <==>
              && YearStart(y) <= Thursday(day) < YearStart(y + 1)
              && Monday(day) == Monday(YearStart(y) + 3) + 7 * (w - 1)
  {
    ThursdayCountIsIsoWeek(day);
    if IsoLabel(day).year == y {
      SameNumber(Monday(day), Monday(YearStart(y) + 3), IsoLabel(day).week, w);
    } else if YearStart(y) <= Thursday(day) < YearStart(y + 1) {
      YearIsUnique(Thursday(day), y);
      assert false;
    }
  }

  lemma SameNumber(monday: int, first: int, v: int, w: int)
    requires monday == first + 7 * (v - 1)
    ensures v == w <==> monday == first + 7 * (w - 1)
  {
  }

  lemma StartOfYear(y: int)
    ensures Date(y, 0, 1).DayNumber() == YearStart(y) && Date(y, 0, 4).DayNumber() == YearStart(y) + 3
  {
    FirstOfMonth(y, 0);
  }

  // Two days share an ISO label exactly when they lie in the same week; the numbers run
  // from 1 to 53.
  lemma IsoLabelNamesWeeks(a: int, b: int)
    ensures IsoLabel(a) == IsoLabel(b) <==> SameWeek(a, b)
    ensures 1 <= IsoLabel(a).week <= 53
  {
    ThursdayCountIsIsoWeek(a);
    if IsoLabel(a) == IsoLabel(b) {
      ThursdayCountIsIsoWeek(b);
    } else if SameWeek(a, b) {
      SameWeekSameLabel(a, b);
    }
  }

  // ---- The client's computation -------------------------------------------------------

  // The `Date` constructor reads a year from 0 to 99 as 1900 to 1999.
  function ConstructedYear(y: int): int {
    if 0 <= y <= 99 then 1900 + y else y
  }

  predicate TwoDigit(y: int) {
    0 <= y <= 99
  }

  // `new Date(y, month, dayOfMonth)`; an overflowing day runs into the next month.
  function Construct(y: int, month: nat, dayOfMonth: nat): int
    requires month < 12
  {
    Date(ConstructedYear(y), month, dayOfMonth).DayNumber()
  }

  // `getDay() || 7`: Monday is 1, Sunday is 7.
  function IsoWeekday(day: int): int {
    day % 7 + 1
  }

  method CurrentWeekLabel(date: Date) returns (r: Label)
    requires date.Valid()
    ensures r == LabelOf(date)
    ensures r == IsoLabel(date.DayNumber()) <==> !IsMislabelled(date)
  {
    var local := Construct(date.year, date.month, date.dayOfMonth);
    var day := IsoWeekday(local);
    local := local + 4 - day;
    var yearStart := Construct(YearOf(local), 0, 1);
    var week := CeilSeventh(local - yearStart + 1);
    r := Label(YearOf(local), week);
    MislabelledDates(date);
  }

  function LabelOf(date: Date): Label
    requires date.month < 12
  {
    var thursday := Thursday(Construct(date.year, date.month, date.dayOfMonth));
    var y := YearOf(thursday);
    Label(y, CeilSeventh(thursday - YearStart(ConstructedYear(y)) + 1))
  }

  // The label is the ISO label of the date, except where `Date` takes a year for one of
  // the twentieth century: the date's own year, or the year its Thursday falls in.
  lemma LabelIsIsoExactlyWhen(date: Date)
    requires date.Valid()
    ensures LabelOf(date) == IsoLabel(date.DayNumber()) <==>
              !TwoDigit(date.year) && !TwoDigit(IsoLabel(date.DayNumber()).year)
  {
    var day := date.DayNumber();
    DateLiesInItsYear(date);
    if TwoDigit(date.year) {
      ShiftedDateIsLater(date);
    } else {
      assert Construct(date.year, date.month, date.dayOfMonth) == day;
      var y := YearOf(Thursday(day));
      ThursdayCountIsIsoWeek(day);
      if TwoDigit(y) {
        YearsAreOrdered(y + 1, 1900 + y);
        assert CeilSeventh(Thursday(day) - YearStart(1900 + y) + 1) < 1;
        IsoLabelNamesWeeks(day, day);
      }
    }
  }

  lemma MonthsNearlyAgree(x: int, y: int, month: nat)
    requires month < 12
    ensures DaysBeforeMonth(x, month) - 1 <= DaysBeforeMonth(y, month) <= DaysBeforeMonth(x, month) + 1
  {
  }

  lemma ThursdayIsNear(day: int)
    ensures day - 3 <= Thursday(day) <= day + 3
    ensures day < -366 ==> Thursday(day) < -366
  {
  }

  // Days more than 372 apart have their Thursdays in different years.
  lemma LaterYear(day: int, later: int)
    requires later > day + 372
    ensures YearOf(Thursday(later)) > YearOf(Thursday(day))
  {
    ThursdayIsNear(day);
    ThursdayIsNear(later);
    var y, z := YearOf(Thursday(day)), YearOf(Thursday(later));
    YearLength(y);
    if z <= y {
      YearsAreOrdered(z + 1, y + 1);
    }
  }

  // A date of the first century is labelled as one of the twentieth.
  lemma ShiftedDateIsLater(date: Date)
    requires date.Valid() && TwoDigit(date.year)
    ensures LabelOf(date).year > IsoLabel(date.DayNumber()).year
  {
    MonthsNearlyAgree(date.year, 1900 + date.year, date.month);
    YearsAreOrdered(date.year, 1900 + date.year);
    LaterYear(date.DayNumber(), Construct(date.year, date.month, date.dayOfMonth));
  }

  // The failing dates, spelled out: years 0 to 99, and the first three days of year 100.
  predicate IsMislabelled(date: Date) {
    TwoDigit(date.year) || (date.year == 100 && date.month == 0 && date.dayOfMonth <= 3)
  }

  lemma DaysOfTwoDigitYears(day: int)
    ensures TwoDigit(YearOf(day)) <==> -366 <= day < 36159
  {
    var y := YearOf(day);
    assert YearStart(0) == -366 && YearStart(100) == 36159;
    if y < 0 {
      YearsAreOrdered(y + 1, 0);
    } else if y >= 100 {
      YearsAreOrdered(100, y);
    } else {
      YearsAreOrdered(0, y);
      YearsAreOrdered(y + 1, 100);
    }
  }

  // When the year of a day's Thursday is two-digit and the day's is not.
  lemma TwoDigitThursday(day: int)
    requires TwoDigit(YearOf(Thursday(day))) && !TwoDigit(YearOf(day))
    ensures 36159 <= day < 36162
  {
    DaysOfTwoDigitYears(day);
    DaysOfTwoDigitYears(Thursday(day));
    ThursdayIsNear(day);
  }

  lemma StartOfYearHundred(day: int)
    requires 36159 <= day < 36162
    ensures YearOf(day) == 100 && Thursday(day) == 36158 && YearOf(36158) == 99
  {
    assert Thursday(day) == 36158;
    YearIsUnique(36158, 99);
    YearIsUnique(day, 100);
  }

  lemma MonthStarts(y: int, month: nat)
    requires month < 12
    ensures if month == 0 then DaysBeforeMonth(y, month) == 0 else DaysBeforeMonth(y, month) >= 31
  {
  }

  lemma FirstThreeDays(date: Date)
    requires date.Valid()
    ensures 36159 <= date.DayNumber() < 36162 <==>
              date.year == 100 && date.month == 0 && date.dayOfMonth <= 3
  {
    var day, before := date.DayNumber(), DaysBeforeMonth(date.year, date.month);
    MonthStarts(date.year, date.month);
    assert YearOf(day) == date.year by { DateLiesInItsYear(date); }
    if 36159 <= day < 36162 {
      StartOfYearHundred(day);
      assert day == YearStart(100) + before + date.dayOfMonth - 1;
    }
  }

  lemma MislabelledDates(date: Date)
    requires date.Valid()
    ensures LabelOf(date) == IsoLabel(date.DayNumber()) <==> !IsMislabelled(date)
  {
    var day := date.DayNumber();
    LabelIsIsoExactlyWhen(date);
    DateLiesInItsYear(date);
    FirstThreeDays(date);
    if TwoDigit(YearOf(Thursday(day))) && !TwoDigit(date.year) {
      TwoDigitThursday(day);
    } else if 36159 <= day < 36162 {
      StartOfYearHundred(day);
    }
  }

  // For all other dates, two days share a label exactly when they lie in the same
  // Monday-to-Sunday week, and the week number is between 1 and 53.
  lemma LabelsNameWeeks(a: Date, b: Date)
    requires a.Valid() && b.Valid() && !IsMislabelled(a) && !IsMislabelled(b)
    ensures LabelOf(a) == LabelOf(b) <==> SameWeek(a.DayNumber(), b.DayNumber())
    ensures 1 <= LabelOf(a).week <= 53
  {
    MislabelledDates(a);
    MislabelledDates(b);
    IsoLabelNamesWeeks(a.DayNumber(), b.DayNumber());
  }

  // What the other dates are labelled: a date of the years 0 to 99 as the same date of
  // 1900 to 1999 (29 February of year 0 as 1 March), and the first three days of year 100,
  // whose week belongs to year 99, with a negative week.
  lemma TwoDigitYearsAreTwentiethCentury(date: Date)
    requires date.Valid() && 0 <= date.year <= 99
    ensures LabelOf(date) == IsoLabel(Date(1900 + date.year, date.month, date.dayOfMonth).DayNumber())
  {
    var day := Construct(date.year, date.month, date.dayOfMonth);
    ThursdayCountIsIsoWeek(day);
    ConstructedIsLate(date);
  }

  lemma ConstructedIsLate(date: Date)
    requires date.Valid() && TwoDigit(date.year)
    ensures !TwoDigit(YearOf(Thursday(Construct(date.year, date.month, date.dayOfMonth))))
  {
    var day := Construct(date.year, date.month, date.dayOfMonth);
    assert YearStart(1900) == 693595;
    YearsAreOrdered(1900, 1900 + date.year);
    DaysOfTwoDigitYears(Thursday(day));
    ThursdayIsNear(day);
  }

  lemma YearHundredStartsNegative(date: Date)
    requires date.Valid() && date.year == 100 && date.month == 0 && date.dayOfMonth <= 3
    ensures LabelOf(date) == Label(99, -99085) && IsoLabel(date.DayNumber()) == Label(99, 53)
  {
    var day := date.DayNumber();
    FirstThreeDays(date);
    StartOfYearHundred(day);
    ThursdayCountIsIsoWeek(day);
    WeeksOfYearHundred();
  }

  lemma WeeksOfYearHundred()
    ensures CeilSeventh(36158 - YearStart(99) + 1) == 53
    ensures CeilSeventh(36158 - YearStart(1999) + 1) == -99085
  {
    assert YearStart(99) == 35794;
    assert YearStart(1999) == 729754;
    SeventhOf(52, 1);
    SeventhOf(-99086, 7);
  }
}
