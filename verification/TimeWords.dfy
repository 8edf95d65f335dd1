/** What dates, weekdays, units and words of a time expression come to, in days and seconds. */
module TimeWords {
  import opened Wrappers
  import opened TimeExpr
  import Stamps

  /* ---- The calendar against known dates ---- */

  // How often a cycle of years comes round before a year.
  lemma {:induction false} Rounds(year: nat, cycle: nat)
    requires cycle > 0
    ensures (year + cycle) / cycle == (year + cycle - 1) / cycle + if year % cycle == 0 then 1 else 0
  {
    var q, r := year / cycle, year % cycle;
    assert year == q * cycle + r;
    DivideAs(year + cycle, cycle, q + 1, r);
    if r == 0 {
      DivideAs(year + cycle - 1, cycle, q, cycle - 1);
    } else {
      DivideAs(year + cycle - 1, cycle, q + 1, r - 1);
    }
  }

  lemma {:induction false} TimesAtLeast(d: int, k: nat)
    ensures d > 0 ==> d * k >= k
    ensures d < 0 ==> d * k + k <= 0
  {
    if d > 0 {
      assert (d - 1) * k >= 0;
    } else if d < 0 {
      assert (-d - 1) * k >= 0;
    }
  }

  lemma {:induction false} DivideAs(n: int, k: nat, q: int, r: int)
    requires k > 0 && n == q * k + r && 0 <= r < k
    ensures n / k == q && n % k == r
  {
    var d := n / k - q;
    assert d * k == r - n % k;
    TimesAtLeast(d, k);
  }

  lemma {:induction false} CyclesNest(year: nat)
    ensures year % 400 == 0 ==> year % 100 == 0
    ensures year % 100 == 0 ==> year % 4 == 0
  {
    if year % 400 == 0 {
      DivideAs(year, 100, 4 * (year / 400), 0);
    }
    if year % 100 == 0 {
      DivideAs(year, 4, 25 * (year / 100), 0);
    }
  }

  // Leap years before a year, by the Gregorian rule.
  function LeapsBefore(year: nat): int {
    (year + 3) / 4 - (year + 99) / 100 + (year + 399) / 400
  }

  lemma {:induction false} LeapsStep(year: nat)
    ensures LeapsBefore(year + 1) ==
            LeapsBefore(year) + if year % 4 == 0 && (year % 100 != 0 || year % 400 == 0) then 1 else 0
  {
    Rounds(year, 4);
    Rounds(year, 100);
    Rounds(year, 400);
    CyclesNest(year);
  }

  lemma {:induction false} DaysBeforeYearIs(year: nat)
    ensures Stamps.DaysBeforeYear(year) == 365 * year + LeapsBefore(year)
  {
    if year > 0 {
      var y := year - 1;
      DaysBeforeYearIs(y);
      YearLength(y);
      LeapsStep(y);
      assert y + 1 == year;
    }
  }

  lemma {:induction false} YearLength(year: nat)
    ensures Stamps.DaysBeforeMonth(year, 13) ==
            if year % 4 == 0 && (year % 100 != 0 || year % 400 == 0) then 366 else 365
  {
    MonthsBefore(year);
  }

  lemma {:induction false} MonthsBefore(year: nat)
    ensures var leap := if year % 4 == 0 && (year % 100 != 0 || year % 400 == 0) then 1 else 0;
            && Stamps.DaysBeforeMonth(year, 1) == 0
            && Stamps.DaysBeforeMonth(year, 2) == 31
            && Stamps.DaysBeforeMonth(year, 3) == 59 + leap
            && Stamps.DaysBeforeMonth(year, 4) == 90 + leap
            && Stamps.DaysBeforeMonth(year, 5) == 120 + leap
            && Stamps.DaysBeforeMonth(year, 6) == 151 + leap
            && Stamps.DaysBeforeMonth(year, 7) == 181 + leap
            && Stamps.DaysBeforeMonth(year, 8) == 212 + leap
            && Stamps.DaysBeforeMonth(year, 9) == 243 + leap
            && Stamps.DaysBeforeMonth(year, 10) == 273 + leap
            && Stamps.DaysBeforeMonth(year, 11) == 304 + leap
            && Stamps.DaysBeforeMonth(year, 12) == 334 + leap
            && Stamps.DaysBeforeMonth(year, 13) == 365 + leap
  {
  }

  /** The day of any date of the years 0 to 9999, in closed form. */
  lemma {:induction false} DaysAreGregorian(t: Stamps.DateTime)
    requires Stamps.Valid(t)
    ensures var y, leap := t.year, if t.year % 4 == 0 && (t.year % 100 != 0 || t.year % 400 == 0) then 1 else 0;
            var months := [0, 31, 59, 90, 120, 151, 181, 212, 243, 273, 304, 334];
            DayNumber(DateOf(t)) ==
            365 * y + (y + 3) / 4 - (y + 99) / 100 + (y + 399) / 400
            + months[t.month - 1] + (if t.month > 2 then leap else 0) + t.day - 1
  {
    SameCalendar(t);
    DaysBeforeYearIs(t.year);
    DaysBeforeMonthIs(t.year, t.month);
  }

  lemma {:induction false} DaysBeforeMonthIs(year: nat, month: nat)
    requires 1 <= month <= 12
    ensures var leap := if year % 4 == 0 && (year % 100 != 0 || year % 400 == 0) then 1 else 0;
            var months := [0, 31, 59, 90, 120, 151, 181, 212, 243, 273, 304, 334];
            Stamps.DaysBeforeMonth(year, month) == months[month - 1] + if month > 2 then leap else 0
  {
    MonthsBefore(year);
  }

  // The Unix epoch.
  lemma {:induction false} EpochDay()
    ensures DayNumber(Date(12 * 1970, 1)) == 719528
  {
    DaysAreGregorian(Stamps.DateTime(1970, 1, 1, 0, 0, 0));
  }

  /** Weekdays go round with the days, and day 719528, 1 January 1970, was a Thursday. */
  lemma {:induction false} WeekdaysGoRound(day: int)
    ensures Weekday(719528) == 3
    ensures Weekday(day) < 7 && Weekday(day + 1) == (if Weekday(day) == 6 then 0 else Weekday(day) + 1)
  {
  }

  /* ---- Words ---- */

  lemma {:induction false} ReadsAsKeyword(s: string, now: Now)
    requires s != "" && !Stamps.IsDigit(s[|s| - 1]) && Keyword(s, now).Some?
    ensures ResolveTarget(s, now) == Keyword(s, now).value
  {
    NotAName(s);
  }

  /** The words for days: this very second, the end of yesterday, the end of the day a week
   *  ago.
   */
  lemma {:induction false} DayWords(now: Now)
    ensures var today := DayNumber(now.date);
            && ResolveTarget("now", now) == At(today * 86400 + now.second)
            && ResolveTarget("today", now) == At(today * 86400 + now.second)
            && ResolveTarget("yesterday", now) == At((today - 1) * 86400 + 86399)
            && ResolveTarget("last-week", now) == At((today - 7) * 86400 + 86399)
  {
    ReadsAsKeyword("now", now);
    ReadsAsKeyword("today", now);
    ReadsAsKeyword("yesterday", now);
    ReadsAsKeyword("last-week", now);
  }

  /** A count of a unit, in seconds back from now. */
  lemma {:induction false} UnitsBack(n: int, now: Now)
    ensures var t := DayNumber(now.date) * 86400 + now.second;
            && (forall u :: u != Month && Ago(u, n, now).At? ==>
                  Ago(u, n, now).instant ==
                  t - n * (if u == Minute then 60 else if u == Hour then 3600 else if u == Day then 86400 else 604800))
            && (forall u :: u != Month ==> Ago(u, n, now) != Unrecognised)
            && (forall u :: u != Month && Ago(u, n, now) == Panics ==>
                  t - n * (if u == Minute then 60 else if u == Hour then 3600 else if u == Day then 86400 else 604800)
                  < MonthStart(-262143 * 12) * 86400)
            && (forall u :: u != Month && Ago(u, n, now).At? ==>
                  Ago(u, n, now).instant >= MonthStart(-262143 * 12) * 86400)
  {
    forall u | u != Month && Ago(u, n, now).At?
      ensures Ago(u, n, now).instant ==
              DayNumber(now.date) * 86400 + now.second
              - n * (if u == Minute then 60 else if u == Hour then 3600 else if u == Day then 86400 else 604800)
    {
      match u {
        case Minute => assert Seconds(u) == 60;
        case Hour => assert Seconds(u) == 3600;
        case Day => assert Seconds(u) == 86400;
        case Week => assert Seconds(u) == 604800;
      }
    }
  }

  /** A count is a number of 64 bits, with a sign or without. */
  lemma {:induction false} CountsRead(ds: string, n: int)
    requires n >= 0 && Numeral(ds) && Stamps.ParseDigits(ds) == Some(n)
    ensures ParseI64(ds) == if n < 0x8000_0000_0000_0000 then Some(n) else None
    ensures ParseI64("+" + ds) == if n < 0x8000_0000_0000_0000 then Some(n) else None
    ensures ParseI64("-" + ds) == if n <= 0x8000_0000_0000_0000 then Some(-n) else None
  {
    assert ("+" + ds)[1..] == ds && ("-" + ds)[1..] == ds;
    assert Stamps.IsDigit(ds[0]);
  }

  /** A count of months, cut to 32 bits: the end of the same day that many months earlier,
   *  or of that month's last day when it has no such day.
   */
  lemma {:induction false} MonthsBackIs(n: int, now: Now)
    requires ValidNow(now)
    ensures var months := n % 0x1_0000_0000;
            var month := now.date.month - months;
            match Ago(Month, n, now)
            case At(instant) =>
              exists day: nat :: && ValidDate(Date(month, day))
                                 && instant == DayNumber(Date(month, day)) * 86400 + 86399
                                 && (day == now.date.day ||
                                     (day < now.date.day && !ValidDate(Date(month, day + 1))))
            case Unrecognised => month < -262143 * 12
            case Panics => false
  {
    var months := n % 0x1_0000_0000;
    if Ago(Month, n, now).At? {
      var month, day := now.date.month - months, MonthsBack(now.date, months).day;
      assert MonthLength(month) >= 28;
      assert ValidDate(Date(month, day));
      assert day == now.date.day || (day < now.date.day && !ValidDate(Date(month, day + 1)));
    }
  }

  lemma {:induction false} DateText(y: string, m: string, d: string)
    requires |y| == 4 && |m| == 2 && |d| == 2
    ensures var s := y + "-" + m + "-" + d;
            |s| == 10 && s[4] == '-' && s[7] == '-' && s[..4] == y && s[5..7] == m && s[8..] == d
  {
    var s := y + "-" + m + "-" + d;
    assert s[5..7] == m;
  }

  lemma {:induction false} DateReads(y: nat, m: nat, d: nat, s: string)
    requires y < 10000 && 1 <= m <= 12 && 1 <= d <= Stamps.DaysIn(y, m)
    requires |s| == 10 && s[4] == '-' && s[7] == '-'
    requires s[..4] == Stamps.Digits(y, 4) && s[5..7] == Stamps.Digits(m, 2) && s[8..] == Stamps.Digits(d, 2)
    ensures ParseDate(s) == Some(Date(12 * y + m - 1, d))
  {
    Stamps.PowersOfTen();
    Stamps.ParseOfDigits(y, 4);
    Stamps.ParseOfDigits(m, 2);
    Stamps.ParseOfDigits(d, 2);
  }

  /** A day written out is the end of that day. */
  lemma {:induction false} DateResolves(t: Stamps.DateTime, now: Now)
    requires Stamps.Valid(t)
    ensures ResolveTarget(Stamps.Digits(t.year, 4) + "-" + Stamps.Digits(t.month, 2) + "-"
                          + Stamps.Digits(t.day, 2), now) == At(DayNumber(DateOf(t)) * 86400 + 86399)
  {
    var y, m, d := Stamps.Digits(t.year, 4), Stamps.Digits(t.month, 2), Stamps.Digits(t.day, 2);
    var s := y + "-" + m + "-" + d;
    DateText(y, m, d);
    DateReads(t.year, t.month, t.day, s);
    assert Stamps.Parse(s) == None;
  }

  /** The spellings of the units. */
  lemma {:induction false} UnitSpellings()
    ensures UnitFrom("minute") == UnitFrom("minutes") == UnitFrom("min") == UnitFrom("m") == Some(Minute)
    ensures UnitFrom("hour") == UnitFrom("hours") == UnitFrom("hr") == UnitFrom("h") == Some(Hour)
    ensures UnitFrom("day") == UnitFrom("days") == UnitFrom("d") == Some(Day)
    ensures UnitFrom("week") == UnitFrom("weeks") == UnitFrom("w") == Some(Week)
    ensures UnitFrom("month") == UnitFrom("months") == UnitFrom("mo") == Some(Month)
  {
  }

  // s is w with some letters in capitals.
  ghost predicate SameButCase(s: string, w: string) {
    && |s| == |w|
    && forall i :: 0 <= i < |s| ==> 'a' <= w[i] <= 'z' && (s[i] == w[i] || s[i] as int + 32 == w[i] as int)
  }

  lemma {:induction false} LowerUndoesCase(s: string, w: string)
    requires SameButCase(s, w)
    ensures Lower(s) == w
  {
    LowerAt(s);
    forall i | 0 <= i < |s| ensures Lower(s)[i] == w[i] {
      assert Lower(s)[i] == LowerChar(s[i]);
    }
  }

  /** The spellings of the weekdays, in any case, numbered from Monday. */
  lemma {:induction false} WeekdaySpellings(s: string, w: string)
    requires SameButCase(s, w)
    ensures w == "mon" || w == "monday" ==> WeekdayFrom(s) == Some(0)
    ensures w == "tue" || w == "tues" || w == "tuesday" ==> WeekdayFrom(s) == Some(1)
    ensures w == "wed" || w == "wednesday" ==> WeekdayFrom(s) == Some(2)
    ensures w == "thu" || w == "thur" || w == "thursday" ==> WeekdayFrom(s) == Some(3)
    ensures w == "fri" || w == "friday" ==> WeekdayFrom(s) == Some(4)
    ensures w == "sat" || w == "saturday" ==> WeekdayFrom(s) == Some(5)
    ensures w == "sun" || w == "sunday" ==> WeekdayFrom(s) == Some(6)
  {
    LowerUndoesCase(s, w);
  }

  lemma {:induction false} DigitsLook()
    ensures Stamps.Digits(2024, 4) == "2024" && Stamps.Digits(2, 2) == "02" && Stamps.Digits(29, 2) == "29"
    ensures Stamps.Digits(13, 2) == "13" && Stamps.Digits(5, 2) == "05" && Stamps.Digits(9, 2) == "09"
  {
  }

  /** A snapshot's name, letter by letter. */
  lemma {:induction false} NameLooks()
    ensures Stamps.Format(Stamps.DateTime(2024, 2, 29, 13, 5, 9)) == "2024-02-29T13-05-09"
  {
    var t := Stamps.DateTime(2024, 2, 29, 13, 5, 9);
    DigitsLook();
    Stamps.FormatParts(t);
    Stamps.NameParts(Stamps.Format(t));
    Stamps.NameParts("2024-02-29T13-05-09");
    assert "2024-02-29T13-05-09"[..4] == "2024" && "2024-02-29T13-05-09"[5..7] == "02";
    assert "2024-02-29T13-05-09"[8..10] == "29" && "2024-02-29T13-05-09"[11..13] == "13";
    assert "2024-02-29T13-05-09"[14..16] == "05" && "2024-02-29T13-05-09"[17..] == "09";
  }
}
