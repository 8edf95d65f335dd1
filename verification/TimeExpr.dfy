/** The time expressions of the `/when` directory.
 *
 *  Naive local time. Days count from the start of year 0 and months are numbered
 *  through, so calendar arithmetic is exact for every year chrono can hold.
 */
module TimeExpr {
  import opened Wrappers
  import Stamps

  /* ---- The calendar ---- */

  // The month that many months after January of year 0, and a day in it.
  datatype Date = Date(month: int, day: nat)

  datatype Now = Now(date: Date, second: nat)

  // January of year -262143, the earliest month a date can hold.
  const FIRST_MONTH: int := -262143 * 12

  function MonthLength(month: int): nat {
    Stamps.DaysIn(month / 12, month % 12 + 1)
  }

  function MonthStart(month: int): int
    decreases if month < 0 then -month else month
  {
    if month == 0 then 0
    else if month > 0 then MonthStart(month - 1) + MonthLength(month - 1)
    else MonthStart(month + 1) - MonthLength(month)
  }

  predicate ValidDate(d: Date) {
    d.month >= FIRST_MONTH && 1 <= d.day <= MonthLength(d.month)
  }

  predicate ValidNow(now: Now) {
    ValidDate(now.date) && now.second < 86400
  }

  function DayNumber(d: Date): int {
    MonthStart(d.month) + d.day - 1
  }

  function NowInstant(now: Now): int {
    DayNumber(now.date) * 86400 + now.second
  }

  function EndOfDay(day: int): int {
    day * 86400 + 86399
  }

  function FirstInstant(): int {
    MonthStart(FIRST_MONTH) * 86400
  }

  lemma {:induction false} NextMonth(m: int)
    ensures MonthStart(m + 1) == MonthStart(m) + MonthLength(m)
  {
  }

  lemma {:induction false} MonthsInOrder(m: int, m': int)
    requires m < m'
    ensures MonthStart(m) + MonthLength(m) <= MonthStart(m')
    decreases m' - m
  {
    NextMonth(m);
    if m + 1 < m' {
      MonthsInOrder(m + 1, m');
    }
  }

  // The calendar of the snapshot names is this one.
  lemma {:induction false} YearStart(year: nat)
    ensures MonthStart(12 * year) == Stamps.DaysBeforeYear(year)
  {
    if year > 0 {
      YearStart(year - 1);
      MonthsOfYear(year - 1, 13);
    }
  }

  lemma {:induction false} MonthsOfYear(year: nat, month: nat)
    requires 1 <= month <= 13
    ensures MonthStart(12 * year + month - 1) == MonthStart(12 * year) + Stamps.DaysBeforeMonth(year, month)
  {
    if month > 1 {
      MonthsOfYear(year, month - 1);
      var m := 12 * year + month - 2;
      NextMonth(m);
      assert m / 12 == year && m % 12 + 1 == month - 1;
    }
  }

  function DateOf(t: Stamps.DateTime): Date {
    Date(12 * t.year + t.month - 1, t.day)
  }

  lemma {:induction false} SameCalendar(t: Stamps.DateTime)
    requires Stamps.Valid(t)
    ensures ValidDate(DateOf(t)) && DayNumber(DateOf(t)) == Stamps.DayOf(t)
  {
    YearStart(t.year);
    MonthsOfYear(t.year, t.month);
    var m := 12 * t.year + t.month - 1;
    assert m / 12 == t.year && m % 12 + 1 == t.month;
  }

  /* ---- Going back ---- */

  // An expression that is none, and an overflow chrono aborts on.
  datatype Target = At(instant: int) | Unrecognised | Panics

  datatype Unit = Minute | Hour | Day | Week | Month

  function Seconds(u: Unit): nat {
    match u
    case Minute => 60
    case Hour => 3600
    case Day => 86400
    case Week => 604800
    case Month => 0
  }

  function Back(now: Now, seconds: int): Target {
    var t := NowInstant(now) - seconds;
    if t < FirstInstant() then Panics else At(t)
  }

  // The same day of an earlier month, or that month's last.
  function MonthsBack(d: Date, months: nat): Date {
    var m := d.month - months;
    Date(m, if d.day <= MonthLength(m) then d.day else MonthLength(m))
  }

  function EndOfMonthsBack(d: Date, months: nat): Target {
    if d.month - months < FIRST_MONTH then Unrecognised else At(EndOfDay(DayNumber(MonthsBack(d, months))))
  }

  // A count of months is cut to 32 bits.
  function Effective(u: Unit, n: int): int {
    if u == Month then n % 0x1_0000_0000 else n
  }

  function Ago(u: Unit, n: int, now: Now): Target {
    if u == Month then EndOfMonthsBack(now.date, Effective(u, n)) else Back(now, n * Seconds(u))
  }

  lemma {:induction false} MoreMonthsBackIsEarlier(d: Date, m: nat, n: nat)
    requires ValidDate(d) && m < n
    ensures DayNumber(MonthsBack(d, n)) < DayNumber(MonthsBack(d, m))
  {
    MonthsInOrder(d.month - n, d.month - m);
  }

  lemma {:induction false} EndOfMonthsOrder(d: Date, m: nat, n: nat)
    requires ValidDate(d)
    ensures var a, b := EndOfMonthsBack(d, m), EndOfMonthsBack(d, n);
            && (a.At? && b.At? ==> (b.instant <= a.instant <==> n >= m))
            && (!a.At? && n >= m ==> !b.At?)
  {
    if m < n {
      MoreMonthsBackIsEarlier(d, m, n);
    } else if n < m {
      MoreMonthsBackIsEarlier(d, n, m);
    }
  }

  lemma {:induction false} ScaleOrder(m: int, n: int, k: nat)
    requires k > 0
    ensures n * k >= m * k <==> n >= m
  {
    if n >= m {
      assert (n - m) * k >= 0;
    } else {
      assert (m - n - 1) * k >= 0;
    }
  }

  /** A larger count is never later, and out of range once a smaller one is;
   *  for months the counts compared are those left after the cut to 32 bits.
   */
  lemma {:induction false} AgoOrder(u: Unit, m: int, n: int, now: Now)
    requires ValidNow(now)
    ensures var a, b := Ago(u, m, now), Ago(u, n, now);
            && (a.At? && b.At? ==> (b.instant <= a.instant <==> Effective(u, n) >= Effective(u, m)))
            && (!a.At? && Effective(u, n) >= Effective(u, m) ==> !b.At?)
  {
    if u == Month {
      EndOfMonthsOrder(now.date, Effective(u, m), Effective(u, n));
    } else {
      ScaleOrder(m, n, Seconds(u));
    }
  }

  // So a larger count of months can be later.
  lemma {:induction false} MonthsWrap(now: Now)
    requires ValidNow(now) && now.date.month > FIRST_MONTH
    ensures Ago(Month, 0x1_0000_0000, now) == At(EndOfDay(DayNumber(now.date)))
    ensures Ago(Month, 1, now).At? && Ago(Month, 1, now).instant < Ago(Month, 0x1_0000_0000, now).instant
  {
    MoreMonthsBackIsEarlier(now.date, 0, 1);
  }

  /* ---- Words ---- */

  function Lower(s: string): string {
    if s == "" then "" else [LowerChar(s[0])] + Lower(s[1..])
  }

  function LowerChar(c: char): char {
    if 'A' <= c <= 'Z' then ((c as int) + 32) as char else c
  }

  function WeekdayFrom(s: string): Option<nat> {
    WeekdayNamed(Lower(s))
  }

  // Monday is 0.
  function WeekdayNamed(w: string): Option<nat> {
    if w == "mon" || w == "monday" then Some(0)
    else if w == "tue" || w == "tues" || w == "tuesday" then Some(1)
    else if w == "wed" || w == "wednesday" then Some(2)
    else if w == "thu" || w == "thur" || w == "thursday" then Some(3)
    else if w == "fri" || w == "friday" then Some(4)
    else if w == "sat" || w == "saturday" then Some(5)
    else if w == "sun" || w == "sunday" then Some(6)
    else None
  }

  function UnitFrom(s: string): Option<Unit> {
    if s == "minute" || s == "minutes" || s == "min" || s == "m" then Some(Minute)
    else if s == "hour" || s == "hours" || s == "hr" || s == "h" then Some(Hour)
    else if s == "day" || s == "days" || s == "d" then Some(Day)
    else if s == "week" || s == "weeks" || s == "w" then Some(Week)
    else if s == "month" || s == "months" || s == "mo" then Some(Month)
    else None
  }

  // i64 text: an optional sign, then digits, within range.
  function ParseI64(s: string): Option<int> {
    var signed := s != "" && (s[0] == '+' || s[0] == '-');
    var digits := if signed then s[1..] else s;
    if digits == "" then None
    else
      match Stamps.ParseDigits(digits)
      case None => None
      case Some(n) =>
        var value := (if signed && s[0] == '-' then -1 else 1) * n;
        if -0x8000_0000_0000_0000 <= value < 0x8000_0000_0000_0000 then Some(value) else None
  }

  // The index of the first character that `stop` accepts.
  function FirstIndex(s: string, stop: char -> bool): (i: nat)
    ensures i <= |s|
    ensures i < |s| ==> stop(s[i])
    ensures forall j :: 0 <= j < i ==> !stop(s[j])
  {
    if s == "" || stop(s[0]) then 0 else 1 + FirstIndex(s[1..], stop)
  }

  lemma {:induction false} FirstIndexIs(s: string, stop: char -> bool, i: nat)
    requires i <= |s| && (i < |s| ==> stop(s[i]))
    requires forall j :: 0 <= j < i ==> !stop(s[j])
    ensures FirstIndex(s, stop) == i
  {
  }

  function IsDash(): char -> bool {
    c => c == '-'
  }

  function IsNotDigit(): char -> bool {
    c => !Stamps.IsDigit(c)
  }

  predicate EndsWith(s: string, suffix: string) {
    |s| >= |suffix| && s[|s| - |suffix|..] == suffix
  }

  /* ---- Relative expressions ---- */

  // "3-days"
  function LongForm(head: string, now: Now): Option<Target> {
    var i := FirstIndex(head, IsDash());
    if i == |head| then None
    else
      match (ParseI64(head[..i]), UnitFrom(head[i + 1..]))
      case (Some(n), Some(u)) => Some(Ago(u, n, now))
      case _ => None
  }

  // "3d"
  function ShortForm(head: string, now: Now): Target {
    var i := FirstIndex(head, IsNotDigit());
    if i == |head| then Unrecognised
    else
      match (ParseI64(head[..i]), UnitFrom(head[i..]))
      case (Some(n), Some(u)) => Ago(u, n, now)
      case _ => Unrecognised
  }

  function ParseRelative(expr: string, now: Now): Target {
    if !EndsWith(expr, "-ago") then Unrecognised
    else
      var head := expr[..|expr| - 4];
      match LongForm(head, now)
      case Some(t) => t
      case None => ShortForm(head, now)
  }

  // Digits alone are a number unless they overflow.
  predicate Numeral(ds: string) {
    ds != "" && forall i :: 0 <= i < |ds| ==> Stamps.IsDigit(ds[i])
  }

  lemma {:induction false} NumeralParses(ds: string)
    requires forall i :: 0 <= i < |ds| ==> Stamps.IsDigit(ds[i])
    ensures Stamps.ParseDigits(ds).Some?
  {
    if ds != "" {
      NumeralParses(ds[..|ds| - 1]);
    }
  }

  // Every unit is spelt in letters.
  lemma {:induction false} UnitsAreLetters(w: string)
    requires UnitFrom(w).Some?
    ensures w != "" && forall i :: 0 <= i < |w| ==> 'a' <= w[i] <= 'z'
  {
  }

  // What both spellings mean.
  function Meaning(ds: string, w: string, now: Now): Target
    requires UnitFrom(w).Some?
  {
    match ParseI64(ds)
    case None => Unrecognised
    case Some(n) => Ago(UnitFrom(w).value, n, now)
  }

  lemma {:induction false} ShortFormMeans(ds: string, w: string, now: Now)
    requires Numeral(ds) && UnitFrom(w).Some?
    ensures LongForm(ds + w, now).None? && ShortForm(ds + w, now) == Meaning(ds, w, now)
  {
    UnitsAreLetters(w);
    var head := ds + w;
    FirstIndexIs(head, IsDash(), |head|);
    FirstIndexIs(head, IsNotDigit(), |ds|);
    assert head[..|ds|] == ds && head[|ds|..] == w;
  }

  lemma {:induction false} LongFormMeans(ds: string, w: string, now: Now)
    requires Numeral(ds) && UnitFrom(w).Some?
    ensures var head := ds + "-" + w;
            (if LongForm(head, now).Some? then LongForm(head, now).value else ShortForm(head, now))
            == Meaning(ds, w, now)
  {
    var head := ds + "-" + w;
    FirstIndexIs(head, IsDash(), |ds|);
    FirstIndexIs(head, IsNotDigit(), |ds|);
    assert head[..|ds|] == ds && head[|ds| + 1..] == w;
  }

  /** "n-unit-ago" and "nunit-ago" resolve alike, for every numeral and every spelling
   *  of a unit, in range or not.
   */
  lemma {:induction false} FormsAgree(ds: string, w: string, now: Now)
    requires Numeral(ds) && UnitFrom(w).Some?
    ensures ParseRelative(ds + "-" + w + "-ago", now) == Meaning(ds, w, now)
    ensures ParseRelative(ds + w + "-ago", now) == Meaning(ds, w, now)
  {
    var long, short := ds + "-" + w, ds + w;
    assert (long + "-ago")[|long|..] == "-ago" && (long + "-ago")[..|long|] == long;
    assert (short + "-ago")[|short|..] == "-ago" && (short + "-ago")[..|short|] == short;
    LongFormMeans(ds, w, now);
    ShortFormMeans(ds, w, now);
  }

  /* ---- Weekdays ---- */

  function Weekday(day: int): nat {
    (day + 5) % 7
  }

  // The one day of the last seven, today excluded, that falls on the weekday.
  function MostRecentDay(weekday: nat, today: int): int {
    today - 1 - (Weekday(today) + 6 - weekday) % 7
  }

  lemma {:induction false} MostRecentDayIs(weekday: nat, today: int, day: int)
    requires weekday < 7
    ensures day == MostRecentDay(weekday, today) <==> today - 7 <= day < today && Weekday(day) == weekday
  {
  }

  method MostRecentPast(weekday: nat, today: int) returns (end: int)
    requires weekday < 7
    ensures end == EndOfDay(MostRecentDay(weekday, today))
  {
    var d := today;
    MostRecentDayIs(weekday, today, MostRecentDay(weekday, today));
    while true
      invariant MostRecentDay(weekday, today) < d <= today
      decreases d - MostRecentDay(weekday, today)
    {
      d := d - 1;
      if Weekday(d) == weekday {
        MostRecentDayIs(weekday, today, d);
        return EndOfDay(d);
      }
    }
  }

  /* ---- The whole grammar ---- */

  function ParseDate(s: string): Option<Date> {
    if |s| == 10 && s[4] == '-' && s[7] == '-' then
      match (Stamps.ParseDigits(s[..4]), Stamps.ParseDigits(s[5..7]), Stamps.ParseDigits(s[8..]))
      case (Some(y), Some(m), Some(d)) =>
        if 1 <= m <= 12 && 1 <= d <= Stamps.DaysIn(y, m) then Some(Date(12 * y + m - 1, d)) else None
      case _ => None
    else None
  }

  function Keyword(expr: string, now: Now): Option<Target> {
    var today := DayNumber(now.date);
    if expr == "now" || expr == "today" then Some(At(NowInstant(now)))
    else if expr == "yesterday" then Some(At(EndOfDay(today - 1)))
    else if expr == "last-week" then Some(At(EndOfDay(today - 7)))
    else if expr == "last-month" then Some(EndOfMonthsBack(now.date, 1))
    else if expr == "last-year" then Some(EndOfMonthsBack(now.date, 12))
    else None
  }

  function WeekdayTarget(s: string, now: Now): Target {
    match WeekdayFrom(s)
    case None => Unrecognised
    case Some(w) => At(EndOfDay(MostRecentDay(w, DayNumber(now.date))))
  }

  function LastOrBare(expr: string, now: Now): Target {
    if "last-" <= expr && WeekdayFrom(expr[5..]).Some? then WeekdayTarget(expr[5..], now)
    else WeekdayTarget(expr, now)
  }

  function ResolveTarget(expr: string, now: Now): Target {
    match (Stamps.Parse(expr), ParseDate(expr))
    case (Some(t), _) => At(Stamps.Instant(t))
    case (None, Some(d)) => At(EndOfDay(DayNumber(d)))
    case (None, None) =>
      match Keyword(expr, now)
      case Some(t) => t
      case None =>
        var t := ParseRelative(expr, now);
        if t != Unrecognised then t else LastOrBare(expr, now)
  }

  /* ---- No form takes another's expressions ---- */

  lemma {:induction false} NotAName(s: string)
    requires s != "" && !Stamps.IsDigit(s[|s| - 1])
    ensures Stamps.Parse(s).None? && ParseDate(s).None?
  {
    if |s| == 19 {
      assert s[17..][1] == s[18];
    } else if |s| == 10 {
      assert s[8..][1] == s[9];
    }
  }

  lemma {:induction false} LowerAt(s: string)
    ensures |Lower(s)| == |s|
    ensures forall i :: 0 <= i < |s| ==> Lower(s)[i] == LowerChar(s[i])
  {
    if s != "" {
      LowerAt(s[1..]);
    }
  }

  // Enough of a weekday's spelling to tell it from the other words.
  predicate WeekdayShape(w: string) {
    && |w| >= 3 && w[0] != 'n' && w[0] != 'y' && w[0] != 'a'
    && (w[0] == 't' ==> w[1] != 'o')
    && (w[0] == 'w' ==> w[2] == 'd')
    && (w[0] == 'm' && |w| > 3 ==> w[3] == 'd')
  }

  lemma {:induction false} LowerWeekdays(s: string)
    requires WeekdayFrom(s).Some?
    ensures WeekdayShape(Lower(s)) && forall i :: 0 <= i < |Lower(s)| ==> 'a' <= Lower(s)[i] <= 'z'
  {
  }

  lemma {:induction false} WeekdaysAreLetters(s: string)
    requires WeekdayFrom(s).Some?
    ensures |s| >= 3 && forall i :: 0 <= i < |s| ==> 'a' <= s[i] <= 'z' || 'A' <= s[i] <= 'Z'
  {
    LowerWeekdays(s);
    LowerAt(s);
    forall i | 0 <= i < |s| ensures 'a' <= s[i] <= 'z' || 'A' <= s[i] <= 'Z' {
      assert LowerChar(s[i]) == Lower(s)[i];
    }
  }

  // Lower-case words that are no weekday.
  lemma {:induction false} NoWeekday(s: string)
    requires |s| >= 3 && !WeekdayShape(s)
    requires forall i :: 0 <= i < |s| && i < 4 ==> 'a' <= s[i] <= 'z'
    ensures WeekdayFrom(s).None?
  {
    LowerAt(s);
    if WeekdayFrom(s).Some? {
      LowerWeekdays(s);
    }
  }

  lemma {:induction false} AfterLast(s: string)
    ensures ("last-" + s)[5..] == s && "last-" <= "last-" + s
    ensures "last-" + s == "last-week" ==> s == "week"
    ensures "last-" + s == "last-month" ==> s == "month"
    ensures "last-" + s == "last-year" ==> s == "year"
  {
    var e := "last-" + s;
    assert e[5..] == s;
    assert "last-week"[5..] == "week" && "last-month"[5..] == "month" && "last-year"[5..] == "year";
  }

  lemma {:induction false} OtherWords()
    ensures WeekdayFrom("now").None? && WeekdayFrom("today").None? && WeekdayFrom("yesterday").None?
  {
    NoWeekday("now");
    NoWeekday("today");
    NoWeekday("yesterday");
  }

  lemma {:induction false} OtherLastWords()
    ensures WeekdayFrom("week").None? && WeekdayFrom("month").None? && WeekdayFrom("year").None?
  {
    NoWeekday("week");
    NoWeekday("month");
    NoWeekday("year");
  }

  // A word without a dash that is no keyword by itself.
  lemma {:induction false} PlainWord(s: string, now: Now)
    requires '-' !in s && s != "now" && s != "today" && s != "yesterday"
    ensures Keyword(s, now).None?
  {
    assert "last-week"[4] == '-' && "last-month"[4] == '-' && "last-year"[4] == '-';
  }

  lemma {:induction false} WeekdayIsNoKeyword(s: string, now: Now)
    requires WeekdayFrom(s).Some?
    ensures Keyword(s, now).None?
  {
    WeekdaysAreLetters(s);
    OtherWords();
    PlainWord(s, now);
  }

  lemma {:induction false} LastWord(s: string, now: Now)
    requires s != "week" && s != "month" && s != "year"
    ensures Keyword("last-" + s, now).None?
  {
    AfterLast(s);
    assert ("last-" + s)[0] == 'l';
  }

  lemma {:induction false} LastWeekdayIsNoKeyword(s: string, now: Now)
    requires WeekdayFrom(s).Some?
    ensures Keyword("last-" + s, now).None?
  {
    OtherLastWords();
    LastWord(s, now);
  }

  lemma {:induction false} DashIsNoWeekday(s: string)
    requires '-' in s
    ensures WeekdayFrom(s).None?
  {
    if WeekdayFrom(s).Some? {
      WeekdaysAreLetters(s);
    }
  }

  lemma {:induction false} AgoTail(s: string)
    ensures EndsWith(s, "-ago") ==> s[|s| - 4] == '-' && s[|s| - 3..] == "ago"
  {
    if EndsWith(s, "-ago") {
      assert s[|s| - 4..][0] == '-' && s[|s| - 4..][1..] == "ago";
    }
  }

  lemma {:induction false} WeekdayIsNotRelative(s: string, now: Now)
    requires WeekdayFrom(s).Some?
    ensures ParseRelative(s, now) == Unrecognised && ParseRelative("last-" + s, now) == Unrecognised
  {
    WeekdaysAreLetters(s);
    LowerWeekdays(s);
    NoWeekday("ago");
    var e := "last-" + s;
    AgoTail(s);
    AgoTail(e);
    assert e[|e| - 3..] == s[|s| - 3..];
    assert s[|s| - 3..] == "ago" && |s| == 3 ==> s == "ago";
  }

  // A weekday is read as one, with "last-" or without.
  lemma {:induction false} WeekdayFallsThrough(x: string, now: Now)
    requires WeekdayFrom(x).Some?
    ensures ResolveTarget(x, now) == WeekdayTarget(x, now)
  {
    WeekdaysAreLetters(x);
    NotAName(x);
    WeekdayIsNoKeyword(x, now);
    WeekdayIsNotRelative(x, now);
    assert "last-"[4] == '-';
  }

  lemma {:induction false} LastFallsThrough(x: string, now: Now)
    requires WeekdayFrom(x).Some?
    ensures ResolveTarget("last-" + x, now) == WeekdayTarget(x, now)
  {
    WeekdaysAreLetters(x);
    NotAName("last-" + x);
    LastWeekdayIsNoKeyword(x, now);
    WeekdayIsNotRelative(x, now);
    AfterLast(x);
  }

  lemma {:induction false} BareWeekday(x: string, now: Now)
    requires WeekdayFrom(x).Some?
    ensures exists day :: ResolveTarget(x, now) == At(EndOfDay(day))
                          && DayNumber(now.date) - 7 <= day < DayNumber(now.date)
                          && Weekday(day) == WeekdayFrom(x).value
  {
    WeekdayFallsThrough(x, now);
    var today, w := DayNumber(now.date), WeekdayFrom(x).value;
    var day := MostRecentDay(w, today);
    MostRecentDayIs(w, today, day);
    assert ResolveTarget(x, now) == At(EndOfDay(day));
  }

  /** "last-X" is "X" for every spelling of a weekday: the end of the one matching
   *  day among the seven before today.
   */
  lemma {:induction false} LastIsBare(x: string, now: Now)
    requires WeekdayFrom(x).Some?
    ensures ResolveTarget("last-" + x, now) == ResolveTarget(x, now)
    ensures exists day :: ResolveTarget(x, now) == At(EndOfDay(day))
                          && DayNumber(now.date) - 7 <= day < DayNumber(now.date)
                          && Weekday(day) == WeekdayFrom(x).value
  {
    WeekdayFallsThrough(x, now);
    LastFallsThrough(x, now);
    BareWeekday(x, now);
  }

  lemma {:induction false} AgoIsNothingElse(head: string, now: Now)
    ensures var e := head + "-ago";
            && Stamps.Parse(e).None? && ParseDate(e).None? && Keyword(e, now).None?
            && LastOrBare(e, now) == Unrecognised
  {
    var e := head + "-ago";
    assert e[|e| - 1] == 'o' && e[|e| - 2] == 'g' && e[|head|] == '-';
    NotAName(e);
    DashIsNoWeekday(e);
    if "last-" <= e {
      if |e| - 5 >= 4 {
        assert e[5..][|e| - 9] == '-';
        DashIsNoWeekday(e[5..]);
      } else {
        assert e[4] == '-' && |e| - 4 < 5;
        assert |e| == 8 ==> e[5..] == "ago";
        NoWeekday("ago");
      }
    }
  }

  /** So both forms resolve to their meaning in the whole grammar. */
  lemma {:induction false} AgoResolves(ds: string, w: string, now: Now)
    requires Numeral(ds) && UnitFrom(w).Some?
    ensures ResolveTarget(ds + "-" + w + "-ago", now) == Meaning(ds, w, now)
    ensures ResolveTarget(ds + w + "-ago", now) == Meaning(ds, w, now)
  {
    FormsAgree(ds, w, now);
    AgoIsNothingElse(ds + "-" + w, now);
    AgoIsNothingElse(ds + w, now);
  }

  /** A snapshot's name resolves to its own instant, whatever the time is now. */
  lemma {:induction false} NameResolves(t: Stamps.DateTime, now: Now)
    requires Stamps.Valid(t)
    ensures ResolveTarget(Stamps.Format(t), now) == At(Stamps.Instant(t))
    ensures Stamps.Instant(t) == DayNumber(DateOf(t)) * 86400 + t.hour * 3600 + t.minute * 60 + t.second
  {
    Stamps.ParseUndoesFormat(t);
    SameCalendar(t);
  }

  /** "last-month" is one month ago and "last-year" is twelve. */
  lemma {:induction false} MonthWords(now: Now)
    ensures ResolveTarget("last-month", now) == Ago(Month, 1, now)
    ensures ResolveTarget("last-year", now) == Ago(Month, 12, now)
  {
    NotAName("last-month");
    NotAName("last-year");
  }
}
