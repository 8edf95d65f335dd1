/** Timestamps as text: formatted names sort as their instants do, and the three
 *  searches for "the newest snapshot at or before" agree.
 *
 *  Instants are naive local ones, years 0 to 9999.
 */
module Stamps {
  import opened Wrappers
  import opened Clock
  import Lex
  import Revert

  datatype DateTime = DateTime(year: nat, month: nat, day: nat, hour: nat, minute: nat, second: nat)

  /* ---- Calendar ---- */

  predicate IsLeap(year: int) {
    year % 4 == 0 && (year % 100 != 0 || year % 400 == 0)
  }

  function DaysIn(year: int, month: nat): nat {
    if month == 2 then (if IsLeap(year) then 29 else 28)
    else if month in {4, 6, 9, 11} then 30 else 31
  }

  predicate Valid(t: DateTime) {
    && t.year <= 9999
    && 1 <= t.month <= 12
    && 1 <= t.day <= DaysIn(t.year, t.month)
    && t.hour < 24 && t.minute < 60 && t.second < 60
  }

  function DaysBeforeMonth(year: nat, month: nat): nat {
    if month <= 1 then 0 else DaysBeforeMonth(year, month - 1) + DaysIn(year, month - 1)
  }

  function DaysBeforeYear(year: nat): nat {
    if year == 0 then 0 else DaysBeforeYear(year - 1) + DaysBeforeMonth(year - 1, 13)
  }

  // Seconds since the start of year 0.
  function Instant(t: DateTime): Stamp
    requires Valid(t)
  {
    (DaysBeforeYear(t.year) + DaysBeforeMonth(t.year, t.month) + t.day - 1) * 86400
    + t.hour * 3600 + t.minute * 60 + t.second
  }

  lemma {:induction false} MonthsAdd(year: nat, m: nat, m': nat)
    requires 1 <= m < m' <= 13
    ensures DaysBeforeMonth(year, m) + DaysIn(year, m) <= DaysBeforeMonth(year, m')
  {
    if m + 1 < m' {
      MonthsAdd(year, m, m' - 1);
    }
  }

  lemma {:induction false} YearsAdd(y: nat, y': nat)
    requires y < y'
    ensures DaysBeforeYear(y) + DaysBeforeMonth(y, 13) <= DaysBeforeYear(y')
  {
    if y + 1 < y' {
      YearsAdd(y, y' - 1);
    }
  }

  // Day of the calendar, then the time within it.
  function DayOf(t: DateTime): nat
    requires Valid(t)
  {
    DaysBeforeYear(t.year) + DaysBeforeMonth(t.year, t.month) + t.day - 1
  }

  predicate EarlierDay(a: DateTime, b: DateTime) {
    a.year < b.year || (a.year == b.year && (a.month < b.month || (a.month == b.month && a.day < b.day)))
  }

  predicate SameDay(a: DateTime, b: DateTime) {
    a.year == b.year && a.month == b.month && a.day == b.day
  }

  lemma {:induction false} EarlierDayIsSmaller(a: DateTime, b: DateTime)
    requires Valid(a) && Valid(b)
    requires EarlierDay(a, b)
    ensures DayOf(a) < DayOf(b)
  {
    MonthsAdd(a.year, a.month, 13);
    if a.year < b.year {
      YearsAdd(a.year, b.year);
    } else if a.month < b.month {
      MonthsAdd(a.year, a.month, b.month);
    }
  }

  predicate EarlierTime(a: DateTime, b: DateTime) {
    a.hour < b.hour || (a.hour == b.hour && (a.minute < b.minute || (a.minute == b.minute && a.second <= b.second)))
  }

  lemma {:induction false} InstantOrder(a: DateTime, b: DateTime)
    requires Valid(a) && Valid(b)
    ensures Instant(a) <= Instant(b) <==> EarlierDay(a, b) || (SameDay(a, b) && EarlierTime(a, b))
  {
    if EarlierDay(a, b) {
      EarlierDayIsSmaller(a, b);
    } else if EarlierDay(b, a) {
      EarlierDayIsSmaller(b, a);
    }
  }

  /* ---- Digits ---- */

  function Digit(n: nat): (c: char)
    requires n < 10
    ensures '0' <= c <= '9' && (c as int) - ('0' as int) == n
  {
    (n + '0' as int) as char
  }

  function Digits(n: nat, width: nat): (s: string)
    ensures |s| == width
  {
    if width == 0 then "" else Digits(n / 10, width - 1) + [Digit(n % 10)]
  }

  function Pow10(w: nat): (r: nat)
    ensures r > 0
  {
    if w == 0 then 1 else 10 * Pow10(w - 1)
  }

  predicate IsDigit(c: char) {
    '0' <= c <= '9'
  }

  function ParseDigits(s: string): (n: Option<nat>) {
    if s == "" then Some(0)
    else
      var k := |s| - 1;
      match ParseDigits(s[..k])
      case None => None
      case Some(n) => if IsDigit(s[k]) then Some(10 * n + (s[k] as int - '0' as int)) else None
  }

  lemma {:induction false} ParseOfDigits(n: nat, w: nat)
    requires n < Pow10(w)
    ensures ParseDigits(Digits(n, w)) == Some(n)
  {
    if w > 0 {
      ParseOfDigits(n / 10, w - 1);
      assert Digits(n, w)[..w - 1] == Digits(n / 10, w - 1);
    }
  }

  lemma {:induction false} DigitsOfParse(s: string)
    requires ParseDigits(s).Some?
    ensures Digits(ParseDigits(s).value, |s|) == s
    ensures ParseDigits(s).value < Pow10(|s|)
  {
    if s != "" {
      var k := |s| - 1;
      DigitsOfParse(s[..k]);
      var n, d := ParseDigits(s[..k]).value, s[k] as int - '0' as int;
      assert (10 * n + d) / 10 == n && (10 * n + d) % 10 == d;
      assert s == s[..k] + [s[k]];
    }
  }

  // Equal-width digit strings compare as their numbers, then what follows decides.
  lemma {:induction false} FieldOrder(m: nat, n: nat, w: nat, a: string, b: string)
    requires m < Pow10(w) && n < Pow10(w)
    ensures Lex.Le(Digits(m, w) + a, Digits(n, w) + b) <==> m < n || (m == n && Lex.Le(a, b))
    decreases w
  {
    if w == 0 {
      assert Digits(m, w) + a == a && Digits(n, w) + b == b;
    } else {
      var x, y := [Digit(m % 10)] + a, [Digit(n % 10)] + b;
      assert Digits(m, w) + a == Digits(m / 10, w - 1) + x;
      assert Digits(n, w) + b == Digits(n / 10, w - 1) + y;
      FieldOrder(m / 10, n / 10, w - 1, x, y);
      assert x[1..] == a && y[1..] == b;
    }
  }

  /* ---- Names ---- */

  function TimePart(t: DateTime): string {
    "T" + (Digits(t.hour, 2) + ("-" + (Digits(t.minute, 2) + ("-" + (Digits(t.second, 2) + "")))))
  }

  function Format(t: DateTime): string {
    Digits(t.year, 4) + ("-" + (Digits(t.month, 2) + ("-" + (Digits(t.day, 2) + TimePart(t)))))
  }

  // A name in the canonical zero-padded spelling of an existing date and time.
  function Parse(name: string): (t: Option<DateTime>)
    ensures t.Some? ==> Valid(t.value)
  {
    if |name| == 19 && name[4] == '-' && name[7] == '-' && name[10] == 'T' && name[13] == '-' && name[16] == '-' then
      match (ParseDigits(name[..4]), ParseDigits(name[5..7]), ParseDigits(name[8..10]),
             ParseDigits(name[11..13]), ParseDigits(name[14..16]), ParseDigits(name[17..]))
      case (Some(y), Some(mo), Some(d), Some(h), Some(mi), Some(s)) =>
        var t := DateTime(y, mo, d, h, mi, s);
        if Valid(t) then Some(t) else None
      case _ => None
    else None
  }

  lemma {:induction false} PowersOfTen()
    ensures Pow10(2) == 100 && Pow10(4) == 10000
  {
    assert Pow10(1) == 10;
    assert Pow10(3) == 10 * Pow10(2);
  }

  lemma {:induction false} TimeParts(t: DateTime)
    ensures var s := TimePart(t);
            && |s| == 9 && s[0] == 'T' && s[3] == '-' && s[6] == '-'
            && s[1..3] == Digits(t.hour, 2) && s[4..6] == Digits(t.minute, 2) && s[7..9] == Digits(t.second, 2)
  {
  }

  lemma {:induction false} DateParts(t: DateTime, rest: string)
    ensures var s := Digits(t.year, 4) + ("-" + (Digits(t.month, 2) + ("-" + (Digits(t.day, 2) + rest))));
            && |s| == 10 + |rest| && s[4] == '-' && s[7] == '-'
            && s[..4] == Digits(t.year, 4) && s[5..7] == Digits(t.month, 2) && s[8..10] == Digits(t.day, 2)
            && s[10..] == rest
  {
  }

  lemma {:induction false} FormatParts(t: DateTime)
    ensures var name := Format(t);
            && |name| == 19
            && name[4] == '-' && name[7] == '-' && name[10] == 'T' && name[13] == '-' && name[16] == '-'
            && name[..4] == Digits(t.year, 4) && name[5..7] == Digits(t.month, 2)
            && name[8..10] == Digits(t.day, 2) && name[11..13] == Digits(t.hour, 2)
            && name[14..16] == Digits(t.minute, 2) && name[17..] == Digits(t.second, 2)
  {
    var name, time := Format(t), TimePart(t);
    DateParts(t, time);
    TimeParts(t);
    assert name[10..] == time;
    assert name[11..13] == time[1..3] && name[14..16] == time[4..6] && name[17..] == time[7..9];
    assert name[10] == time[0] && name[13] == time[3] && name[16] == time[6];
  }

  lemma {:induction false} ParseUndoesFormat(t: DateTime)
    requires Valid(t)
    ensures Parse(Format(t)) == Some(t)
  {
    FormatParts(t);
    PowersOfTen();
    ParseOfDigits(t.year, 4);
    ParseOfDigits(t.month, 2);
    ParseOfDigits(t.day, 2);
    ParseOfDigits(t.hour, 2);
    ParseOfDigits(t.minute, 2);
    ParseOfDigits(t.second, 2);
  }

  lemma {:induction false} NameParts(name: string)
    requires |name| == 19
    requires name[4] == '-' && name[7] == '-' && name[10] == 'T' && name[13] == '-' && name[16] == '-'
    ensures name == name[..4] + ("-" + (name[5..7] + ("-" + (name[8..10] +
                    ("T" + (name[11..13] + ("-" + (name[14..16] + ("-" + (name[17..] + ""))))))))))
  {
  }

  lemma {:induction false} FormatUndoesParse(name: string)
    requires Parse(name).Some?
    ensures Format(Parse(name).value) == name
  {
    DigitsOfParse(name[..4]);
    DigitsOfParse(name[5..7]);
    DigitsOfParse(name[8..10]);
    DigitsOfParse(name[11..13]);
    DigitsOfParse(name[14..16]);
    DigitsOfParse(name[17..]);
    NameParts(name);
  }

  lemma {:induction false} TimePartOrder(a: DateTime, b: DateTime)
    requires Valid(a) && Valid(b)
    ensures Lex.Le(TimePart(a), TimePart(b)) <==> EarlierTime(a, b)
  {
    PowersOfTen();
    var sa, sb := Digits(a.second, 2) + "", Digits(b.second, 2) + "";
    FieldOrder(a.second, b.second, 2, "", "");
    Lex.CommonPrefix("-", sa, sb);
    FieldOrder(a.minute, b.minute, 2, "-" + sa, "-" + sb);
    var ma, mb := Digits(a.minute, 2) + ("-" + sa), Digits(b.minute, 2) + ("-" + sb);
    Lex.CommonPrefix("-", ma, mb);
    FieldOrder(a.hour, b.hour, 2, "-" + ma, "-" + mb);
    Lex.CommonPrefix("T", Digits(a.hour, 2) + ("-" + ma), Digits(b.hour, 2) + ("-" + mb));
  }

  /** Text order of formatted names is time order. */
  lemma {:induction false} TextOrderIsTimeOrder(a: DateTime, b: DateTime)
    requires Valid(a) && Valid(b)
    ensures Lex.Le(Format(a), Format(b)) <==> Instant(a) <= Instant(b)
  {
    PowersOfTen();
    InstantOrder(a, b);
    TimePartOrder(a, b);
    var da, db := Digits(a.day, 2) + TimePart(a), Digits(b.day, 2) + TimePart(b);
    FieldOrder(a.day, b.day, 2, TimePart(a), TimePart(b));
    Lex.CommonPrefix("-", da, db);
    FieldOrder(a.month, b.month, 2, "-" + da, "-" + db);
    var ma, mb := Digits(a.month, 2) + ("-" + da), Digits(b.month, 2) + ("-" + db);
    Lex.CommonPrefix("-", ma, mb);
    FieldOrder(a.year, b.year, 4, "-" + ma, "-" + mb);
  }

  /* ---- find_nearest: parses names and compares instants ---- */

  // The date parser reads canonical names as they are meant, and may read others,
  // such as names without padding.
  type Reader = string -> Option<Stamp>

  ghost predicate ReadsCanonical(read: Reader) {
    forall n {:trigger Parse(n)} :: Parse(n).Some? ==> read(n) == Some(Instant(Parse(n).value))
  }

  predicate AtOrBefore(read: Reader, name: string, target: DateTime)
    requires Valid(target)
  {
    read(name).Some? && read(name).value <= Instant(target)
  }

  // names[i] would be taken before w: it is later, or as late and listed first.
  predicate Outdoes(read: Reader, names: seq<string>, target: DateTime, i: nat, w: string)
    requires Valid(target) && i < |names|
  {
    && AtOrBefore(read, names[i], target)
    && (AtOrBefore(read, w, target) ==>
          read(names[i]).value > read(w).value || (read(names[i]) == read(w) && w !in names[..i + 1]))
  }

  // The first of the newest names that can be read, at or before the target.
  ghost predicate IsNearest(read: Reader, names: seq<string>, target: DateTime, found: Option<string>)
    requires Valid(target)
  {
    match found
    case None => forall n :: n in names ==> !AtOrBefore(read, n, target)
    case Some(best) =>
      && best in names && AtOrBefore(read, best, target)
      && forall i :: 0 <= i < |names| ==> !Outdoes(read, names, target, i, best)
  }

  lemma {:induction false} NearestSnoc(read: Reader, names: seq<string>, target: DateTime, best: Option<string>,
                                       name: string)
    requires Valid(target) && IsNearest(read, names, target, best)
    ensures var takes := AtOrBefore(read, name, target) && (best.None? || read(name).value > read(best.value).value);
            IsNearest(read, names + [name], target, if takes then Some(name) else best)
  {
    var all := names + [name];
    var takes := AtOrBefore(read, name, target) && (best.None? || read(name).value > read(best.value).value);
    forall i | 0 <= i < |names| ensures all[i] == names[i] && all[..i + 1] == names[..i + 1] {
    }
    if takes {
      forall i | 0 <= i < |all| ensures !Outdoes(read, all, target, i, name) {
        if i < |names| {
          assert best.Some? ==> !Outdoes(read, names, target, i, best.value);
          assert names[i] in names;
        } else {
          assert all[i] in all[..i + 1];
        }
      }
    } else if best.Some? {
      forall i | 0 <= i < |all| ensures !Outdoes(read, all, target, i, best.value) {
        if i < |names| {
          assert !Outdoes(read, names, target, i, best.value);
        } else {
          assert all[..i + 1] == all;
        }
      }
    }
  }

  method FindNearest(read: Reader, names: seq<string>, target: DateTime) returns (best: Option<string>)
    requires Valid(target)
    ensures IsNearest(read, names, target, best)
    ensures best == None ==> forall n :: n in names && read(n).Some? ==> read(n).value > Instant(target)
    ensures best.Some? ==>
              && best.value in names && read(best.value).Some? && read(best.value).value <= Instant(target)
              && forall n :: n in names && read(n).Some? && read(n).value <= Instant(target) ==>
                   read(n).value <= read(best.value).value
  {
    best := None;
    for i := 0 to |names|
      invariant IsNearest(read, names[..i], target, best)
    {
      var name := names[i];
      NearestSnoc(read, names[..i], target, best, name);
      assert names[..i + 1] == names[..i] + [name];
      if AtOrBefore(read, name, target) && (best.None? || read(name).value > read(best.value).value) {
        best := Some(name);
      }
    }
    assert names[..|names|] == names;
    NearestIsNewest(read, names, target, best);
  }

  lemma {:induction false} NearestIsNewest(read: Reader, names: seq<string>, target: DateTime, best: Option<string>)
    requires Valid(target) && IsNearest(read, names, target, best)
    ensures best == None ==> forall n :: n in names && read(n).Some? ==> read(n).value > Instant(target)
    ensures best.Some? ==>
              && best.value in names && read(best.value).Some? && read(best.value).value <= Instant(target)
              && forall n :: n in names && read(n).Some? && read(n).value <= Instant(target) ==>
                   read(n).value <= read(best.value).value
  {
    forall n | n in names && read(n).Some? && read(n).value <= Instant(target)
      ensures best.Some? && read(n).value <= read(best.value).value
    {
      assert AtOrBefore(read, n, target);
      var i :| 0 <= i < |names| && names[i] == n;
      assert !Outdoes(read, names, target, i, best.value);
    }
  }

  /* ---- bracket: sorts names and scans ---- */

  function InsertName(sorted: seq<string>, n: string): seq<string> {
    if sorted == [] || Lex.Le(n, sorted[0]) then [n] + sorted else [sorted[0]] + InsertName(sorted[1..], n)
  }

  function SortNames(names: seq<string>): seq<string> {
    if names == [] then [] else InsertName(SortNames(names[1..]), names[0])
  }

  ghost predicate Ascending(s: seq<string>) {
    forall i, j :: 0 <= i <= j < |s| ==> Lex.Le(s[i], s[j])
  }

  lemma {:induction false} InsertNameSorts(sorted: seq<string>, n: string)
    requires Ascending(sorted)
    ensures Ascending(InsertName(sorted, n))
    ensures forall x :: x in InsertName(sorted, n) <==> x in sorted || x == n
  {
    Lex.Refl(n);
    if sorted != [] {
      Lex.Total(n, sorted[0]);
      if Lex.Le(n, sorted[0]) {
        forall j | 0 <= j < |sorted| ensures Lex.Le(n, sorted[j]) {
          Lex.Transitive(n, sorted[0], sorted[j]);
        }
      } else {
        var rest := sorted[1..];
        InsertNameSorts(rest, n);
        var ins := InsertName(rest, n);
        forall j | 0 <= j < |ins| ensures Lex.Le(sorted[0], ins[j]) {
          assert ins[j] in ins;
          if ins[j] in rest {
            var k :| 0 <= k < |rest| && rest[k] == ins[j];
            assert Lex.Le(sorted[0], sorted[k + 1]);
          }
        }
        Lex.Refl(sorted[0]);
      }
    }
  }

  lemma {:induction false} SortNamesSorts(names: seq<string>)
    ensures Ascending(SortNames(names))
    ensures forall x :: x in SortNames(names) <==> x in names
  {
    if names != [] {
      SortNamesSorts(names[1..]);
      InsertNameSorts(SortNames(names[1..]), names[0]);
    }
  }

  // The least name after ts.
  ghost predicate IsNext(names: seq<string>, ts: string, found: Option<string>) {
    match found
    case None => forall n :: n in names ==> Lex.Le(n, ts)
    case Some(next) =>
      next in names && !Lex.Le(next, ts) && forall n :: n in names && !Lex.Le(n, ts) ==> Lex.Le(next, n)
  }

  method Bracket(names: seq<string>, ts: string) returns (before: Option<string>, after: Option<string>)
    ensures before == Revert.SnapshotBefore(names, ts)
    ensures IsNext(names, ts, after)
  {
    var sorted := SortNames(names);
    SortNamesSorts(names);
    before, after := None, None;
    var i := |sorted|;
    while i > 0 && !Lex.Le(sorted[i - 1], ts)
      invariant 0 <= i <= |sorted|
      invariant forall k :: i <= k < |sorted| ==> !Lex.Le(sorted[k], ts)
    {
      i := i - 1;
    }
    if i > 0 {
      before := Some(sorted[i - 1]);
    }
    NewestIsLast(names, sorted, ts, i);
    var j := 0;
    while j < |sorted| && Lex.Le(sorted[j], ts)
      invariant 0 <= j <= |sorted|
      invariant forall k :: 0 <= k < j ==> Lex.Le(sorted[k], ts)
    {
      j := j + 1;
    }
    if j < |sorted| {
      after := Some(sorted[j]);
      assert sorted[j] in names;
    }
    forall n | n in names && !Lex.Le(n, ts) ensures after.Some? && Lex.Le(after.value, n) {
      assert n in sorted;
      var k :| 0 <= k < |sorted| && sorted[k] == n;
    }
  }

  lemma {:induction false} NewestIsLast(names: seq<string>, sorted: seq<string>, ts: string, i: nat)
    requires Ascending(sorted) && forall x :: x in sorted <==> x in names
    requires i <= |sorted| && (i > 0 ==> Lex.Le(sorted[i - 1], ts))
    requires forall k :: i <= k < |sorted| ==> !Lex.Le(sorted[k], ts)
    ensures Revert.SnapshotBefore(names, ts) == if i > 0 then Some(sorted[i - 1]) else None
  {
    var best := Revert.SnapshotBefore(names, ts);
    assert i > 0 ==> sorted[i - 1] in names;
    if best.Some? {
      assert best.value in sorted;
      var k :| 0 <= k < |sorted| && sorted[k] == best.value;
      assert k <= i - 1;
      Lex.Antisymmetric(best.value, sorted[i - 1]);
    }
  }

  /* ---- The agreement ---- */

  /** For every reader, the names that formatting their time gives back are exactly
   *  the canonical ones.
   */
  lemma {:induction false} FormatUndoesRead(read: Reader, name: string, t: DateTime)
    requires ReadsCanonical(read) && Valid(t) && read(name) == Some(Instant(t))
    ensures Format(t) == name <==> Parse(name).Some?
  {
    ParseUndoesFormat(t);
    if Parse(name).Some? {
      FormatUndoesParse(name);
      InstantOrder(t, Parse(name).value);
      InstantOrder(Parse(name).value, t);
    }
  }

  // Read as a time, but not in the canonical spelling.
  predicate Odd(read: Reader, name: string) {
    read(name).Some? && Parse(name).None?
  }

  // A canonical name is at or before the target as text exactly when it is in time.
  lemma {:induction false} CanonicalOrder(read: Reader, n: string, target: DateTime)
    requires Valid(target) && ReadsCanonical(read) && Parse(n).Some?
    ensures AtOrBefore(read, n, target) <==> Lex.Le(n, Format(target))
  {
    FormatUndoesParse(n);
    TextOrderIsTimeOrder(Parse(n).value, target);
  }

  lemma {:induction false} CanonicalText(read: Reader, m: string, n: string)
    requires ReadsCanonical(read) && Parse(m).Some? && Parse(n).Some?
    ensures Lex.Le(m, n) <==> read(m).value <= read(n).value
    ensures read(m) == read(n) ==> m == n
  {
    FormatUndoesParse(m);
    FormatUndoesParse(n);
    TextOrderIsTimeOrder(Parse(m).value, Parse(n).value);
    TextOrderIsTimeOrder(Parse(n).value, Parse(m).value);
    if read(m) == read(n) {
      Lex.Antisymmetric(m, n);
    }
  }

  // No canonical name outdoes a canonical winner of the text search.
  lemma {:induction false} CanonicalNeverOutdoes(read: Reader, names: seq<string>, target: DateTime, i: nat, w: string)
    requires Valid(target) && ReadsCanonical(read) && i < |names|
    requires Revert.SnapshotBefore(names, Format(target)) == Some(w) && Parse(w).Some?
    requires Parse(names[i]).Some?
    ensures !Outdoes(read, names, target, i, w)
  {
    CanonicalOrder(read, w, target);
    CanonicalOrder(read, names[i], target);
    assert names[i] in names && names[i] in names[..i + 1];
    if AtOrBefore(read, names[i], target) {
      CanonicalText(read, names[i], w);
    }
  }

  // The nearest is the given name exactly when nothing outdoes it.
  lemma {:induction false} NearestIsWinner(read: Reader, names: seq<string>, target: DateTime,
                                           nearest: Option<string>, w: string)
    requires Valid(target) && IsNearest(read, names, target, nearest) && w in names
    ensures nearest == Some(w) <==>
            AtOrBefore(read, w, target) && forall i :: 0 <= i < |names| ==> !Outdoes(read, names, target, i, w)
  {
    if nearest.Some? && nearest != Some(w) && AtOrBefore(read, w, target) {
      var best := nearest.value;
      var i :| 0 <= i < |names| && names[i] == best && best !in names[..i] by {
        FirstOccurrence(names, best);
      }
      var j :| 0 <= j < |names| && names[j] == w && w !in names[..j] by {
        FirstOccurrence(names, w);
      }
      assert !Outdoes(read, names, target, j, best);
      assert names[..i + 1] == names[..i] + [best] && names[..j + 1] == names[..j] + [w];
      if w in names[..i + 1] {
        assert j <= i;
      }
      assert Outdoes(read, names, target, i, w);
    }
  }

  lemma {:induction false} FirstOccurrence(names: seq<string>, n: string)
    requires n in names
    ensures exists i :: 0 <= i < |names| && names[i] == n && n !in names[..i]
  {
    if names[0] == n {
      assert names[..0] == [];
    } else {
      FirstOccurrence(names[1..], n);
      var i :| 0 <= i < |names[1..]| && names[1..][i] == n && n !in names[1..][..i];
      assert names[..i + 1] == [names[0]] + names[1..][..i];
      assert names[i + 1] == n;
    }
  }

  /** When find_nearest and snapshot_before name the same snapshot, for every directory
   *  listing and every reader.  A text winner in the canonical spelling, or none, is
   *  shared exactly when no odd name outdoes it; a winner the reader cannot read never
   *  is; a winner with an odd spelling is when nothing at all outdoes it.
   */
  lemma {:induction false} SearchesAgree(read: Reader, names: seq<string>, target: DateTime, nearest: Option<string>)
    requires Valid(target) && ReadsCanonical(read) && IsNearest(read, names, target, nearest)
    ensures match Revert.SnapshotBefore(names, Format(target))
            case None =>
              nearest == None <==> forall n :: n in names && Odd(read, n) ==> !AtOrBefore(read, n, target)
            case Some(w) =>
              nearest == Some(w) <==>
              && AtOrBefore(read, w, target)
              && forall i :: 0 <= i < |names| && (Parse(w).Some? ==> Odd(read, names[i])) ==>
                   !Outdoes(read, names, target, i, w)
    ensures var w := Revert.SnapshotBefore(names, Format(target));
            w.Some? && Parse(w.value).Some? ==> AtOrBefore(read, w.value, target)
  {
    match Revert.SnapshotBefore(names, Format(target)) {
      case None =>
        forall n | n in names && Parse(n).Some? ensures !AtOrBefore(read, n, target) {
          CanonicalOrder(read, n, target);
        }
      case Some(w) =>
        NearestIsWinner(read, names, target, nearest, w);
        if Parse(w).Some? {
          CanonicalOrder(read, w, target);
          forall i | 0 <= i < |names| && !Odd(read, names[i]) ensures !Outdoes(read, names, target, i, w) {
            if Parse(names[i]).Some? {
              CanonicalNeverOutdoes(read, names, target, i, w);
            }
          }
        }
    }
  }

  /** So without odd names they agree exactly when the text winner, if there is one, is
   *  a timestamp.
   */
  lemma {:induction false} SearchesAgreeWithoutOddNames(read: Reader, names: seq<string>, target: DateTime,
                                                        nearest: Option<string>)
    requires Valid(target) && ReadsCanonical(read) && IsNearest(read, names, target, nearest)
    requires forall n :: n in names ==> !Odd(read, n)
    ensures var before := Revert.SnapshotBefore(names, Format(target));
            nearest == before <==> before.None? || Parse(before.value).Some?
  {
    SearchesAgree(read, names, target, nearest);
    assert forall i :: 0 <= i < |names| ==> !Odd(read, names[i]);
  }

  // When every directory has a canonical name, they always agree.
  lemma {:induction false} TimestampsAgree(read: Reader, names: seq<string>, target: DateTime, nearest: Option<string>)
    requires Valid(target) && ReadsCanonical(read) && IsNearest(read, names, target, nearest)
    requires forall n :: n in names ==> Parse(n).Some?
    ensures nearest == Revert.SnapshotBefore(names, Format(target))
  {
    SearchesAgreeWithoutOddNames(read, names, target, nearest);
  }

  // They do disagree: a directory named by a day alone, which no reader takes for a
  // time, is found by the text search at every time of that day.
  lemma {:induction false} DayDirectoryDividesThem(read: Reader, target: DateTime, nearest: Option<string>)
    requires Valid(target) && read(Format(target)[..10]).None?
    requires IsNearest(read, [Format(target)[..10]], target, nearest)
    ensures Revert.SnapshotBefore([Format(target)[..10]], Format(target)) == Some(Format(target)[..10])
    ensures nearest == None
  {
    var name := Format(target);
    var day := name[..10];
    assert name == day + name[10..] && day == day + "";
    Lex.CommonPrefix(day, "", name[10..]);
    assert day in [day];
  }

  // New Year without padding.
  function UnpaddedNewYear(year: nat): string {
    Digits(year, 4) + "-1-1T00-00-00"
  }

  lemma {:induction false} UnpaddedSortsLate(year: nat, target: DateTime)
    requires Valid(target) && target.year == year && target.month < 10
    ensures !Lex.Le(UnpaddedNewYear(year), Format(target))
  {
    var y, m := Digits(year, 4), Digits(target.month, 2);
    var rest := m + ("-" + (Digits(target.day, 2) + TimePart(target)));
    assert Format(target) == y + ("-" + rest);
    Lex.CommonPrefix(y, "-1-1T00-00-00", "-" + rest);
    Lex.CommonPrefix("-", "1-1T00-00-00", rest);
    assert "-" + "1-1T00-00-00" == "-1-1T00-00-00";
    assert m == Digits(target.month / 10, 1) + [Digit(target.month % 10)];
    assert Digits(target.month / 10, 1) == Digits(0, 0) + [Digit(0)];
    assert rest[0] == '0' && "1-1T00-00-00"[0] == '1';
  }

  // And so does an unpadded name that the reader does read: until October it sorts
  // after the whole year, and the text search settles for the year before.
  lemma {:induction false} UnpaddedNameDividesThem(read: Reader, target: DateTime, d: DateTime)
    requires Valid(target) && Valid(d) && ReadsCanonical(read) && target.month < 10 && d.year < target.year
    requires read(UnpaddedNewYear(target.year)) == Some(Instant(DateTime(target.year, 1, 1, 0, 0, 0)))
    ensures var odd := UnpaddedNewYear(target.year);
            && Revert.SnapshotBefore([odd, Format(d)], Format(target)) == Some(Format(d))
            && forall nearest :: IsNearest(read, [odd, Format(d)], target, nearest) ==> nearest == Some(odd)
  {
    var odd, start := UnpaddedNewYear(target.year), DateTime(target.year, 1, 1, 0, 0, 0);
    var names := [odd, Format(d)];
    UnpaddedSortsLate(target.year, target);
    ParseUndoesFormat(d);
    InstantOrder(d, target);
    InstantOrder(start, target);
    InstantOrder(start, d);
    TextOrderIsTimeOrder(d, target);
    assert Format(d) in names && odd in names;
    assert AtOrBefore(read, odd, target) && read(odd).value > read(Format(d)).value;
    assert names[0] == odd;
    assert Outdoes(read, names, target, 0, Format(d));
  }
}
