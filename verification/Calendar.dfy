/** The publication time an index version encodes, and the calendar arithmetic that makes it comparable. */
module Calendar {
  import opened Wrappers
  import opened Text
  import opened Catalog

  const DAY := 86_400

  predicate Leap(year: int) {
    (year % 4 == 0 && year % 100 != 0) || year % 400 == 0
  }

  /** None for a number that is no month. */
  function DaysInMonth(year: int, month: int): (r: Option<int>)
    ensures r.Some? <==> 1 <= month <= 12
    ensures r.Some? ==> 28 <= r.value <= 31
  {
    if month in {1, 3, 5, 7, 8, 10, 12} then Some(31)
    else if month in {4, 6, 9, 11} then Some(30)
    else if month == 2 then Some(if Leap(year) then 29 else 28)
    else None
  }

  /** Negative before the epoch; no calendar reform, so every date has its number. */
  function DaysFromCivil(year: int, month: int, day: int): int {
    var y := if month <= 2 then year - 1 else year;
    var era := y / 400;
    var yearOfEra := y - era * 400;
    var dayOfYear := (153 * ((month + 9) % 12) + 2) / 5 + day - 1;
    era * 146_097 + (yearOfEra * 365 + yearOfEra / 4 - yearOfEra / 100 + dayOfYear) - 719_468
  }

  // ---- counting days one by one ----

  datatype Date = Date(year: int, month: int, day: int)

  predicate IsDate(d: Date) {
    var days := DaysInMonth(d.year, d.month);
    days.Some? && 1 <= d.day <= days.value
  }

  function Days(d: Date): int {
    DaysFromCivil(d.year, d.month, d.day)
  }

  function NextDay(d: Date): (r: Date)
    requires IsDate(d)
    ensures IsDate(r)
  {
    if d.day < DaysInMonth(d.year, d.month).value then d.(day := d.day + 1)
    else if d.month < 12 then Date(d.year, d.month + 1, 1)
    else Date(d.year + 1, 1, 1)
  }

  /** The date `n` days after the first of January 1970. */
  function After1970(n: nat): (r: Date)
    ensures IsDate(r)
  {
    if n == 0 then Date(1970, 1, 1) else NextDay(After1970(n - 1))
  }

  predicate Earlier(a: Date, b: Date) {
    a.year < b.year || (a.year == b.year && (a.month < b.month || (a.month == b.month && a.day < b.day)))
  }

  /** The days of the 400-year cycle before the March that starts a year. */
  function YearPart(y: int): int {
    365 * y + y / 4 - y / 100 + y / 400
  }

  lemma YearPartIsExact(y: int)
    ensures var era, yearOfEra := y / 400, y - y / 400 * 400;
            era * 146_097 + yearOfEra * 365 + yearOfEra / 4 - yearOfEra / 100 == YearPart(y)
  {
    var era, e := y / 400, y % 400;
    assert y == 400 * era + e;
    assert y / 4 == 100 * era + e / 4;
    assert y / 100 == 4 * era + e / 100;
  }

  lemma YearPartStep(y: int)
    ensures YearPart(y) - YearPart(y - 1) == if Leap(y) then 366 else 365
  {
    assert y / 4 - (y - 1) / 4 == if y % 4 == 0 then 1 else 0;
    assert y / 100 - (y - 1) / 100 == if y % 100 == 0 then 1 else 0;
    assert y / 400 - (y - 1) / 400 == if y % 400 == 0 then 1 else 0;
  }

  /** The days of a year from March on that come before a month. */
  function MonthPart(month: int): int {
    (153 * ((month + 9) % 12) + 2) / 5
  }

  lemma MonthParts()
    ensures MonthPart(3) == 0 && MonthPart(4) == 31 && MonthPart(5) == 61 && MonthPart(6) == 92 && MonthPart(7) == 122
    ensures MonthPart(8) == 153 && MonthPart(9) == 184 && MonthPart(10) == 214 && MonthPart(11) == 245 && MonthPart(12) == 275
    ensures MonthPart(1) == 306 && MonthPart(2) == 337
  {
  }

  lemma DaysByParts(d: Date)
    requires IsDate(d)
    ensures Days(d) == YearPart(if d.month <= 2 then d.year - 1 else d.year) + MonthPart(d.month) + d.day - 1 - 719_468
  {
    YearPartIsExact(if d.month <= 2 then d.year - 1 else d.year);
  }

  /** The day after is one more, across the end of a month, a year, a century and a 400-year cycle. */
  lemma SuccessorCounts(d: Date)
    requires IsDate(d)
    ensures Days(NextDay(d)) == Days(d) + 1
  {
    DaysByParts(d);
    DaysByParts(NextDay(d));
    YearPartStep(d.year);
    MonthParts();
    hide DaysFromCivil, YearPart, MonthPart, Days, Leap;
  }

  /** The formula is the count of days since 1970-01-01. */
  lemma {:induction false} CountedOneByOne(n: nat)
    ensures Days(After1970(n)) == n
  {
    if n > 0 {
      CountedOneByOne(n - 1);
      SuccessorCounts(After1970(n - 1));
    }
  }

  lemma MonthStart(year: int, month: int)
    requires 1 <= month <= 12
    ensures Days(Date(year, month, 1)) < Days(if month < 12 then Date(year, month + 1, 1) else Date(year + 1, 1, 1))
  {
    var last := Date(year, month, DaysInMonth(year, month).value);
    SuccessorCounts(last);
    SameMonth(Date(year, month, 1), last);
    hide DaysFromCivil;
  }

  lemma SameMonth(a: Date, b: Date)
    requires a.year == b.year && a.month == b.month
    ensures Days(b) - Days(a) == b.day - a.day
  {
  }

  /** From the first of one month to the first of a later one. */
  lemma {:induction false} FirstsAscend(y1: int, m1: int, y2: int, m2: int)
    requires 1 <= m1 <= 12 && 1 <= m2 <= 12 && (y1 < y2 || (y1 == y2 && m1 < m2))
    ensures Days(Date(y1, m1, 1)) < Days(Date(y2, m2, 1))
    decreases (y2 - y1) * 12 + m2 - m1
  {
    MonthStart(y1, m1);
    hide DaysFromCivil, Days;
    var y, m := if m1 < 12 then y1 else y1 + 1, if m1 < 12 then m1 + 1 else 1;
    if y != y2 || m != m2 {
      FirstsAscend(y, m, y2, m2);
    }
  }

  /** A later date has the greater count, and only a later one. */
  lemma DaysAscend(a: Date, b: Date)
    requires IsDate(a) && IsDate(b)
    ensures Earlier(a, b) <==> Days(a) < Days(b)
  {
    if Earlier(a, b) {
      EarlierIsLess(a, b);
    } else if Earlier(b, a) {
      EarlierIsLess(b, a);
    } else {
      assert a == b;
    }
  }

  lemma EarlierIsLess(a: Date, b: Date)
    requires IsDate(a) && IsDate(b) && Earlier(a, b)
    ensures Days(a) < Days(b)
  {
    var end := Date(a.year, a.month, DaysInMonth(a.year, a.month).value);
    var start := Date(b.year, b.month, 1);
    if a.year == b.year && a.month == b.month {
      SameMonth(a, b);
      return;
    }
    SameMonth(a, end);
    SameMonth(start, b);
    SuccessorCounts(end);
    var next := NextDay(end);
    hide DaysFromCivil, Days;
    if next != start {
      FirstsAscend(next.year, next.month, b.year, b.month);
    }
  }

  /** Every date from 1970 on is reached by counting: its number is how many days it takes. */
  lemma EveryDateIsCounted(d: Date)
    requires IsDate(d) && d.year >= 1970
    ensures Days(d) >= 0 && After1970(Days(d)) == d
  {
    var epoch := Date(1970, 1, 1);
    assert Days(epoch) == 0;
    DaysAscend(d, epoch);
    var n := Days(d);
    CountedOneByOne(n);
    DaysAscend(d, After1970(n));
    DaysAscend(After1970(n), d);
    hide Days, DaysFromCivil;
  }

  // ---- the version as a time ----

  predicate IsPart(part: string) {
    1 <= |part| <= 5 && AllDigits(part)
  }

  function Numbers(parts: seq<string>): (r: Option<seq<nat>>)
    ensures r.Some? ==> |r.value| == |parts|
    ensures r.Some? <==> forall part <- parts :: IsPart(part)
  {
    if parts == [] then Some([])
    else
      var tail := Numbers(parts[1..]);
      if !IsPart(parts[0]) || tail.None? then None else Some([DecimalValue(parts[0])] + tail.value)
  }

  /** What a version stands for: a date, an hour and a minute. */
  datatype Moment = Moment(date: Date, hour: nat, minute: nat)

  function MomentOf(version: string): (r: Option<Moment>)
    ensures r.Some? ==> IsDate(r.value.date) && 2000 <= r.value.date.year <= 9999 && r.value.hour <= 23 && r.value.minute <= 59
  {
    var numbers := Numbers(Split(version, '.'));
    if numbers.None? || |numbers.value| != 4 then None
    else
      var year, monthDay, hourMinute := numbers.value[0], numbers.value[1], numbers.value[2];
      var date := Date(year, monthDay / 100, monthDay % 100);
      if !IsDate(date) || !(2000 <= year <= 9999) || hourMinute / 100 > 23 || hourMinute % 100 > 59 then None
      else Some(Moment(date, hourMinute / 100, hourMinute % 100))
  }

  function Seconds(m: Moment): int {
    Days(m.date) * DAY + m.hour * 3600 + m.minute * 60
  }

  function PublishedAt(version: string): Option<int> {
    var moment := MomentOf(version);
    if moment.None? then None else Some(Seconds(moment.value))
  }

  /** Refused as stale only with a time to compare; a version that encodes none gives no grounds. */
  function CheckFresh(publishedAt: Option<int>, notBefore: int): Option<Reason> {
    if publishedAt.Some? && publishedAt.value < notBefore then Some(CatalogIndexStale) else None
  }

  /** The order of the numbers of two versions: the first, then the second, then the third. */
  predicate NumbersBefore(a: seq<nat>, b: seq<nat>)
    requires |a| == 4 && |b| == 4
  {
    a[0] < b[0] || (a[0] == b[0] && (a[1] < b[1] || (a[1] == b[1] && a[2] < b[2])))
  }

  /** Publication times are ordered exactly as the numbers of the versions are. */
  lemma PublishedAscends(a: string, b: string)
    requires PublishedAt(a).Some? && PublishedAt(b).Some?
    ensures var x, y := Numbers(Split(a, '.')).value, Numbers(Split(b, '.')).value;
            && |x| == 4 && |y| == 4
            && (NumbersBefore(x, y) <==> PublishedAt(a).value < PublishedAt(b).value)
  {
    hide Days, Split, Numbers;
    var p, q := MomentOf(a).value, MomentOf(b).value;
    DaysAscend(p.date, q.date);
    DaysAscend(q.date, p.date);
    var x, y := Numbers(Split(a, '.')).value, Numbers(Split(b, '.')).value;
    Hundreds(x[1], y[1]);
    Hundreds(x[2], y[2]);
    hide MomentOf;
    assert p.hour * 3600 + p.minute * 60 < DAY && q.hour * 3600 + q.minute * 60 < DAY;
  }

  lemma Hundreds(m: nat, n: nat)
    ensures m < n <==> m / 100 < n / 100 || (m / 100 == n / 100 && m % 100 < n % 100)
  {
  }

  /** No bound refuses the later of two timed indexes and accepts the earlier. */
  lemma FreshnessIsMonotone(earlier: string, later: string, notBefore: int)
    requires PublishedAt(earlier).Some? && PublishedAt(later).Some?
    requires !NumbersBefore(Numbers(Split(later, '.')).value, Numbers(Split(earlier, '.')).value)
    requires CheckFresh(PublishedAt(earlier), notBefore) == None
    ensures CheckFresh(PublishedAt(later), notBefore) == None
  {
    PublishedAscends(later, earlier);
  }

  // ---- the version a publisher writes ----

  /** The last `k` decimal digits of `n`, leading zeros included. */
  function Padded(n: nat, k: nat): (r: string)
    ensures |r| == k && AllDigits(r)
  {
    if k == 0 then "" else Padded(n / 10, k - 1) + [Digit(n % 10)]
  }

  function Ten(k: nat): nat {
    if k == 0 then 1 else 10 * Ten(k - 1)
  }

  lemma {:induction false} PaddedValue(n: nat, k: nat)
    requires n < Ten(k)
    ensures DecimalValue(Padded(n, k)) == n
  {
    if k > 0 {
      PaddedValue(n / 10, k - 1);
      assert Padded(n, k)[..k - 1] == Padded(n / 10, k - 1);
    }
  }

  function Stamp(m: Moment, revision: string): string
    requires m.date.year >= 0 && m.date.month >= 0 && m.date.day >= 0
  {
    Join([Padded(m.date.year, 4), Padded(m.date.month * 100 + m.date.day, 4), Padded(m.hour * 100 + m.minute, 4), revision], '.')
  }

  lemma StampNumbers(m: Moment, revision: string)
    requires 0 <= m.date.year <= 9999 && 0 <= m.date.month <= 12 && 0 <= m.date.day <= 31 && m.hour <= 23 && m.minute <= 59
    requires IsPart(revision)
    ensures Numbers(Split(Stamp(m, revision), '.')).Some?
    ensures var n := Numbers(Split(Stamp(m, revision), '.')).value;
            |n| == 4 && n[0] == m.date.year && n[1] == m.date.month * 100 + m.date.day && n[2] == m.hour * 100 + m.minute
  {
    var md, hm := m.date.month * 100 + m.date.day, m.hour * 100 + m.minute;
    var parts := [Padded(m.date.year, 4), Padded(md, 4), Padded(hm, 4), revision];
    assert Stamp(m, revision) == Join(parts, '.');
    hide *;
    PaddedFour(m.date.year);
    PaddedFour(md);
    PaddedFour(hm);
    PartIsFree(revision);
    SplitInvertsJoin(parts, '.');
    NumbersOf(parts);
  }

  lemma PaddedFour(n: nat)
    requires n < 10000
    ensures var s := Padded(n, 4); IsPart(s) && Free(s, '.') && DecimalValue(s) == n
  {
    assert Ten(1) == 10 && Ten(2) == 100 && Ten(3) == 1000 && Ten(4) == 10000;
    PaddedValue(n, 4);
    hide Padded, Ten, DecimalValue;
  }

  lemma PartIsFree(part: string)
    requires IsPart(part)
    ensures Free(part, '.')
  {
  }

  /**
   Four groups of one to five digits, the first three being the year from 2000 to 9999, the month and day, and the hour and
   minute of a moment there is.
   */
  predicate Encodes(version: string, m: Moment) {
    var parts := Split(version, '.');
    && |parts| == 4 && (forall i :: 0 <= i < 4 ==> 1 <= |parts[i]| <= 5 && AllDigits(parts[i]))
    && DecimalValue(parts[0]) == m.date.year && DecimalValue(parts[1]) == m.date.month * 100 + m.date.day
    && DecimalValue(parts[2]) == m.hour * 100 + m.minute
    && IsDate(m.date) && 2000 <= m.date.year <= 9999 && m.hour <= 23 && m.minute <= 59
  }

  /** A version is a time exactly if it encodes one, however its groups are padded. */
  lemma MomentMeans(version: string, m: Moment)
    ensures MomentOf(version) == Some(m) <==> Encodes(version, m)
  {
    var parts := Split(version, '.');
    hide Split, DecimalValue, Leap, AllDigits, IsDate;
    DateIsSmall(m.date);
    PartsOfFour(parts);
    if Numbers(parts).Some? {
      NumbersOf(parts);
    }
    if MomentOf(version).Some? {
      var found := MomentOf(version).value;
      Hundred(found.date.month, found.date.day, Numbers(parts).value[1]);
      Hundred(found.hour, found.minute, Numbers(parts).value[2]);
      assert forall i :: 0 <= i < 4 ==> IsPart(parts[i]);
      assert Encodes(version, found);
    }
    if Encodes(version, m) {
      assert forall i :: 0 <= i < 4 ==> IsPart(parts[i]);
      var n := Numbers(parts).value;
      assert n[0] == m.date.year && n[1] == m.date.month * 100 + m.date.day && n[2] == m.hour * 100 + m.minute;
      Hundred(m.date.month, m.date.day, DecimalValue(parts[1]));
      Hundred(m.hour, m.minute, DecimalValue(parts[2]));
      assert MomentOf(version) == Some(m);
    }
  }

  lemma Hundred(high: int, low: int, n: int)
    requires 0 <= low < 100
    ensures n == high * 100 + low <==> n / 100 == high && n % 100 == low
  {
  }

  lemma DateIsSmall(d: Date)
    ensures IsDate(d) ==> 1 <= d.month <= 12 && 1 <= d.day <= 31
  {
  }

  lemma PartsOfFour(parts: seq<string>)
    ensures |parts| == 4 && (forall i :: 0 <= i < 4 ==> IsPart(parts[i])) ==> Numbers(parts).Some?
  {
    hide IsPart;
  }

  /** Every moment of the years 2000 to 9999 is read back from the version that encodes it. */
  lemma StampIsRead(m: Moment, revision: string)
    requires IsDate(m.date) && 2000 <= m.date.year <= 9999 && m.hour <= 23 && m.minute <= 59 && IsPart(revision)
    ensures MomentOf(Stamp(m, revision)) == Some(m)
    ensures PublishedAt(Stamp(m, revision)) == Some(Days(m.date) * DAY + m.hour * 3600 + m.minute * 60)
  {
    StampNumbers(m, revision);
    hide Stamp, Numbers, Split, Days, IsDate, IsPart;
    var md, hm := m.date.month * 100 + m.date.day, m.hour * 100 + m.minute;
    assert 0 <= m.date.month <= 12 && 1 <= m.date.day <= 31;
    assert md / 100 == m.date.month && md % 100 == m.date.day && hm / 100 == m.hour && hm % 100 == m.minute;
  }

  lemma {:induction false} NumbersOf(parts: seq<string>)
    requires forall part <- parts :: IsPart(part)
    ensures Numbers(parts).Some? && forall i :: 0 <= i < |parts| ==> AllDigits(parts[i]) && Numbers(parts).value[i] == DecimalValue(parts[i])
  {
    hide DecimalValue;
    if parts != [] {
      NumbersOf(parts[1..]);
    }
  }
}
