/**
 Calendar arithmetic of libs/date_time.h.  Fields are unbounded integers here; the
 source keeps them in 32-bit ints.
 */
module Calendar {
  import opened Arithmetic

  // --------------------------------------------------------------- calendar

  predicate Leap(year: int) {
    (year % 4 == 0 && year % 100 != 0) || year % 400 == 0
  }

  /** `count_days_in_month`. */
  function DaysIn(month: int, year: int): (n: int)
    ensures 28 <= n <= 31
  {
    if month in {4, 6, 9, 11} then 30
    else if month == 2 then if Leap(year) then 29 else 28
    else 31
  }

  /** The days before the first of January: 365 a year and one for every leap year passed. */
  function DaysBeforeYear(year: int): int {
    365 * year + (year - 1) / 4 - (year - 1) / 100 + (year - 1) / 400
  }

  function DaysBeforeMonth(month: int, year: int): (n: nat)
    ensures n <= 31 * (if month > 1 then month - 1 else 0)
    decreases month
  {
    if month <= 1 then 0 else DaysBeforeMonth(month - 1, year) + DaysIn(month - 1, year)
  }

  datatype Moment = Moment(year: int, month: int, day: int, hour: int, minute: int, second: int, ms: int)

  function DayNumber(m: Moment): int {
    DaysBeforeYear(m.year) + DaysBeforeMonth(m.month, m.year) + m.day
  }

  /** Milliseconds since a fixed point, whatever the fields hold. */
  function Instant(m: Moment): int {
    (((DayNumber(m) * 24 + m.hour) * 60 + m.minute) * 60 + m.second) * 1000 + m.ms
  }

  predicate TimeInRange(m: Moment) {
    0 <= m.hour < 24 && 0 <= m.minute < 60 && 0 <= m.second < 60 && 0 <= m.ms < 1000
  }

  predicate InRange(m: Moment) {
    1 <= m.month <= 12 && 1 <= m.day <= DaysIn(m.month, m.year) && TimeInRange(m)
  }

  /** A year is as long as its months: the table of month lengths and the leap rule agree. */
  lemma YearLength(year: int)
    ensures DaysBeforeYear(year + 1) == DaysBeforeYear(year) + DaysBeforeMonth(12, year) + DaysIn(12, year)
    ensures DaysBeforeMonth(12, year) + DaysIn(12, year) == if Leap(year) then 366 else 365
  {
    hide DaysBeforeYear, DaysBeforeMonth, Leap;
    MonthStart(12, year);
    LeapIsGregorian(year);
    LeapStep(year);
  }

  lemma LeapStep(year: int)
    ensures DaysBeforeYear(year + 1) - DaysBeforeYear(year) == if Leap(year) then 366 else 365
  {
    hide Leap;
    Every4(year);
    Every100(year);
    Every400(year);
    LeapCases(year);
  }

  lemma Every4(y: int)
    ensures y / 4 - (y - 1) / 4 == if y % 4 == 0 then 1 else 0
  {
  }

  lemma Every100(y: int)
    ensures y / 100 - (y - 1) / 100 == if y % 100 == 0 then 1 else 0
  {
  }

  lemma Every400(y: int)
    ensures y / 400 - (y - 1) / 400 == if y % 400 == 0 then 1 else 0
  {
  }

  lemma LeapCases(y: int)
    ensures (if Leap(y) then 1 else 0)
         == (if y % 4 == 0 then 1 else 0) - (if y % 100 == 0 then 1 else 0) + (if y % 400 == 0 then 1 else 0)
  {
    if y % 100 == 0 {
      FourTimes(25 * (y / 100));
    }
    if y % 400 == 0 {
      HundredTimes(4 * (y / 400));
    }
  }

  lemma FourTimes(k: int)
    ensures 4 * k % 4 == 0
  {
  }

  lemma HundredTimes(k: int)
    ensures 100 * k % 100 == 0
  {
  }

  /** The day of the year of a month's first by one division, without a table of months. */
  lemma MonthStart(month: int, year: int)
    requires 1 <= month <= 12
    ensures DaysBeforeMonth(month, year)
         == (367 * month - 362) / 12 - if month <= 2 then 0 else if GregorianLeap(year) then 1 else 2
  {
    var f := if Leap(year) then 29 else 28;
    assert DaysBeforeMonth(1, year) == 0 && DaysBeforeMonth(2, year) == 31;
    assert DaysBeforeMonth(3, year) == 31 + f;
    assert DaysBeforeMonth(4, year) == 62 + f;
    assert DaysBeforeMonth(5, year) == 92 + f;
    assert DaysBeforeMonth(6, year) == 123 + f;
    assert DaysBeforeMonth(7, year) == 153 + f;
    assert DaysBeforeMonth(8, year) == 184 + f;
    assert DaysBeforeMonth(9, year) == 215 + f;
    assert DaysBeforeMonth(10, year) == 245 + f;
    assert DaysBeforeMonth(11, year) == 276 + f;
    assert DaysBeforeMonth(12, year) == 306 + f;
    LeapIsGregorian(year);
  }

  /** Every fourth year, but of the hundredth ones only every fourth. */
  predicate GregorianLeap(year: int) {
    year % 4 == 0 && (year % 100 == 0 ==> year % 400 == 0)
  }

  /** The length of each month is the distance of two such starts. */
  lemma MonthLength(month: int, year: int)
    requires 1 <= month <= 12
    ensures DaysIn(month, year)
         == (367 * month + 5) / 12 - (367 * month - 362) / 12 - (if month != 2 then 0 else if GregorianLeap(year) then 1 else 2)
  {
    hide DaysBeforeMonth;
    LeapIsGregorian(year);
  }

  lemma LeapIsGregorian(year: int)
    ensures Leap(year) <==> GregorianLeap(year)
  {
    if year % 400 == 0 {
      FourTimes(100 * (year / 400));
    }
  }

  /** The day number of a date in closed form. */
  lemma CivilDay(m: Moment)
    requires 1 <= m.month <= 12
    ensures DayNumber(m) == 365 * m.year + (m.year - 1) / 4 - (m.year - 1) / 100 + (m.year - 1) / 400
      + (367 * m.month - 362) / 12 - (if m.month <= 2 then 0 else if GregorianLeap(m.year) then 1 else 2) + m.day
  {
    hide GregorianLeap, DaysBeforeMonth;
    MonthStart(m.month, m.year);
  }

  lemma {:induction false} MonthsGrow(m: int, n: int, year: int)
    requires 1 <= m < n <= 12
    ensures DaysBeforeMonth(m, year) + DaysIn(m, year) <= DaysBeforeMonth(n, year)
    decreases n
  {
    if m < n - 1 {
      MonthsGrow(m, n - 1, year);
    }
  }

  lemma {:induction false} YearsGrow(a: int, b: int)
    requires a < b
    ensures DaysBeforeYear(a + 1) <= DaysBeforeYear(b)
    decreases b - a
  {
    if a < b - 1 {
      YearsGrow(a, b - 1);
      LeapStep(b - 1);
    }
  }

  // ------------------------------------------------------------------ order

  predicate DateLess(a: Moment, b: Moment) {
    a.year < b.year || (a.year == b.year && a.month < b.month)
    || (a.year == b.year && a.month == b.month && a.day < b.day)
  }

  predicate TimeLess(a: Moment, b: Moment) {
    a.hour < b.hour || (a.hour == b.hour && a.minute < b.minute)
    || (a.hour == b.hour && a.minute == b.minute && a.second < b.second)
    || (a.hour == b.hour && a.minute == b.minute && a.second == b.second && a.ms < b.ms)
  }

  predicate DateEqual(a: Moment, b: Moment) {
    a.year == b.year && a.month == b.month && a.day == b.day
  }

  /** `operator<` on date-times. */
  predicate Less(a: Moment, b: Moment) {
    DateLess(a, b) || (DateEqual(a, b) && TimeLess(a, b))
  }

  /** The day of the year lies within the year. */
  lemma DayOfYearBound(a: Moment)
    requires InRange(a)
    ensures 1 <= DaysBeforeMonth(a.month, a.year) + a.day
    ensures DaysBeforeYear(a.year) + DaysBeforeMonth(a.month, a.year) + a.day <= DaysBeforeYear(a.year + 1)
  {
    hide DaysBeforeYear, DaysBeforeMonth, DaysIn, Leap;
    YearLength(a.year);
    if a.month < 12 {
      MonthsGrow(a.month, 12, a.year);
    }
  }

  lemma DatesOrdered(a: Moment, b: Moment)
    requires InRange(a) && InRange(b) && DateLess(a, b)
    ensures DayNumber(a) < DayNumber(b)
  {
    hide DaysBeforeYear, DaysBeforeMonth, DaysIn;
    DayOfYearBound(a);
    DayOfYearBound(b);
    if a.year < b.year {
      YearsGrow(a.year, b.year);
    } else if a.month < b.month {
      MonthsGrow(a.month, b.month, a.year);
    }
  }

  function TimeOfDay(m: Moment): int {
    ((m.hour * 60 + m.minute) * 60 + m.second) * 1000 + m.ms
  }

  lemma InstantSplit(m: Moment)
    ensures Instant(m) == DayNumber(m) * 86400000 + TimeOfDay(m)
    ensures TimeInRange(m) ==> 0 <= TimeOfDay(m) < 86400000
  {
    hide DayNumber;
  }

  lemma LessIsEarlier(a: Moment, b: Moment)
    requires InRange(a) && InRange(b) && Less(a, b)
    ensures Instant(a) < Instant(b)
  {
    hide DaysIn, DayNumber, Instant;
    InstantSplit(a);
    InstantSplit(b);
    if DateLess(a, b) {
      DatesOrdered(a, b);
    } else {
      SameDay(a, b);
      TimesOrdered(a, b);
    }
  }

  lemma SameDay(a: Moment, b: Moment)
    requires DateEqual(a, b)
    ensures DayNumber(a) == DayNumber(b)
  {
  }

  lemma TimesOrdered(a: Moment, b: Moment)
    requires TimeInRange(a) && TimeInRange(b) && TimeLess(a, b)
    ensures TimeOfDay(a) < TimeOfDay(b)
  {
  }

  /** `<` compares instants, and an instant has one reading. */
  lemma OrderIsInstant(a: Moment, b: Moment)
    requires InRange(a) && InRange(b)
    ensures Less(a, b) <==> Instant(a) < Instant(b)
    ensures a == b <==> Instant(a) == Instant(b)
  {
    hide InRange, Instant;
    if Less(a, b) {
      LessIsEarlier(a, b);
    } else if Less(b, a) {
      LessIsEarlier(b, a);
    }
  }

  // ---------------------------------------------------------------- carries

  /** The same instant, read off properly. */
  predicate Reads(m: Moment, r: Moment) {
    InRange(r) && Instant(r) == Instant(m)
  }

  /** `incr`: whole units of a positive count move to the next field. */
  method Incr(from: int, to: int, max: int) returns (f: int, t: int)
    requires from >= 0 && max > 0
    ensures 0 <= f < max && t * max + f == to * max + from
  {
    f, t := from, to;
    WholeUnits(from, max, to);
    var add := TDiv(from - TRem(from, max), max);
    if add != 0 {
      f := TRem(from, max);
      t := to + add;
    }
  }

  lemma ExactUnits(k: int, max: int)
    requires max > 0
    ensures TDiv(k * max, max) == k
  {
    if k >= 0 {
      MulMonotone(0, k, max);
      QuotientUnique(k * max, max, k, 0);
    } else {
      MulMonotone(k, -1, max);
      Distribute(0, k, max);
      QuotientUnique(-k * max, max, -k, 0);
    }
  }

  lemma WholeUnits(from: int, max: int, to: int)
    requires from >= 0 && max > 0
    ensures var add, r := TDiv(from - TRem(from, max), max), TRem(from, max);
      0 <= r < max && from == add * max + r && (to + add) * max + r == to * max + from
  {
    var q, r := from / max, from % max;
    assert from - r == q * max;
    ExactUnits(q, max);
    Distribute(to, q, max);
  }

  lemma UnitsBelow(from: int, max: int) returns (k: int, s: int)
    requires from <= 0 && max > 0
    ensures -from == k * max + s && 0 <= s < max && TRem(from, max) == -s
  {
    k, s := (-from) / max, (-from) % max;
  }

  lemma Borrowed(from: int, max: int, to: int, v: int)
    requires from <= 0 && max > 0
    requires v == if TRem(from, max) == 0 then 0 else max + TRem(from, max)
    ensures var add := TDiv(from - v, max);
      0 <= v < max && from == add * max + v && (to + add) * max + v == to * max + from
  {
    hide TDiv, TRem;
    var k, s := UnitsBelow(from, max);
    var add := if s == 0 then -k else -k - 1;
    Distribute(0, k, max);
    Distribute(-k, 1, max);
    assert from - v == add * max;
    ExactUnits(add, max);
    Distribute(to, add, max);
  }

  /** `decr`: a count that is not positive borrows whole units from the next field. */
  method Decr(from: int, to: int, max: int) returns (f: int, t: int)
    requires from <= 0 && max > 0
    ensures 0 <= f < max && t * max + f == to * max + from
  {
    f, t := from, to;
    var newVal := max + TRem(from, max);
    if newVal == max {
      newVal := 0;
    }
    Borrowed(from, max, to, newVal);
    var add := TDiv(from - newVal, max);
    if add != 0 {
      f := newVal;
      t := to + add;
    }
  }

  /** One carry of `incr_all`. */
  method Carry(from: int, to: int, max: int) returns (f: int, t: int)
    requires max > 0
    ensures 0 <= f < max && t * max + f == to * max + from
  {
    if from > 0 {
      f, t := Incr(from, to, max);
    } else {
      f, t := Decr(from, to, max);
    }
  }

  lemma SettledTime(m: Moment, r: Moment, s: int, mi: int, h: int)
    requires s * 1000 + r.ms == m.second * 1000 + m.ms
    requires mi * 60 + r.second == m.minute * 60 + s
    requires h * 60 + r.minute == m.hour * 60 + mi
    requires (DayNumber(r) - DayNumber(m)) * 24 + r.hour == h
    ensures Instant(r) == Instant(m)
  {
    hide DayNumber;
  }

  // ----------------------------------------------------------------- months

  /** The same day and time a number of months on, whether or not the month has that day. */
  function MonthsOn(m: Moment, n: int): Moment {
    var k := m.year * 12 + m.month - 1 + n;
    m.(year := k / 12, month := k % 12 + 1)
  }

  lemma MonthsOnCompose(m: Moment, a: int, b: int)
    requires 1 <= m.month <= 12
    ensures MonthsOn(MonthsOn(m, a), b) == MonthsOn(m, a + b) && MonthsOn(m, 0) == m
  {
  }

  lemma MonthsOnStep(m: Moment)
    requires 1 <= m.month <= 12
    ensures MonthsOn(m, 1) == if m.month < 12 then m.(month := m.month + 1) else m.(year := m.year + 1, month := 1)
    ensures MonthsOn(m, -1) == if m.month > 1 then m.(month := m.month - 1) else m.(year := m.year - 1, month := 12)
  {
  }

  /** Leaving a month gives up its days. */
  lemma NextMonth(m: Moment)
    requires 1 <= m.month <= 12
    ensures DayNumber(MonthsOn(m, 1)) == DayNumber(m) + DaysIn(m.month, m.year)
  {
    hide DaysBeforeYear, DaysIn;
    MonthsOnStep(m);
    YearLength(m.year);
  }

  /** A change of days is a change of the instant. */
  lemma DaysMove(m: Moment, r: Moment)
    requires m.hour == r.hour && m.minute == r.minute && m.second == r.second && m.ms == r.ms
    ensures Instant(r) == Instant(m) + (DayNumber(r) - DayNumber(m)) * 86400000
  {
    hide DayNumber;
  }

  // --------------------------------------------------------------- the class

  class DateTime {
    var year: int
    var month: int
    var day: int
    var hour: int
    var minute: int
    var second: int
    var ms: int
    var dayOfYear: int

    constructor (m: Moment)
      ensures Value() == m
    {
      year, month, day := m.year, m.month, m.day;
      hour, minute, second, ms := m.hour, m.minute, m.second, m.ms;
      dayOfYear := 0;
    }

    function Value(): Moment
      reads this
    {
      Moment(year, month, day, hour, minute, second, ms)
    }

    /** The four carries of `incr_all`, from milliseconds up to days. */
    method CarryTime()
      modifies this
      ensures Instant(Value()) == old(Instant(Value())) && TimeInRange(Value())
      ensures year == old(year) && month == old(month)
    {
      hide DayNumber;
      ghost var m := Value();
      var s, mi, h, d;
      ms, s := Carry(ms, second, 1000);
      second, mi := Carry(s, minute, 60);
      minute, h := Carry(mi, hour, 60);
      hour, d := Carry(h, day, 24);
      day := d;
      SameMonth(m, Value());
      SettledTime(m, Value(), s, mi, h);
    }

    /** `incr_month`. */
    method IncrMonth()
      requires 1 <= month <= 12 && day >= 1 && TimeInRange(Value())
      modifies this
      ensures Reads(old(Value()), Value())
      decreases day
    {
      hide Instant, DayNumber, DaysIn;
      var max := DaysIn(month, year);
      if day > max {
        ghost var m := Value();
        NextMonth(m);
        MonthsOnStep(m);
        if month < 12 {
          month := month + 1;
        } else {
          year := year + 1;
          month := 1;
        }
        day := day - max;
        SameMonth(MonthsOn(m, 1), Value());
        DaysMove(m, Value());
        IncrMonth();
      }
    }

    /** `decr_month`. */
    method DecrMonth()
      requires 1 <= month <= 12 && TimeInRange(Value())
      requires day <= DaysIn(month, year)
      modifies this
      ensures Reads(old(Value()), Value())
      decreases 1 - day
    {
      hide Instant, DayNumber, DaysIn;
      if day < 1 {
        ghost var m := Value();
        MonthsOnStep(m);
        MonthsOnCompose(m, -1, 1);
        NextMonth(MonthsOn(m, -1));
        if month > 1 {
          month := month - 1;
        } else {
          year := year - 1;
          month := 12;
        }
        var max := DaysIn(month, year);
        day := day + max;
        SameMonth(MonthsOn(m, -1), Value());
        DaysMove(m, Value());
        DecrMonth();
      }
    }

    /** `incr_all`: any carries are settled, the instant stays, the fields end in calendar range. */
    method IncrAll()
      requires 1 <= month <= 12
      modifies this
      ensures Reads(old(Value()), Value())
      ensures dayOfYear == DayNumber(Value()) - DaysBeforeYear(year) && 1 <= dayOfYear <= 366
    {
      hide Instant, DaysIn, TimeInRange;
      CarryTime();
      if day > 0 {
        IncrMonth();
      } else {
        DecrMonth();
      }
      dayOfYear := 0;
      var i := 1;
      while i < month
        invariant 1 <= i <= month && dayOfYear == DaysBeforeMonth(i, year)
        invariant Reads(old(Value()), Value())
      {
        dayOfYear := dayOfYear + DaysIn(i, year);
        i := i + 1;
      }
      dayOfYear := dayOfYear + day;
      DayOfYearBound(Value());
      YearLength(year);
    }

    method AddMsecs(n: int)
      requires 1 <= month <= 12
      modifies this
      ensures InRange(Value()) && Instant(Value()) == old(Instant(Value())) + n
    {
      ms := ms + n;
      IncrAll();
    }

    method AddSecs(n: int)
      requires 1 <= month <= 12
      modifies this
      ensures InRange(Value()) && Instant(Value()) == old(Instant(Value())) + n * 1000
    {
      second := second + n;
      IncrAll();
    }

    method AddMins(n: int)
      requires 1 <= month <= 12
      modifies this
      ensures InRange(Value()) && Instant(Value()) == old(Instant(Value())) + n * 60000
    {
      minute := minute + n;
      IncrAll();
    }

    method AddHours(n: int)
      requires 1 <= month <= 12
      modifies this
      ensures InRange(Value()) && Instant(Value()) == old(Instant(Value())) + n * 3600000
    {
      hour := hour + n;
      IncrAll();
    }

    method AddDays(n: int)
      requires 1 <= month <= 12
      modifies this
      ensures InRange(Value()) && Instant(Value()) == old(Instant(Value())) + n * 86400000
    {
      hide Instant, InRange, DayNumber;
      ghost var m := Value();
      day := day + n;
      SameMonth(m, Value());
      DaysMove(m, Value());
      IncrAll();
    }

    /** `add_month`: a day the new month lacks runs on into the month after it. */
    method AddMonth(n: int)
      requires 1 <= month <= 12
      modifies this
      ensures Reads(MonthsOn(old(Value()), n), Value())
    {
      hide Instant, InRange;
      ghost var k := year * 12 + month - 1 + n;
      month := month + n;
      if n > 0 {
        while month > 12
          invariant month >= 1 && year * 12 + month - 1 == k
          invariant Value() == old(Value()).(year := year, month := month)
        {
          month := month - 12;
          year := year + 1;
        }
      } else {
        while month < 1
          invariant month <= 12 && year * 12 + month - 1 == k
          invariant Value() == old(Value()).(year := year, month := month)
        {
          month := month + 12;
          year := year - 1;
        }
      }
      assert Value() == MonthsOn(old(Value()), n);
      IncrAll();
    }

    method AddYear(n: int)
      requires 1 <= month <= 12
      modifies this
      ensures Reads(MonthsOn(old(Value()), 12 * n), Value())
    {
      hide Instant, InRange;
      year := year + n;
      assert Value() == MonthsOn(old(Value()), 12 * n);
      IncrAll();
    }
  }

  /** Days add up, in any order and with any signs; opposite amounts cancel. */
  method AddDaysTwice(x: DateTime, y: DateTime, a: int, b: int)
    requires x != y && x.Value() == y.Value() && 1 <= x.month <= 12
    modifies x, y
    ensures x.Value() == y.Value()
    ensures a + b == 0 && old(InRange(x.Value())) ==> x.Value() == old(x.Value())
  {
    hide Instant, InRange;
    ghost var m := x.Value();
    RangeMonth();
    x.AddDays(a);
    x.AddDays(b);
    y.AddDays(a + b);
    Distribute(a, b, 86400000);
    OrderIsInstant(x.Value(), y.Value());
    if a + b == 0 && InRange(m) {
      OrderIsInstant(x.Value(), m);
    }
  }

  lemma RangeMonth()
    ensures forall m: Moment :: InRange(m) ==> 1 <= m.month <= 12
  {
  }

  lemma RunsOver(t: Moment)
    requires 1 <= t.month <= 12 && DaysIn(t.month, t.year) < t.day <= 31 && TimeInRange(t)
    ensures Reads(t, MonthsOn(t, 1).(day := t.day - DaysIn(t.month, t.year)))
  {
    hide Instant, DayNumber, Leap;
    var r := MonthsOn(t, 1).(day := t.day - DaysIn(t.month, t.year));
    NextMonth(t);
    SameMonth(MonthsOn(t, 1), r);
    DaysMove(t, r);
  }

  /** Going on some months and back restores a date exactly when the month passed through has its day. */
  lemma MonthRoundTrip(m: Moment, n: int, r: Moment, s: Moment)
    requires InRange(m) && Reads(MonthsOn(m, n), r) && Reads(MonthsOn(r, -n), s)
    ensures s == m <==> m.day <= DaysIn(MonthsOn(m, n).month, MonthsOn(m, n).year)
  {
    hide Instant, DaysIn;
    var t := MonthsOn(m, n);
    MonthsOnCompose(m, n, -n);
    if t.day <= DaysIn(t.month, t.year) {
      OrderIsInstant(t, r);
      OrderIsInstant(m, s);
    } else {
      RunsOver(t);
      var o := MonthsOn(t, 1).(day := t.day - DaysIn(t.month, t.year));
      OrderIsInstant(o, r);
      MonthsOnCompose(m, n, 1);
      MonthsOnCompose(m, n + 1, -n);
      var u := MonthsOn(m, 1).(day := o.day);
      assert MonthsOn(o, -n) == u;
      OrderIsInstant(u, s);
    }
  }

  /** The same of the code: n months on and n back. */
  method AddMonthAndBack(x: DateTime, n: int)
    requires InRange(x.Value())
    modifies x
    ensures var t := MonthsOn(old(x.Value()), n);
      x.Value() == old(x.Value()) <==> t.day <= DaysIn(t.month, t.year)
  {
    hide Instant, DaysIn;
    ghost var m := x.Value();
    x.AddMonth(n);
    ghost var r := x.Value();
    x.AddMonth(-n);
    MonthRoundTrip(m, n, r, x.Value());
  }

  lemma SameMonth(m: Moment, r: Moment)
    requires m.year == r.year && m.month == r.month
    ensures DayNumber(r) - DayNumber(m) == r.day - m.day
  {
  }
}
