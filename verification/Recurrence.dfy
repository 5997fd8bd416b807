/**
The recurrence engine: a subset of the RRULE of RFC 5545, section 3.3.10, expanded
on read. `Next` and its helpers are the step functions; the methods below them are
the loops that compute them; `InPattern` says, without any iteration, which days a
rule means, and the lemmas prove that stepping visits exactly those days.
*/
module Recurrence {
  import opened Arithmetic
  import opened Options
  import opened Calendar

  datatype Frequency = Unset | Daily | Weekly | Monthly

  /** `count` and `until` are unbounded at zero; `byDay` empty means the start's weekday. */
  datatype Rule = Rule(freq: Frequency, interval: int, byDay: seq<Weekday>, count: int, until: Instant)

  /** Every rule the parser lets through. */
  predicate Usable(r: Rule) {
    r.interval >= 1
  }

  const MAX_OCCURRENCE_SCAN: nat := 5000
  const MONTH_PROBES: nat := 48

  // ---- one step ------------------------------------------------------------------

  function Selected(byDay: seq<Weekday>): set<Weekday> {
    set w | w in byDay
  }

  /** The set both BYDAY loops build. */
  method SelectedDays(byDay: seq<Weekday>) returns (selected: set<Weekday>)
    ensures selected == Selected(byDay)
  {
    selected := {};
    for i := 0 to |byDay|
      invariant selected == Selected(byDay[..i])
    {
      selected := selected + {byDay[i]};
    }
    assert byDay[..|byDay|] == byDay;
  }

  /** The first of the days d, d+1, ..., d+n-1 that falls on a selected weekday. */
  function FirstOn(sel: set<Weekday>, d: Day, n: nat): Option<Day>
    decreases n
  {
    if n == 0 then None
    else if WeekdayOf(d) in sel then Some(d)
    else FirstOn(sel, d + 1, n - 1)
  }

  function NextByDay(sel: set<Weekday>, interval: int, d: Day): Day {
    var rest := FirstOn(sel, d + 1, 6 - WeekdayOf(d));
    if rest.Some? then rest.value
    else
      var weekStart := WeekStart(d) + 7 * interval;
      var jump := FirstOn(sel, weekStart, 7);
      if jump.Some? then jump.value else weekStart
  }

  /** The first month after n, in jumps of `interval`, that is long enough to hold `day`. */
  function Probe(n: int, day: int, interval: int, steps: nat): Option<int>
    decreases steps
  {
    if steps == 0 then None
    else if day <= MonthLength(n + interval) then Some(n + interval)
    else Probe(n + interval, day, interval, steps - 1)
  }

  function NextMonthly(cursor: Instant, anchor: Instant, interval: int): Instant {
    var n := MonthOf(DayOf(cursor));
    var day := DayInMonth(DayOf(anchor));
    match Probe(n, day, interval, MONTH_PROBES)
    case Some(m) => At(MonthStart(m) + day - 1, ClockOf(anchor))
    case None => At(MonthStart(n + interval) + DayInMonth(DayOf(cursor)) - 1, ClockOf(cursor))
  }

  /** AddDate(0, 0, n) in UTC. */
  function AddDays(t: Instant, n: int): Instant {
    t + SECONDS_PER_DAY * n
  }

  function Next(r: Rule, cursor: Instant, anchor: Instant): Instant {
    match r.freq
    case Daily => AddDays(cursor, r.interval)
    case Weekly =>
      if r.byDay == [] then AddDays(cursor, 7 * r.interval)
      else At(NextByDay(Selected(r.byDay), r.interval, DayOf(cursor)), ClockOf(cursor))
    case Monthly => NextMonthly(cursor, anchor, r.interval)
    case Unset => AddDays(cursor, 1)
  }

  /** The unbounded series: occurrence k, counting the start as occurrence 0. */
  function Series(r: Rule, start: Instant, k: nat): Instant {
    if k == 0 then start else Next(r, Series(r, start, k - 1), start)
  }

  // ---- the meaning of a rule -----------------------------------------------------

  /**
  The days of a series that starts on day s, said without stepping. Weeks start on
  Sunday, and the start is always a member even off its BYDAY weekdays.
  */
  ghost predicate InPattern(r: Rule, s: Day, d: Day)
    requires Usable(r) && r.freq != Unset
  {
    s <= d &&
    match r.freq
    case Daily => (d - s) % r.interval == 0
    case Weekly =>
      if r.byDay == [] then (d - s) % (7 * r.interval) == 0
      else d == s || (WeekdayOf(d) in r.byDay && (WeekOf(d) - WeekOf(s)) % r.interval == 0)
    case Monthly => DayInMonth(d) == DayInMonth(s) && (MonthOf(d) - MonthOf(s)) % r.interval == 0
  }

  /** x is the first day of the pattern after c. */
  ghost predicate IsNextDay(r: Rule, s: Day, c: Day, x: Day)
    requires Usable(r) && r.freq != Unset
  {
    c < x && InPattern(r, s, x) && forall d :: c < d < x ==> !InPattern(r, s, d)
  }

  // ---- weekly steps --------------------------------------------------------------

  lemma {:induction false} FirstOnMeaning(sel: set<Weekday>, d: Day, n: nat)
    ensures var f := FirstOn(sel, d, n);
            match f
            case Some(x) => d <= x < d + n && WeekdayOf(x) in sel && forall e :: d <= e < x ==> WeekdayOf(e) !in sel
            case None => forall e :: d <= e < d + n ==> WeekdayOf(e) !in sel
    decreases n
  {
    if n > 0 && WeekdayOf(d) !in sel {
      FirstOnMeaning(sel, d + 1, n - 1);
    }
  }

  /** No selected day is left this week: the next one is in the week `interval` weeks on. */
  lemma ByDayJump(r: Rule, s: Day, c: Day)
    requires Usable(r) && r.freq == Weekly && r.byDay != []
    requires InPattern(r, s, c)
    requires forall d :: c < d && WeekOf(d) == WeekOf(c) ==> WeekdayOf(d) !in r.byDay
    ensures var f := FirstOn(Selected(r.byDay), WeekStart(c) + 7 * r.interval, 7);
            f.Some? && IsNextDay(r, s, c, f.value)
  {
    var jump := WeekStart(c) + 7 * r.interval;
    FirstOnMeaning(Selected(r.byDay), jump, 7);
    WeekStartShift(c, r.interval, r.byDay[0]);
    assert WeekdayOf(jump + r.byDay[0]) in r.byDay;
    var x := FirstOn(Selected(r.byDay), jump, 7).value;
    WeekStartShift(c, r.interval, x - jump);
    MultiplesApart(WeekOf(c) - WeekOf(s), r.interval);
    forall d | c < d < x ensures !InPattern(r, s, d) {
      JumpedOver(c, d, r.interval);
      if WeekOf(d) == WeekOf(c) + r.interval {
        assert jump <= d;
      } else if WeekOf(c) < WeekOf(d) {
        assert (WeekOf(d) - WeekOf(s)) % r.interval != 0;
      }
    }
  }

  lemma JumpedOver(c: Day, d: Day, weeks: int)
    requires 1 <= weeks && c < d < WeekStart(c) + 7 * weeks + 7
    ensures WeekOf(c) <= WeekOf(d) <= WeekOf(c) + weeks
    ensures WeekOf(d) == WeekOf(c) + weeks <==> WeekStart(c) + 7 * weeks <= d
  {
  }

  lemma WeekRest(c: Day, d: Day)
    requires c < d
    ensures WeekOf(d) == WeekOf(c) <==> d <= c + 6 - WeekdayOf(c)
  {
  }

  lemma ByDayNext(r: Rule, s: Day, c: Day)
    requires Usable(r) && r.freq == Weekly && r.byDay != []
    requires InPattern(r, s, c)
    ensures IsNextDay(r, s, c, NextByDay(Selected(r.byDay), r.interval, c))
  {
    hide WeekdayOf, WeekOf;
    var sel := Selected(r.byDay);
    var rest := FirstOn(sel, c + 1, 6 - WeekdayOf(c));
    FirstOnMeaning(sel, c + 1, 6 - WeekdayOf(c));
    forall d | c < d ensures WeekOf(d) == WeekOf(c) <==> d <= c + 6 - WeekdayOf(c) {
      WeekRest(c, d);
    }
    if rest.Some? {
      Euclid(0, r.interval, 0, 0);
      assert WeekOf(rest.value) == WeekOf(c);
    } else {
      ByDayJump(r, s, c);
    }
  }

  // ---- monthly steps -------------------------------------------------------------

  lemma {:induction false} ProbeMeaning(n: int, day: int, interval: int, steps: nat)
    requires interval >= 1
    ensures var p := Probe(n, day, interval, steps);
            p.Some? ==>
              n < p.value && (p.value - n) % interval == 0 && day <= MonthLength(p.value)
              && forall x :: n < x < p.value && (x - n) % interval == 0 ==> MonthLength(x) < day
    decreases steps
  {
    hide MonthLength;
    Euclid(0, interval, 0, 0);
    MultiplesApart(0, interval);
    var p := Probe(n, day, interval, steps);
    if steps > 0 && MonthLength(n + interval) < day && p.Some? {
      ProbeMeaning(n + interval, day, interval, steps - 1);
      SumOfMultiples(interval, p.value - n - interval, interval);
      forall x | n < x < p.value && (x - n) % interval == 0 ensures MonthLength(x) < day {
        if x > n + interval {
          SumOfMultiples(interval, x - n - interval, interval);
        }
      }
    }
  }

  lemma {:induction false} ProbeHits(n: int, day: int, interval: int, steps: nat, j: nat)
    requires 1 <= j <= steps
    requires day <= MonthLength(n + j * interval)
    ensures Probe(n, day, interval, steps).Some?
    decreases steps
  {
    if j > 1 {
      assert n + j * interval == (n + interval) + (j - 1) * interval;
      ProbeHits(n + interval, day, interval, steps - 1, j - 1);
    } else {
      assert j * interval == interval;
    }
  }

  /** Stepping a leap year by 4k years meets another leap year within four such steps. */
  lemma LeapAgain(y: int, k: int)
    requires IsLeap(y)
    ensures IsLeap(y + 4 * k) || IsLeap(y + 8 * k) || IsLeap(y + 16 * k)
  {
    assert y % 4 == 0 && (y % 100 == 0 ==> y % 400 == 0);
    hide IsLeap;
    if k % 25 != 0 {
      LeapEitherCentury(y, k);
    } else if y % 100 == 0 {
      LeapMultiple(y, k / 25);
    } else {
      LeapOffCenturies(y, k);
    }
  }

  lemma LeapOffCenturies(y: int, k: int)
    requires y % 4 == 0 && y % 100 != 0 && k % 25 == 0
    ensures IsLeap(y + 4 * k)
  {
    Euclid(4 * k, 4, k, 0);
    Euclid(4 * k, 100, k / 25, 0);
    SumOfMultiples(4 * k, y, 100);
    SumOfMultiples(4 * k, y, 4);
  }

  lemma LeapMultiple(y: int, c: int)
    requires y % 400 == 0
    ensures IsLeap(y + 16 * (25 * c))
  {
    SumOfMultiples(y, 400 * c, 400);
    Euclid(400 * c, 400, c, 0);
    Euclid(y + 400 * c, 4, (y + 400 * c) / 400 * 100, 0);
  }

  lemma LeapOffCentury(y: int, k: int)
    requires y % 100 == 0 && k % 25 != 0
    ensures IsLeap(y + 4 * k)
  {
    Euclid(y, 4, 25 * (y / 100), 0);
    SumOfMultiples(y, 4 * k, 100);
    Euclid(4 * k, 100, k / 25, 4 * (k % 25));
    SumOfMultiples(y, 4 * k, 4);
    Euclid(4 * k, 4, k, 0);
  }

  lemma LeapEitherCentury(y: int, k: int)
    requires y % 4 == 0 && k % 25 != 0
    ensures IsLeap(y + 4 * k) || IsLeap(y + 8 * k)
  {
    SumOfMultiples(y, 4 * k, 4);
    SumOfMultiples(y, 8 * k, 4);
    Euclid(4 * k, 4, k, 0);
    Euclid(8 * k, 4, 2 * k, 0);
    if (y + 4 * k) % 100 == 0 {
      LeapOffCentury(y + 4 * k, k);
    }
  }

  lemma CommonMonthAgain(n: int, interval: int)
    requires n % 12 != 1
    ensures MonthLength(n + 12 * interval) == MonthLength(n)
  {
    assert n + 12 * interval == 12 * (n / 12 + interval) + n % 12;
  }

  lemma FebruaryAgain(n: int, k: int) returns (j: nat)
    requires n % 12 == 1 && MonthLength(n) == 29
    ensures 1 <= j <= 16 && MonthLength(n + j * (12 * k)) == 29
  {
    var y := YearOfMonth(n);
    LeapAgain(y, k);
    j := if IsLeap(y + 4 * k) then 4 else if IsLeap(y + 8 * k) then 8 else 16;
    assert n + j * (12 * k) == 12 * (y + j * k) + 1;
  }

  /**
  From a month that holds the anchor's day, 48 probes are always enough, whatever
  the interval: 12 when the month is not February, and 16 for 29 February, even
  across century years. So the code's last fallback is dead for every series.
  */
  lemma ProbeAlwaysHits(n: int, day: int, interval: int)
    requires interval >= 1 && day <= MonthLength(n)
    ensures Probe(n, day, interval, MONTH_PROBES).Some?
  {
    hide MonthStart, YearOfMonth, IsLeap, Probe;
    MonthStartStep(n + interval);
    if n % 12 != 1 {
      CommonMonthAgain(n, interval);
      ProbeHits(n, day, interval, MONTH_PROBES, 12);
    } else if day <= 28 || interval % 12 != 0 {
      ProbeHits(n, day, interval, MONTH_PROBES, 1);
    } else {
      var j := FebruaryAgain(n, interval / 12);
      ProbeHits(n, day, interval, MONTH_PROBES, j);
    }
  }

  /** Two days with the same day-of-month are ordered as their months are. */
  lemma SameDayOrder(a: Day, b: Day)
    requires DayInMonth(a) == DayInMonth(b) && a < b
    ensures MonthOf(a) < MonthOf(b)
  {
    hide FromDay, MonthStart, MonthLength;
    DayWithinMonth(a);
    DayWithinMonth(b);
    if MonthOf(b) <= MonthOf(a) {
      MonthStartMonotone(MonthOf(b), MonthOf(a));
    }
  }

  lemma MonthlyBetween(r: Rule, s: Day, c: Day, d: Day, x: Day)
    requires Usable(r) && r.freq == Monthly
    requires InPattern(r, s, c) && InPattern(r, s, d)
    requires c < d < x && DayInMonth(x) == DayInMonth(s)
    ensures MonthOf(c) < MonthOf(d) < MonthOf(x)
    ensures (MonthOf(d) - MonthOf(c)) % r.interval == 0
    ensures DayInMonth(s) <= MonthLength(MonthOf(d))
  {
    hide FromDay, MonthStart, MonthLength, WeekOf, WeekdayOf, MonthOf, DayInMonth;
    SameDayOrder(c, d);
    SameDayOrder(d, x);
    DayWithinMonth(d);
    SumOfMultiples(MonthOf(c) - MonthOf(s), MonthOf(d) - MonthOf(c), r.interval);
  }

  lemma ProbedMonthIsNext(r: Rule, s: Day, c: Day, m: int)
    requires Usable(r) && r.freq == Monthly && InPattern(r, s, c)
    requires MonthOf(c) < m && (m - MonthOf(c)) % r.interval == 0 && DayInMonth(s) <= MonthLength(m)
    requires forall x :: MonthOf(c) < x < m && (x - MonthOf(c)) % r.interval == 0 ==> MonthLength(x) < DayInMonth(s)
    ensures IsNextDay(r, s, c, MonthStart(m) + DayInMonth(s) - 1)
  {
    hide FromDay, MonthStart, MonthLength;
    var n := MonthOf(c);
    DayWithinMonth(c);
    DayWithinMonth(s);
    var x := MonthStart(m) + DayInMonth(s) - 1;
    MonthUnique(x, m, DayInMonth(s));
    MonthStartMonotone(n + 1, m);
    MonthStartStep(n);
    SumOfMultiples(n - MonthOf(s), m - n, r.interval);
    forall d | c < d < x ensures !InPattern(r, s, d) {
      if InPattern(r, s, d) {
        MonthlyBetween(r, s, c, d, x);
      }
    }
  }

  lemma MonthlyNext(r: Rule, start: Instant, cursor: Instant)
    requires Usable(r) && r.freq == Monthly
    requires InPattern(r, DayOf(start), DayOf(cursor))
    ensures IsNextDay(r, DayOf(start), DayOf(cursor), DayOf(NextMonthly(cursor, start, r.interval)))
    ensures ClockOf(NextMonthly(cursor, start, r.interval)) == ClockOf(start)
  {
    hide FromDay, MonthStart, MonthLength;
    var n, day := MonthOf(DayOf(cursor)), DayInMonth(DayOf(start));
    DayWithinMonth(DayOf(cursor));
    ProbeAlwaysHits(n, day, r.interval);
    ProbeMeaning(n, day, r.interval, MONTH_PROBES);
    var m := Probe(n, day, r.interval, MONTH_PROBES).value;
    ProbedMonthIsNext(r, DayOf(start), DayOf(cursor), m);
    AtParts(MonthStart(m) + day - 1, ClockOf(start));
  }

  lemma AddDaysParts(t: Instant, n: int)
    ensures DayOf(AddDays(t, n)) == DayOf(t) + n && ClockOf(AddDays(t, n)) == ClockOf(t)
    ensures AddDays(t, n) == At(DayOf(t) + n, ClockOf(t))
  {
  }

  lemma AtParts(d: Day, clock: int)
    requires 0 <= clock < SECONDS_PER_DAY
    ensures DayOf(At(d, clock)) == d && ClockOf(At(d, clock)) == clock
  {
  }

  // ---- the series is exactly the pattern -----------------------------------------

  /** One step from a member lands on the next member and keeps the time of day. */
  lemma NextIsNext(r: Rule, start: Instant, cursor: Instant)
    requires Usable(r) && r.freq != Unset
    requires InPattern(r, DayOf(start), DayOf(cursor)) && ClockOf(cursor) == ClockOf(start)
    ensures IsNextDay(r, DayOf(start), DayOf(cursor), DayOf(Next(r, cursor, start)))
    ensures ClockOf(Next(r, cursor, start)) == ClockOf(start)
  {
    hide DayOf, ClockOf, AddDays, At, NextByDay, NextMonthly, WeekOf, WeekdayOf, FromDay;
    var s, c := DayOf(start), DayOf(cursor);
    match r.freq
    case Daily =>
      AddDaysParts(cursor, r.interval);
      MultiplesApart(c - s, r.interval);
    case Weekly =>
      if r.byDay == [] {
        AddDaysParts(cursor, 7 * r.interval);
        MultiplesApart(c - s, 7 * r.interval);
      } else {
        SplitInstant(cursor);
        AtParts(NextByDay(Selected(r.byDay), r.interval, c), ClockOf(cursor));
        ByDayNext(r, s, c);
      }
    case Monthly =>
      MonthlyNext(r, start, cursor);
  }

  lemma {:induction false} SeriesInPattern(r: Rule, start: Instant, k: nat)
    requires Usable(r) && r.freq != Unset
    ensures InPattern(r, DayOf(start), DayOf(Series(r, start, k)))
    ensures ClockOf(Series(r, start, k)) == ClockOf(start)
  {
    hide Next, FromDay, WeekOf, WeekdayOf, DayOf, ClockOf;
    if k == 0 {
      Euclid(0, r.interval, 0, 0);
      Euclid(0, 7 * r.interval, 0, 0);
    } else {
      SeriesInPattern(r, start, k - 1);
      NextIsNext(r, start, Series(r, start, k - 1));
    }
  }

  /** Occurrences are at least a day apart. */
  lemma {:induction false} SeriesApart(r: Rule, start: Instant, j: nat, k: nat)
    requires Usable(r) && r.freq != Unset
    requires j <= k
    ensures Series(r, start, j) + SECONDS_PER_DAY * (k - j) <= Series(r, start, k)
    decreases k - j
  {
    hide Next, InPattern;
    if j < k {
      SeriesApart(r, start, j, k - 1);
      SeriesInPattern(r, start, k - 1);
      SeriesInPattern(r, start, k);
      NextIsNext(r, start, Series(r, start, k - 1));
    }
  }

  /** Every day of the pattern is reached, after no more steps than days. */
  lemma {:induction false} SeriesReaches(r: Rule, start: Instant, d: Day, k: nat) returns (n: nat)
    requires Usable(r) && r.freq != Unset
    requires InPattern(r, DayOf(start), d) && DayOf(Series(r, start, k)) <= d
    ensures k <= n && DayOf(Series(r, start, n)) == d
    decreases d - DayOf(Series(r, start, k))
  {
    hide Next, InPattern, DayOf, ClockOf;
    n := k;
    var c := Series(r, start, k);
    if DayOf(c) < d {
      SeriesInPattern(r, start, k);
      NextIsNext(r, start, c);
      assert Series(r, start, k + 1) == Next(r, c, start);
      n := SeriesReaches(r, start, d, k + 1);
    }
  }

  /** Stepping enumerates the pattern: no date is missed and none is added. */
  lemma SeriesExact(r: Rule, start: Instant, t: Instant)
    requires Usable(r) && r.freq != Unset
    ensures (exists k: nat :: Series(r, start, k) == t)
            <==> ClockOf(t) == ClockOf(start) && InPattern(r, DayOf(start), DayOf(t))
  {
    hide Next, DayOf, ClockOf, FromDay, WeekOf, WeekdayOf;
    if k: nat :| Series(r, start, k) == t {
      SeriesInPattern(r, start, k);
    }
    if ClockOf(t) == ClockOf(start) && InPattern(r, DayOf(start), DayOf(t)) {
      var n := SeriesReaches(r, start, DayOf(t), 0);
      SeriesInPattern(r, start, n);
      SplitInstant(t);
      SplitInstant(Series(r, start, n));
    }
  }
}
