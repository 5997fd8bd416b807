/**
Expanding a rule inside a window: the loops of recurrence.go, each proved against
the step functions of `Recurrence`, and what their result means.
*/
module Expansion {
  import opened Options
  import opened Calendar
  import opened Recurrence

  // ---- the loops that take one step ----------------------------------------------

  /** The length of a month, read as the code does: the day before the next month starts. */
  lemma DaysInIsLastDay(y: int, m: int)
    requires 1 <= m <= 12
    ensures DayInMonth(FirstOf(y, m + 1) - 1) == FirstOf(y, m + 1) - FirstOf(y, m)
    ensures MonthLength(MonthNumber(y, m)) == FirstOf(y, m + 1) - FirstOf(y, m)
  {
    hide MonthStart, FromDay, MonthLength, FirstOf, MonthNumber, DayInMonth, MonthOf, ToDay, IsLeap, DaysIn;
    MonthsClosed(y, m);
    var n := MonthNumber(y, m);
    MonthStartStep(n);
    MonthUnique(FirstOf(y, m + 1) - 1, n, MonthLength(n));
  }

  /** A series on the 31st skips April and goes from 31 March to 31 May, in any year and from any anchor. */
  lemma ThirtyFirstSkipsApril(y: int, anchor: Instant, clock: int)
    requires 0 <= clock < SECONDS_PER_DAY && DayInMonth(DayOf(anchor)) == 31
    ensures NextMonthly(At(ToDay(Civil(y, 3, 31)), clock), anchor, 1) == At(ToDay(Civil(y, 5, 31)), ClockOf(anchor))
  {
    hide FromDay, ToDay, MonthLength, MonthStart, MonthOf, DayInMonth, DayOf, ClockOf, At, IsLeap, DaysIn;
    hide MonthNumber, NextMonthly, FirstOf, DaysBeforeMonth, YearStart, YearOf, MonthFrom;
    SpringMonths(y);
    CivilMonth(Civil(y, 3, 31));
    CivilMonth(Civil(y, 5, 31));
    AtParts(ToDay(Civil(y, 3, 31)), clock);
    SecondProbe(At(ToDay(Civil(y, 3, 31)), clock), anchor, 1, MonthNumber(y, 3), 31);
  }

  /** A civil date lies in its month, at its day. */
  lemma CivilMonth(c: Civil)
    requires ValidCivil(c)
    ensures MonthOf(ToDay(c)) == MonthNumber(c.year, c.month) && DayInMonth(ToDay(c)) == c.day
    ensures ToDay(c) == MonthStart(MonthNumber(c.year, c.month)) + c.day - 1
  {
    DayOfCivil(c);
    MonthNumberSplit(c.year, c.month);
    hide FromDay, YearStart, DaysBeforeMonth, DaysIn, YearOfMonth, MonthInYear, MonthNumber;
  }

  lemma SpringMonths(y: int)
    ensures MonthLength(MonthNumber(y, 3) + 1) == 30 && MonthLength(MonthNumber(y, 3) + 2) == 31
    ensures MonthNumber(y, 5) == MonthNumber(y, 3) + 2
    ensures ValidCivil(Civil(y, 3, 31)) && ValidCivil(Civil(y, 5, 31))
  {
    MonthNumberSplit(y, 4);
    MonthNumberSplit(y, 5);
  }

  /** A month that is too short is skipped for the next one that is long enough. */
  lemma SecondProbe(cursor: Instant, anchor: Instant, interval: int, n: int, day: int)
    requires interval >= 1 && n == MonthOf(DayOf(cursor)) && day == DayInMonth(DayOf(anchor))
    requires MonthLength(n + interval) < day <= MonthLength(n + 2 * interval)
    ensures NextMonthly(cursor, anchor, interval) == At(MonthStart(n + 2 * interval) + day - 1, ClockOf(anchor))
  {
    hide MonthOf, DayInMonth, MonthLength, MonthStart, DayOf, ClockOf, At;
    assert n + interval + interval == n + 2 * interval;
    assert Probe(n + interval, day, interval, MONTH_PROBES - 1) == Some(n + 2 * interval);
  }

  lemma CrossesWeek(d: Day, n: int)
    requires 1 <= n <= 6
    ensures WeekdayOf(d + n) < WeekdayOf(d) <==> WeekdayOf(d) + n >= 7
  {
  }

  method ComputeNextByDay(byDay: seq<Weekday>, interval: int, cursor: Instant) returns (t: Instant)
    ensures t == At(NextByDay(Selected(byDay), interval, DayOf(cursor)), ClockOf(cursor))
  {
    ghost var d, sel := DayOf(cursor), Selected(byDay);
    var selected := SelectedDays(byDay);
    hide DayOf, ClockOf, At, Selected, AddDays, WeekdayOf;
    for offset := 1 to 7
      invariant offset <= 7 - WeekdayOf(d)
      invariant FirstOn(sel, d + 1, 6 - WeekdayOf(d)) == FirstOn(sel, d + offset, 7 - WeekdayOf(d) - offset)
    {
      var candidate := AddDays(cursor, offset);
      AddDaysParts(cursor, offset);
      CrossesWeek(d, offset);
      if WeekdayOf(DayOf(candidate)) < WeekdayOf(DayOf(cursor)) {
        break;
      }
      if WeekdayOf(DayOf(candidate)) in selected {
        return candidate;
      }
    }
    assert FirstOn(sel, d + 1, 6 - WeekdayOf(d)).None?;
    var back: int := WeekdayOf(DayOf(cursor));
    var weekStart := AddDays(cursor, -back);
    AddDaysParts(cursor, -back);
    var next := AddDays(weekStart, 7 * interval);
    AddDaysParts(weekStart, 7 * interval);
    ghost var jump := WeekStart(d) + 7 * interval;
    for offset := 0 to 7
      invariant FirstOn(sel, jump, 7) == FirstOn(sel, jump + offset, 7 - offset)
    {
      var candidate := AddDays(next, offset);
      AddDaysParts(next, offset);
      if WeekdayOf(DayOf(candidate)) in selected {
        return candidate;
      }
    }
    return next;
  }

  method ComputeNextMonthly(cursor: Instant, anchor: Instant, interval: int) returns (t: Instant)
    requires interval >= 1
    ensures t == NextMonthly(cursor, anchor, interval)
  {
    hide YearOf, MonthFrom, DaysBeforeMonth, YearStart, DaysIn;
    var day := FromDay(DayOf(anchor)).day;
    var year, month := FromDay(DayOf(cursor)).year, FromDay(DayOf(cursor)).month;
    CivilOfDay(DayOf(cursor));
    ghost var n := MonthOf(DayOf(cursor));
    var step := 0;
    while step < 48
      invariant 0 <= step <= 48
      invariant 1 <= month <= 12
      invariant Probe(n, day, interval, MONTH_PROBES) == Probe(MonthNumber(year, month), day, interval, 48 - step)
    {
      ghost var m := MonthNumber(year, month);
      month := month + interval;
      while month > 12
        invariant 1 <= month
        invariant MonthNumber(year, month) == m + interval
      {
        month := month - 12;
        year := year + 1;
      }
      MonthNumberSplit(year, month);
      if day <= DaysIn(year, month) {
        return At(ToDay(Civil(year, month, day)), ClockOf(anchor));
      }
      step := step + 1;
    }
    return At(MonthStart(MonthOf(DayOf(cursor)) + interval) + FromDay(DayOf(cursor)).day - 1, ClockOf(cursor));
  }

  method ComputeNext(r: Rule, cursor: Instant, anchor: Instant) returns (t: Instant)
    requires Usable(r)
    ensures t == Next(r, cursor, anchor)
  {
    match r.freq
    case Daily => t := AddDays(cursor, r.interval);
    case Weekly =>
      if |r.byDay| == 0 {
        t := AddDays(cursor, 7 * r.interval);
      } else {
        t := ComputeNextByDay(r.byDay, r.interval, cursor);
      }
    case Monthly => t := ComputeNextMonthly(cursor, anchor, r.interval);
    case Unset => t := AddDays(cursor, 1);
  }

  // ---- the window ----------------------------------------------------------------

  /** Occurrence k survives COUNT, UNTIL and the window [from, to). */
  predicate Admitted(r: Rule, start: Instant, from: Instant, to: Instant, k: nat) {
    var c := Series(r, start, k);
    && InSeries(r, start, k)
    && from <= c < to
  }

  /** Occurrence k belongs to the series as COUNT and UNTIL bound it. */
  predicate InSeries(r: Rule, start: Instant, k: nat) {
    && (r.count > 0 ==> k < r.count)
    && (r.until != 0 ==> Series(r, start, k) <= r.until)
  }

  /** The admitted ones of the first n occurrences, in order. */
  function Window(r: Rule, start: Instant, from: Instant, to: Instant, n: nat): seq<Instant> {
    if n == 0 then []
    else Window(r, start, from, to, n - 1)
         + (if Admitted(r, start, from, to, n - 1) then [Series(r, start, n - 1)] else [])
  }

  function Take<T>(s: seq<T>, n: nat): seq<T> {
    if |s| <= n then s else s[..n]
  }

  /** The first `limit` admitted occurrences among the first 5000. */
  function Expand(r: Rule, start: Instant, from: Instant, to: Instant, limit: int): seq<Instant> {
    if limit <= 0 || r.freq == Unset then []
    else Take(Window(r, start, from, to, MAX_OCCURRENCE_SCAN), limit)
  }

  lemma {:induction false} WindowStops(r: Rule, start: Instant, from: Instant, to: Instant, n: nat, m: nat)
    requires n <= m
    requires forall k: nat :: n <= k < m ==> !Admitted(r, start, from, to, k)
    ensures Window(r, start, from, to, m) == Window(r, start, from, to, n)
    decreases m - n
  {
    if n < m {
      WindowStops(r, start, from, to, n, m - 1);
    }
  }

  lemma {:induction false} WindowPrefix(r: Rule, start: Instant, from: Instant, to: Instant, n: nat, m: nat)
    requires n <= m
    ensures Window(r, start, from, to, n) <= Window(r, start, from, to, m)
    decreases m - n
  {
    if n < m {
      WindowPrefix(r, start, from, to, n, m - 1);
    }
  }

  /** Once an occurrence is past UNTIL or past the window, so is every later one. */
  lemma NothingLater(r: Rule, start: Instant, from: Instant, to: Instant, n: nat)
    requires Usable(r) && r.freq != Unset
    requires to <= Series(r, start, n) || (r.until != 0 && r.until < Series(r, start, n)) || (0 < r.count <= n)
    ensures forall k: nat :: n <= k ==> !Admitted(r, start, from, to, k)
  {
    forall k: nat | n <= k ensures !Admitted(r, start, from, to, k) {
      SeriesApart(r, start, n, k);
    }
  }

  /** The scan with its five exits returns exactly the first `limit` admitted occurrences. */
  method Occurrences(r: Rule, start: Instant, from: Instant, to: Instant, limit: int) returns (out: seq<Instant>)
    requires Usable(r)
    ensures out == Expand(r, start, from, to, limit)
  {
    hide Next, DayOf, ClockOf, InPattern;
    out := [];
    if limit <= 0 || r.freq == Unset {
      return;
    }
    var emitted, scans, cursor := 0, 0, start;
    while scans < MAX_OCCURRENCE_SCAN
      invariant 0 <= scans <= MAX_OCCURRENCE_SCAN
      invariant cursor == Series(r, start, scans) && emitted == scans
      invariant out == Window(r, start, from, to, scans) && |out| < limit
    {
      if (r.until != 0 && cursor > r.until) || (r.count > 0 && emitted >= r.count) || cursor >= to {
        NothingLater(r, start, from, to, scans);
        WindowStops(r, start, from, to, scans, MAX_OCCURRENCE_SCAN);
        return;
      }
      emitted := emitted + 1;
      if cursor >= from {
        out := out + [cursor];
        if |out| >= limit {
          WindowPrefix(r, start, from, to, scans + 1, MAX_OCCURRENCE_SCAN);
          return;
        }
      }
      cursor := ComputeNext(r, cursor, start);
      scans := scans + 1;
    }
  }

  // ---- what an expansion means ---------------------------------------------------

  predicate Increasing(s: seq<Instant>) {
    forall i, j :: 0 <= i < j < |s| ==> s[i] < s[j]
  }

  /** A window lists its members in strictly increasing order, and lists every one. */
  lemma {:induction false} WindowMembers(r: Rule, start: Instant, from: Instant, to: Instant, n: nat)
    requires Usable(r) && r.freq != Unset
    ensures Increasing(Window(r, start, from, to, n))
    ensures forall t :: t in Window(r, start, from, to, n)
              <==> exists k: nat :: k < n && Admitted(r, start, from, to, k) && Series(r, start, k) == t
  {
    hide Series, Usable, Admitted;
    if n > 0 {
      var w := Window(r, start, from, to, n - 1);
      WindowMembers(r, start, from, to, n - 1);
      forall i | 0 <= i < |w| ensures w[i] < Series(r, start, n - 1) {
        assert w[i] in w;
        var k: nat :| k < n - 1 && Series(r, start, k) == w[i];
        SeriesApart(r, start, k, n - 1);
      }
    }
  }

  /** An adequate limit loses nothing: the window [a, c) is [a, b) followed by [b, c). */
  lemma {:induction false} WindowSplit(r: Rule, start: Instant, a: Instant, b: Instant, c: Instant, n: nat)
    requires Usable(r) && r.freq != Unset
    requires a <= b <= c
    ensures Window(r, start, a, c, n) == Window(r, start, a, b, n) + Window(r, start, b, c, n)
  {
    hide Series, Usable, InSeries;
    if n > 0 {
      WindowSplit(r, start, a, b, c, n - 1);
      if Series(r, start, n - 1) < b {
        forall k: nat | 0 <= k < n - 1 ensures !Admitted(r, start, b, c, k) {
          SeriesApart(r, start, k, n - 1);
        }
        WindowStops(r, start, b, c, 0, n - 1);
      }
    }
  }

  lemma {:induction false} WindowSize(r: Rule, start: Instant, from: Instant, to: Instant, n: nat)
    ensures |Window(r, start, from, to, n)| <= n
  {
    if n > 0 {
      WindowSize(r, start, from, to, n - 1);
    }
  }

  /** Whatever the limit, the window [a, c) shows what [a, b) and then [b, c) show, cut to the limit. */
  lemma ExpandSplit(r: Rule, start: Instant, a: Instant, b: Instant, c: Instant, limit: int)
    requires Usable(r) && a <= b <= c && limit >= 1
    ensures Expand(r, start, a, c, limit) == Take(Expand(r, start, a, b, limit) + Expand(r, start, b, c, limit), limit)
  {
    hide Window;
    if r.freq != Unset {
      WindowSplit(r, start, a, b, c, MAX_OCCURRENCE_SCAN);
    }
  }

  /** The number of the first occurrence that COUNT or the scan ceiling leaves out. */
  function ScanEnd(r: Rule): nat {
    if 0 < r.count < MAX_OCCURRENCE_SCAN then r.count else MAX_OCCURRENCE_SCAN
  }

  /**
  An expansion is, date for date, the pattern the rule names, cut to the window, to UNTIL
  and to COUNT, as far as occurrence 5000; a smaller limit keeps its earliest dates.
  */
  lemma ExpandIsPattern(r: Rule, start: Instant, from: Instant, to: Instant, limit: int, t: Instant)
    requires Usable(r) && r.freq != Unset
    requires limit >= 1
    ensures var all := Expand(r, start, from, to, MAX_OCCURRENCE_SCAN);
            Expand(r, start, from, to, limit) == Take(all, limit) && Increasing(all)
    ensures t in Expand(r, start, from, to, MAX_OCCURRENCE_SCAN)
            <==> && from <= t < to
                 && (r.until != 0 ==> t <= r.until)
                 && ClockOf(t) == ClockOf(start)
                 && InPattern(r, DayOf(start), DayOf(t))
                 && t < Series(r, start, ScanEnd(r))
  {
    hide Next, DayOf, ClockOf, InPattern, Window;
    WindowSize(r, start, from, to, MAX_OCCURRENCE_SCAN);
    WindowMembers(r, start, from, to, MAX_OCCURRENCE_SCAN);
    SeriesExact(r, start, t);
    if k: nat :| k < ScanEnd(r) && Series(r, start, k) == t {
      SeriesApart(r, start, k, ScanEnd(r));
    } else if k: nat :| Series(r, start, k) == t {
      SeriesApart(r, start, ScanEnd(r), k);
    }
  }
}
