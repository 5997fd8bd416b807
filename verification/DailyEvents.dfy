/** Events the service can store whose stagings are easily told: the witnesses of exact conditions. */
module DailyEvents {
  import opened Options
  import opened Calendar
  import opened Recurrence
  import opened Expansion
  import opened RuleText
  import opened RoundTrip
  import opened Events

  lemma ZeroHasFourDigitYear()
    ensures FourDigitYear(0)
  {
  }

  /** Every n days, `count` times, or without end when `count` is zero. */
  function DailyRule(n: int, count: nat): (r: Rule)
    requires 1 <= n <= 2 && count <= 1
    ensures WellFormed(r)
  {
    ZeroHasFourDigitYear();
    Rule(Daily, n, [], count, 0)
  }

  /** An hour-long event that repeats by that rule from `start`. */
  function DailyEvent(id: Id, start: Instant, n: int, count: nat): Event
    requires 1 <= n <= 2 && count <= 1
  {
    Event(id, start, start + 3600, true, Print(DailyRule(n, count)))
  }

  lemma DailyEventRule(id: Id, start: Instant, n: int, count: nat)
    requires 1 <= n <= 2 && count <= 1
    ensures RuleOf(DailyEvent(id, start, n, count)) == Some(DailyRule(n, count))
    ensures start != 0 && start != -3600 ==> Storable(DailyEvent(id, start, n, count))
  {
    var r := DailyRule(n, count);
    assert Canonical(r) == r by { SortDaysMeaning([]); }
    hide Print, Parse, Parts, DailyRule;
    ParseOfPrint(r);
    PrintedSplits(r);
  }

  lemma {:induction false} DailySeries(start: Instant, n: int, count: nat, k: nat)
    requires 1 <= n <= 2 && count <= 1
    ensures Series(DailyRule(n, count), start, k) == start + SECONDS_PER_DAY * (n * k)
  {
    if k > 0 {
      DailySeries(start, n, count, k - 1);
    }
  }

  lemma DailyScanned(start: Instant, n: int, k: nat)
    requires 1 <= n <= 2 && k < MAX_OCCURRENCE_SCAN
    ensures Scanned(DailyRule(n, 0), start, k)
  {
  }

  // ---- the midpoint between two stagings -----------------------------------------

  /** One day, or two where half a day earlier there would be a zero instant. */
  function Spacing(at: Instant): (n: int)
    ensures 1 <= n <= 2
  {
    if at == 43200 || at == 39600 then 2 else 1
  }

  /** An event whose first two stagings are equally far from `at`. */
  function SplitEvent(id: Id, at: Instant): Event {
    DailyEvent(id, at - 43200 * Spacing(at), Spacing(at), 0)
  }

  lemma SplitEventParts(id: Id, at: Instant)
    ensures Storable(SplitEvent(id, at)) && SplitEvent(id, at).id == id
    ensures SplitEvent(id, at).startDate == at - 43200 * Spacing(at)
    ensures RuleOf(SplitEvent(id, at)) == Some(DailyRule(Spacing(at), 0))
  {
    DailyEventRule(id, at - 43200 * Spacing(at), Spacing(at), 0);
    hide Storable, RuleOf, DailyRule, Print;
  }

  /** Up to the midpoint a check-in is filed under the first staging, soon after it is not. */
  lemma SplitEventBoundary(id: Id, at: Instant, t: Instant)
    requires t <= at + 1000
    ensures FiledUnder(SplitEvent(id, at), t) == SplitEvent(id, at).startDate <==> t <= at
  {
    SplitEventParts(id, at);
    hide FiledUnder, Series, SplitEvent, RuleOf, DailyRule, Admitted, Storable, Spacing, InSeries;
    var e, n := SplitEvent(id, at), Spacing(at);
    var r := DailyRule(n, 0);
    DailySeries(e.startDate, n, 0, 0);
    DailySeries(e.startDate, n, 0, 1);
    DailyScanned(e.startDate, n, 0);
    DailyScanned(e.startDate, n, 1);
    assert t > at ==> InSnapWindow(r, e.startDate, t, 1);
    FiledUnderNearest(e, t);
    if FiledUnder(e, t) != e.startDate {
      var j: nat :| Scanned(r, e.startDate, j) && FiledUnder(e, t) == Series(r, e.startDate, j);
      DailySeries(e.startDate, n, 0, j);
    }
  }
}
