/**
The next dates of all events together: each event is expanded only as far as the
listing is long, and the lemmas prove that nothing is lost by that.
*/
module Upcoming {
  import opened Calendar
  import opened Recurrence
  import opened Expansion
  import opened RuleText
  import opened Events
  import opened DailyEvents
  import opened Listing

  /** One concrete date an event happens on. */
  datatype Staging = Staging(id: Id, startsAt: Instant, endsAt: Instant, isRecurring: bool)

  const MAX_EVENTS_READ: nat := 200

  function StagingAt(e: Event, t: Instant): Staging {
    Staging(e.id, t, t + (e.endDate - e.startDate), e.isRecurring)
  }

  function StagingsAt(e: Event, dates: seq<Instant>): (s: seq<Staging>)
    ensures |s| == |dates|
  {
    seq(|dates|, i requires 0 <= i < |dates| => StagingAt(e, dates[i]))
  }

  /** The stagings of every event within a year of now, at most `limit` of each. */
  function Stagings(events: seq<Event>, now: Instant, limit: int): seq<Staging> {
    if events == [] then []
    else
      var e := events[|events| - 1];
      Stagings(events[..|events| - 1], now, limit)
      + StagingsAt(e, OccurrencesOf(e, now, now + OCCURRENCE_HORIZON, limit))
  }

  /** The stagings of every event, none left out. */
  function AllStagings(events: seq<Event>, now: Instant): seq<Staging> {
    Stagings(events, now, MAX_OCCURRENCE_SCAN)
  }

  function Dates(s: seq<Staging>): (d: seq<Instant>)
    ensures |d| == |s|
  {
    seq(|s|, i requires 0 <= i < |s| => s[i].startsAt)
  }

  /** How many dates are not after x. */
  function CountUpTo(d: seq<Instant>, x: Instant): nat {
    if d == [] then 0
    else CountUpTo(d[..|d| - 1], x) + (if d[|d| - 1] <= x then 1 else 0)
  }

  predicate Ascending(d: seq<Instant>) {
    forall i, j :: 0 <= i < j < |d| ==> d[i] <= d[j]
  }

  function InsertDate(t: Instant, d: seq<Instant>): seq<Instant> {
    if d == [] then [t]
    else if d[|d| - 1] <= t then d + [t]
    else InsertDate(t, d[..|d| - 1]) + [d[|d| - 1]]
  }

  function SortDates(d: seq<Instant>): seq<Instant> {
    if d == [] then [] else InsertDate(d[|d| - 1], SortDates(d[..|d| - 1]))
  }

  function Min(a: int, b: int): int {
    if a <= b then a else b
  }

  // ---- counting ------------------------------------------------------------------

  lemma {:induction false} CountOfConcat(a: seq<Instant>, b: seq<Instant>, x: Instant)
    ensures CountUpTo(a + b, x) == CountUpTo(a, x) + CountUpTo(b, x)
  {
    if b == [] {
      assert a + b == a;
    } else {
      CountOfConcat(a, b[..|b| - 1], x);
      assert (a + b)[..|a + b| - 1] == a + b[..|b| - 1];
    }
  }

  lemma {:induction false} CountAtMostLength(d: seq<Instant>, x: Instant)
    ensures CountUpTo(d, x) <= |d|
    ensures (forall i :: 0 <= i < |d| ==> d[i] <= x) ==> CountUpTo(d, x) == |d|
  {
    if d != [] {
      CountAtMostLength(d[..|d| - 1], x);
    }
  }

  /** Cutting an ascending list to n entries keeps its n earliest. */
  lemma {:induction false} CountOfTake(d: seq<Instant>, n: nat, x: Instant)
    requires Ascending(d)
    ensures CountUpTo(Take(d, n), x) == Min(CountUpTo(d, x), n)
  {
    CountAtMostLength(d, x);
    if |d| > n {
      var init := d[..|d| - 1];
      CountOfTake(init, n, x);
      assert Take(d, n) == Take(init, n);
      CountAtMostLength(init, x);
    }
  }

  /** In an ascending list, position i is at most x exactly when more than i entries are. */
  lemma {:induction false} CountLocates(d: seq<Instant>, i: nat, x: Instant)
    requires Ascending(d) && i < |d|
    ensures d[i] <= x <==> CountUpTo(d, x) > i
  {
    var init := d[..|d| - 1];
    CountAtMostLength(init, x);
    if i < |init| {
      CountLocates(init, i, x);
      if d[|d| - 1] <= x { CountAtMostLength(init, x); }
    }
  }

  /** An ascending list is determined by its length and its counts. */
  lemma CountsDetermine(a: seq<Instant>, b: seq<Instant>)
    requires Ascending(a) && Ascending(b) && |a| == |b|
    requires forall x :: CountUpTo(a, x) == CountUpTo(b, x)
    ensures a == b
  {
    hide Ascending, CountUpTo;
    forall i | 0 <= i < |a| ensures a[i] == b[i] {
      CountLocates(a, i, b[i]);
      CountLocates(b, i, b[i]);
      CountLocates(a, i, a[i]);
      CountLocates(b, i, a[i]);
    }
  }

  lemma CountSnoc(d: seq<Instant>, t: Instant, x: Instant)
    ensures CountUpTo(d + [t], x) == CountUpTo(d, x) + (if t <= x then 1 else 0)
  {
    assert (d + [t])[..|d|] == d;
  }

  lemma {:induction false} InsertDateCounts(t: Instant, d: seq<Instant>, x: Instant)
    ensures CountUpTo(InsertDate(t, d), x) == CountUpTo(d, x) + (if t <= x then 1 else 0)
    ensures |InsertDate(t, d)| == |d| + 1
  {
    hide CountUpTo;
    CountSnoc(d, t, x);
    if d == [] {
      assert d + [t] == [t];
    } else if d[|d| - 1] > t {
      var init, last := d[..|d| - 1], d[|d| - 1];
      InsertDateCounts(t, init, x);
      CountSnoc(InsertDate(t, init), last, x);
      CountSnoc(init, last, x);
      assert init + [last] == d;
    }
  }

  lemma {:induction false} InsertDateAscends(t: Instant, d: seq<Instant>)
    requires Ascending(d)
    ensures Ascending(InsertDate(t, d))
    ensures forall y :: y in InsertDate(t, d) <==> y in d || y == t
  {
    if d == [] || d[|d| - 1] <= t {
    } else {
      var n := |d| - 1;
      var init := d[..n];
      InsertDateAscends(t, init);
      var r := InsertDate(t, init);
      assert forall y :: y in d <==> y in init || y == d[n];
      forall i | 0 <= i < |r| ensures r[i] <= d[n] {
        assert r[i] in r;
        assert r[i] == t || r[i] in init;
      }
    }
  }

  lemma {:induction false} SortDatesMeaning(d: seq<Instant>, x: Instant)
    ensures Ascending(SortDates(d)) && |SortDates(d)| == |d|
    ensures CountUpTo(SortDates(d), x) == CountUpTo(d, x)
  {
    hide Ascending, InsertDate;
    if d == [] {
      EmptyAscends();
    } else {
      var init := d[..|d| - 1];
      SortDatesMeaning(init, x);
      InsertDateAscends(d[|d| - 1], SortDates(init));
      InsertDateCounts(d[|d| - 1], SortDates(init), x);
    }
  }

  lemma EmptyAscends()
    ensures Ascending([])
  {
  }

  // ---- arrangements --------------------------------------------------------------

  predicate ByStart(s: seq<Staging>) {
    forall i, j :: 0 <= i < j < |s| ==> s[i].startsAt <= s[j].startsAt
  }

  function Place(e: Staging, s: seq<Staging>): seq<Staging> {
    if s == [] || s[|s| - 1].startsAt <= e.startsAt then s + [e]
    else Place(e, s[..|s| - 1]) + [s[|s| - 1]]
  }

  lemma {:induction false} PlaceKeeps(e: Staging, s: seq<Staging>)
    ensures multiset(Place(e, s)) == multiset(s) + multiset{e}
    ensures forall x :: x in Place(e, s) ==> x == e || x in s
  {
    if s != [] && s[|s| - 1].startsAt > e.startsAt {
      var init, last := s[..|s| - 1], s[|s| - 1];
      PlaceKeeps(e, init);
      assert s == init + [last];
    }
  }

  lemma {:induction false} PlaceMeaning(e: Staging, s: seq<Staging>)
    requires ByStart(s)
    ensures ByStart(Place(e, s)) && multiset(Place(e, s)) == multiset(s) + multiset{e}
  {
    PlaceKeeps(e, s);
    if s != [] && s[|s| - 1].startsAt > e.startsAt {
      var n := |s| - 1;
      var r := Place(e, s[..n]);
      PlaceMeaning(e, s[..n]);
      PlaceKeeps(e, s[..n]);
      hide Place;
      assert forall x :: x in s[..n] ==> x.startsAt <= s[n].startsAt;
      SnocByStart(r, s[n]);
    }
  }

  lemma SnocByStart(s: seq<Staging>, e: Staging)
    requires ByStart(s) && forall x :: x in s ==> x.startsAt <= e.startsAt
    ensures ByStart(s + [e])
  {
  }

  /** The library sort on start alone: equal starts may come in any order. */
  method SortByStart(s: seq<Staging>) returns (out: seq<Staging>)
    ensures multiset(out) == multiset(s) && ByStart(out)
  {
    out := [];
    for i := 0 to |s|
      invariant multiset(out) == multiset(s[..i]) && ByStart(out)
    {
      hide Place, ByStart;
      PlaceMeaning(s[i], out);
      assert s[..i + 1] == s[..i] + [s[i]];
      out := Place(s[i], out);
    }
    assert s[..|s|] == s;
  }

  lemma DatesOfConcat(a: seq<Staging>, b: seq<Staging>)
    ensures Dates(a + b) == Dates(a) + Dates(b)
  {
  }

  lemma MultisetSize<T>(s: seq<T>, t: seq<T>)
    requires multiset(s) == multiset(t)
    ensures |s| == |t|
  {
    assert |s| == |multiset(s)| == |multiset(t)| == |t|;
  }

  lemma TakeOut<T>(t: seq<T>, e: T) returns (before: seq<T>, after: seq<T>)
    requires e in multiset(t)
    ensures t == before + [e] + after
    ensures multiset(before + after) == multiset(t) - multiset{e}
  {
    var i :| 0 <= i < |t| && t[i] == e;
    before, after := t[..i], t[i + 1..];
    assert t == before + [e] + after;
  }

  /** Rearranging stagings changes no count of their dates. */
  lemma {:induction false} RearrangedCounts(s: seq<Staging>, t: seq<Staging>, x: Instant)
    requires multiset(s) == multiset(t)
    ensures CountUpTo(Dates(s), x) == CountUpTo(Dates(t), x)
  {
    hide CountUpTo, Dates;
    MultisetSize(s, t);
    if s != [] {
      var init, last := s[..|s| - 1], s[|s| - 1];
      assert s == init + [last];
      assert last in multiset(s);
      var before, after := TakeOut(t, last);
      RearrangedCounts(init, before + after, x);
      CountLast(before, last, after, x);
      CountLast(init, last, [], x);
      assert init + [last] + [] == s;
      DatesOfConcat(before, after);
      CountOfConcat(Dates(before), Dates(after), x);
      NoDates(x);
    } else {
      assert t == [];
    }
  }

  lemma NoDates(x: Instant)
    ensures CountUpTo(Dates([]), x) == 0
  {
  }

  lemma CountLast(a: seq<Staging>, e: Staging, b: seq<Staging>, x: Instant)
    ensures CountUpTo(Dates(a + [e] + b), x)
            == CountUpTo(Dates(a), x) + (if e.startsAt <= x then 1 else 0) + CountUpTo(Dates(b), x)
  {
    DatesOfConcat(a + [e], b);
    DatesOfConcat(a, [e]);
    CountOfConcat(Dates(a + [e]), Dates(b), x);
    CountOfConcat(Dates(a), Dates([e]), x);
    assert Dates([e]) == [e.startsAt];
    assert CountUpTo([e.startsAt], x) == CountUpTo([], x) + (if e.startsAt <= x then 1 else 0);
  }

  lemma {:induction false} StagingsOfConcat(a: seq<Event>, b: seq<Event>, now: Instant)
    ensures AllStagings(a + b, now) == AllStagings(a, now) + AllStagings(b, now)
  {
    hide OccurrencesOf, StagingsAt;
    if b == [] {
      assert a + b == a;
    } else {
      var n := |b| - 1;
      StagingsOfConcat(a, b[..n], now);
      assert (a + b)[..|a| + n] == a + b[..n];
    }
  }

  /** Rearranging events only rearranges their stagings. */
  lemma {:induction false} RearrangedEvents(s: seq<Event>, t: seq<Event>, now: Instant)
    requires multiset(s) == multiset(t)
    ensures multiset(AllStagings(s, now)) == multiset(AllStagings(t, now))
  {
    hide Stagings;
    MultisetSize(s, t);
    if s != [] {
      var init, last := s[..|s| - 1], s[|s| - 1];
      assert s == init + [last];
      assert last in multiset(s);
      var before, after := TakeOut(t, last);
      RearrangedEvents(init, before + after, now);
      StagingsOfConcat(init, [last], now);
      StagingsOfConcat(before, after, now);
      StagingsOfConcat(before + [last], after, now);
      StagingsOfConcat(before, [last], now);
    } else {
      assert t == [];
    }
  }

  /** The sorted dates do not depend on how the stagings are arranged. */
  lemma RearrangedDates(s: seq<Staging>, t: seq<Staging>)
    requires multiset(s) == multiset(t)
    ensures SortDates(Dates(s)) == SortDates(Dates(t))
  {
    hide CountUpTo, SortDates, Dates;
    MultisetSize(s, t);
    SortDatesMeaning(Dates(s), 0);
    SortDatesMeaning(Dates(t), 0);
    forall x ensures CountUpTo(SortDates(Dates(s)), x) == CountUpTo(SortDates(Dates(t)), x) {
      SortDatesMeaning(Dates(s), x);
      SortDatesMeaning(Dates(t), x);
      RearrangedCounts(s, t, x);
    }
    CountsDetermine(SortDates(Dates(s)), SortDates(Dates(t)));
  }

  // ---- nothing is lost -----------------------------------------------------------

  /** An event's expansion is ascending, and a smaller limit only cuts it short. */
  lemma ExpansionCut(e: Event, now: Instant, limit: int)
    requires limit >= 1
    ensures var full := OccurrencesOf(e, now, now + OCCURRENCE_HORIZON, MAX_OCCURRENCE_SCAN);
            Ascending(full) && OccurrencesOf(e, now, now + OCCURRENCE_HORIZON, limit) == Take(full, limit)
  {
    hide Parse, Window, Usable;
    if RuleOf(e).Some? {
      RuleIsUsable(e);
      var r := RuleOf(e).value;
      WindowMembers(r, e.startDate, now, now + OCCURRENCE_HORIZON, MAX_OCCURRENCE_SCAN);
      WindowSize(r, e.startDate, now, now + OCCURRENCE_HORIZON, MAX_OCCURRENCE_SCAN);
    }
  }

  lemma DatesOfStagingsAt(e: Event, d: seq<Instant>)
    ensures Dates(StagingsAt(e, d)) == d
  {
  }

  /** The dates up to x among the cut expansions, and among the full ones, agree up to `limit`. */
  lemma {:induction false} CutCounts(events: seq<Event>, now: Instant, limit: int, x: Instant)
    requires limit >= 1
    ensures Min(CountUpTo(Dates(Stagings(events, now, limit)), x), limit)
            == Min(CountUpTo(Dates(AllStagings(events, now)), x), limit)
    ensures Min(|Stagings(events, now, limit)|, limit) == Min(|AllStagings(events, now)|, limit)
    ensures multiset(Stagings(events, now, limit)) <= multiset(AllStagings(events, now))
  {
    hide OccurrencesOf, CountUpTo, StagingsAt, Dates;
    if events != [] {
      var n := |events| - 1;
      var e, init := events[n], events[..n];
      CutCounts(init, now, limit, x);
      var full := OccurrencesOf(e, now, now + OCCURRENCE_HORIZON, MAX_OCCURRENCE_SCAN);
      ExpansionCut(e, now, limit);
      ExpansionCut(e, now, MAX_OCCURRENCE_SCAN);
      CountOfTake(full, limit, x);
      LastEventCounts(init, e, now, limit, x);
      LastEventCounts(init, e, now, MAX_OCCURRENCE_SCAN, x);
      assert init + [e] == events;
      StagingsPrefix(e, full, limit);
    }
  }

  lemma LastEventCounts(init: seq<Event>, e: Event, now: Instant, limit: int, x: Instant)
    ensures var d := OccurrencesOf(e, now, now + OCCURRENCE_HORIZON, limit);
            CountUpTo(Dates(Stagings(init + [e], now, limit)), x)
            == CountUpTo(Dates(Stagings(init, now, limit)), x) + CountUpTo(d, x)
    ensures Stagings(init + [e], now, limit)
            == Stagings(init, now, limit) + StagingsAt(e, OccurrencesOf(e, now, now + OCCURRENCE_HORIZON, limit))
  {
    hide OccurrencesOf, CountUpTo, StagingsAt, Dates;
    var d := OccurrencesOf(e, now, now + OCCURRENCE_HORIZON, limit);
    assert (init + [e])[..|init|] == init;
    DatesOfConcat(Stagings(init, now, limit), StagingsAt(e, d));
    DatesOfStagingsAt(e, d);
    CountOfConcat(Dates(Stagings(init, now, limit)), d, x);
  }

  lemma StagingsPrefix(e: Event, d: seq<Instant>, n: nat)
    ensures multiset(StagingsAt(e, Take(d, n))) <= multiset(StagingsAt(e, d))
  {
    if |d| > n {
      assert StagingsAt(e, d) == StagingsAt(e, Take(d, n)) + StagingsAt(e, d[n..]);
    }
  }

  // ---- the listing ---------------------------------------------------------------

  predicate MayStillHappen(e: Event, now: Instant) {
    e.startDate >= now || e.isRecurring
  }

  function Matching(stored: seq<Event>, now: Instant): seq<Event> {
    if stored == [] then []
    else
      var init := Matching(stored[..|stored| - 1], now);
      if MayStillHappen(stored[|stored| - 1], now) then init + [stored[|stored| - 1]] else init
  }

  predicate ByStartDate(s: seq<Event>) {
    forall i, j :: 0 <= i < j < |s| ==> s[i].startDate <= s[j].startDate
  }

  /** What the query may answer: the first 200 of the matching events by start date, equal starts in any order. */
  ghost predicate IsQueryAnswer(stored: seq<Event>, now: Instant, read: seq<Event>) {
    exists sorted :: multiset(sorted) == multiset(Matching(stored, now)) && ByStartDate(sorted)
      && read == Take(sorted, MAX_EVENTS_READ)
  }

  lemma {:induction false} MatchingMembers(stored: seq<Event>, now: Instant)
    requires DistinctIds(stored)
    ensures DistinctIds(Matching(stored, now)) && forall e :: e in Matching(stored, now) ==> e in stored
  {
    hide MayStillHappen;
    if stored != [] {
      MatchingMembers(stored[..|stored| - 1], now);
      var last := stored[|stored| - 1];
      assert forall e :: e in stored[..|stored| - 1] ==> e.id != last.id;
    }
  }

  method QueryEvents(stored: seq<Event>, now: Instant) returns (read: seq<Event>)
    requires DistinctIds(stored)
    ensures IsQueryAnswer(stored, now, read)
  {
    MatchingMembers(stored, now);
    hide Matching;
    var sorted := SortSlice(Matching(stored, now));
    assert ByStartDate(sorted);
    read := Take(sorted, MAX_EVENTS_READ);
  }

  method ListStagings(read: seq<Event>, now: Instant, limit: int) returns (out: seq<Staging>)
    ensures out == Stagings(read, now, limit)
  {
    hide OccurrencesOf;
    out := [];
    for i := 0 to |read|
      invariant out == Stagings(read[..i], now, limit)
    {
      assert read[..i + 1][..i] == read[..i];
      var e := read[i];
      var dates := ExpandEvent(e, now, now + OCCURRENCE_HORIZON, limit);
      ghost var before := out;
      for j := 0 to |dates|
        invariant out == before + StagingsAt(e, dates)[..j]
      {
        out := out + [StagingAt(e, dates[j])];
      }
    }
    assert read[..|read|] == read;
  }

  /** The `limit` earliest dates of all the full expansions of the events read. */
  method NextDates(stored: seq<Event>, now: Instant, limit: int) returns (out: seq<Staging>, ghost read: seq<Event>)
    requires DistinctIds(stored)
    ensures IsQueryAnswer(stored, now, read)
    ensures var l := if limit <= 0 then 5 else limit;
            Dates(out) == Take(SortDates(Dates(AllStagings(read, now))), l)
    ensures multiset(out) <= multiset(AllStagings(read, now))
  {
    hide IsQueryAnswer, Stagings, ByStart, OccurrencesOf;
    var l := if limit <= 0 then 5 else limit;
    var events := QueryEvents(stored, now);
    read := events;
    var listed := ListStagings(events, now, l);
    var sorted := SortByStart(listed);
    EarliestOfAll(events, now, l, sorted);
    out := sorted;
    if |out| > l {
      assert out == out[..l] + out[l..];
      out := out[..l];
    }
  }

  /** Whatever way the cut expansions are sorted, their first `limit` dates are the earliest of all. */
  lemma EarliestOfAll(events: seq<Event>, now: Instant, limit: int, sorted: seq<Staging>)
    requires limit >= 1 && ByStart(sorted)
    requires multiset(sorted) == multiset(Stagings(events, now, limit))
    ensures Dates(Take(sorted, limit)) == Take(SortDates(Dates(AllStagings(events, now))), limit)
    ensures multiset(sorted) <= multiset(AllStagings(events, now))
  {
    hide Stagings, OccurrencesOf, CountUpTo, SortDates;
    var all := Dates(AllStagings(events, now));
    var a, b := Dates(Take(sorted, limit)), Take(SortDates(all), limit);
    MultisetSize(sorted, Stagings(events, now, limit));
    CutCounts(events, now, limit, 0);
    SortDatesMeaning(all, 0);
    assert Ascending(Dates(sorted));
    assert a == Take(Dates(sorted), limit);
    forall x ensures CountUpTo(a, x) == CountUpTo(b, x) {
      CountOfTake(Dates(sorted), limit, x);
      RearrangedCounts(sorted, Stagings(events, now, limit), x);
      CutCounts(events, now, limit, x);
      SortDatesMeaning(all, x);
      CountOfTake(SortDates(all), limit, x);
    }
    CountsDetermine(a, b);
  }

  /** With at most 200 candidates the query leaves out no date of any stored event. */
  lemma ReadingLosesNothing(stored: seq<Event>, now: Instant, read: seq<Event>)
    requires IsQueryAnswer(stored, now, read) && |Matching(stored, now)| <= MAX_EVENTS_READ
    ensures SortDates(Dates(AllStagings(read, now))) == SortDates(Dates(AllStagings(stored, now)))
  {
    hide Stagings, SortDates, Matching, Dates;
    var sorted :| multiset(sorted) == multiset(Matching(stored, now)) && ByStartDate(sorted)
      && read == Take(sorted, MAX_EVENTS_READ);
    MultisetSize(sorted, Matching(stored, now));
    RearrangedEvents(read, Matching(stored, now), now);
    RearrangedDates(AllStagings(read, now), AllStagings(Matching(stored, now), now));
    MatchingKeepsStagings(stored, now);
  }

  lemma {:induction false} MatchingKeepsStagings(stored: seq<Event>, now: Instant)
    ensures AllStagings(Matching(stored, now), now) == AllStagings(stored, now)
  {
    hide OccurrencesOf, Stagings;
    if stored != [] {
      var n := |stored| - 1;
      var init, e := stored[..n], stored[n];
      MatchingKeepsStagings(init, now);
      assert stored == init + [e];
      StagingsOfConcat(init, [e], now);
      StagingsOfConcat(Matching(init, now), [e], now);
      if !MayStillHappen(e, now) {
        PastEventIsIdle(e, now);
        NoStagings([e], now);
      }
    }
  }

  predicate Idle(e: Event, now: Instant) {
    OccurrencesOf(e, now, now + OCCURRENCE_HORIZON, MAX_OCCURRENCE_SCAN) == []
  }

  lemma {:induction false} NoStagings(s: seq<Event>, now: Instant)
    requires forall e :: e in s ==> Idle(e, now)
    ensures AllStagings(s, now) == []
  {
    hide OccurrencesOf;
    if s != [] {
      var init, last := s[..|s| - 1], s[|s| - 1];
      NoStagings(init, now);
      assert Idle(last, now);
    }
  }

  lemma PastEventIsIdle(e: Event, now: Instant)
    requires !MayStillHappen(e, now)
    ensures Idle(e, now)
  {
    hide Parse;
  }

  /** One of the event's dates within a year, as long as the event, under its id. */
  ghost predicate Stages(e: Event, now: Instant, s: Staging) {
    var dates := OccurrencesOf(e, now, now + 365 * 86400, 5000);
    exists t :: t in dates && s == Staging(e.id, t, t + (e.endDate - e.startDate), e.isRecurring)
  }

  /** The stagings are just those. */
  lemma {:induction false} StagingMembers(events: seq<Event>, now: Instant, s: Staging)
    ensures s in AllStagings(events, now) <==> exists e :: e in events && Stages(e, now, s)
  {
    hide OccurrencesOf, Stages, StagingsAt;
    if events != [] {
      var init, last := events[..|events| - 1], events[|events| - 1];
      assert events == init + [last];
      StagingMembers(init, now, s);
      var dates := OccurrencesOf(last, now, now + OCCURRENCE_HORIZON, MAX_OCCURRENCE_SCAN);
      StagingsAtMembers(last, now, s);
      assert AllStagings(events, now) == AllStagings(init, now) + StagingsAt(last, dates);
      assert forall e :: e in events <==> e in init || e == last;
    }
  }

  lemma StagingsAtMembers(e: Event, now: Instant, s: Staging)
    ensures s in StagingsAt(e, OccurrencesOf(e, now, now + OCCURRENCE_HORIZON, MAX_OCCURRENCE_SCAN))
            <==> Stages(e, now, s)
  {
    hide OccurrencesOf;
    var dates := OccurrencesOf(e, now, now + OCCURRENCE_HORIZON, MAX_OCCURRENCE_SCAN);
    if t :| t in dates && s == Staging(e.id, t, t + (e.endDate - e.startDate), e.isRecurring) {
      var i :| 0 <= i < |dates| && dates[i] == t;
      assert StagingsAt(e, dates)[i] == s;
    }
    if s in StagingsAt(e, dates) {
      var i :| 0 <= i < |dates| && StagingsAt(e, dates)[i] == s;
      assert dates[i] in dates;
    }
  }

  // ---- beyond two hundred candidates ---------------------------------------------

  /** Daily events whose one staging ended an hour ago, and after them one that starts now. */
  function Crowd(n: nat, now: Instant): (s: seq<Event>)
    ensures |s| == n
  {
    seq(n, i requires 0 <= i < n =>
      if i < n - 1 then DailyEvent(i, now - 7200, 1, 1) else Event(i, now, now + 3600, false, ""))
  }

  lemma EndedIsIdle(id: Id, now: Instant)
    ensures Idle(DailyEvent(id, now - 7200, 1, 1), now)
  {
    var r, start, to := DailyRule(1, 1), now - 7200, now + OCCURRENCE_HORIZON;
    DailyEventRule(id, start, 1, 1);
    hide RuleOf, Storable, Print, WellFormed, Window;
    forall k: nat ensures !Admitted(r, start, now, to, k) {
      if k == 0 {
        assert Series(r, start, 0) == start;
      }
    }
    WindowStops(r, start, now, to, 0, MAX_OCCURRENCE_SCAN);
    NothingYet(r, start, now, to);
  }

  lemma NothingYet(r: Rule, start: Instant, from: Instant, to: Instant)
    ensures Window(r, start, from, to, 0) == []
  {
  }

  lemma {:induction false} AllMatch(s: seq<Event>, now: Instant)
    requires forall e :: e in s ==> MayStillHappen(e, now)
    ensures Matching(s, now) == s
  {
    hide MayStillHappen;
    if s != [] {
      assert s == s[..|s| - 1] + [s[|s| - 1]];
      AllMatch(s[..|s| - 1], now);
    }
  }

  lemma CrowdIsStorable(n: nat, now: Instant)
    requires now > 7200
    ensures forall e :: e in Crowd(n, now) ==> Storable(e)
  {
    hide Print, WellFormed, Parse, Storable, RuleOf;
    forall e | e in Crowd(n, now) ensures Storable(e) {
      var i :| 0 <= i < n && e == Crowd(n, now)[i];
      if i < n - 1 {
        DailyEventRule(i, now - 7200, 1, 1);
      } else {
        OneOffIsStorable(i, now);
      }
    }
  }

  lemma OneOffIsStorable(id: Id, start: Instant)
    requires start > 0
    ensures Storable(Event(id, start, start + 3600, false, ""))
  {
  }

  lemma CrowdMember(n: nat, now: Instant, i: nat)
    requires i < n
    ensures var e := Crowd(n, now)[i];
            e.id == i && e.startDate == (if i < n - 1 then now - 7200 else now) && MayStillHappen(e, now)
    ensures i < n - 1 ==> Idle(Crowd(n, now)[i], now)
    ensures i == n - 1 ==> OccurrencesOf(Crowd(n, now)[i], now, now + OCCURRENCE_HORIZON, MAX_OCCURRENCE_SCAN) == [now]
  {
    hide Idle, Print, Parse;
    if i < n - 1 {
      EndedIsIdle(i, now);
    }
  }

  lemma CrowdIsRead(n: nat, now: Instant)
    ensures DistinctIds(Crowd(n, now)) && Matching(Crowd(n, now), now) == Crowd(n, now)
    ensures IsQueryAnswer(Crowd(n, now), now, Take(Crowd(n, now), MAX_EVENTS_READ))
  {
    hide Crowd, MayStillHappen, OccurrencesOf, Idle;
    var s := Crowd(n, now);
    forall i: nat | i < n
      ensures s[i].id == i && MayStillHappen(s[i], now)
      ensures s[i].startDate == if i < n - 1 then now - 7200 else now
    {
      CrowdMember(n, now, i);
    }
    AllMatch(s, now);
    hide Matching;
    assert ByStartDate(s);
    assert multiset(s) == multiset(Matching(s, now));
  }

  lemma CrowdDates(n: nat, now: Instant)
    requires n > MAX_EVENTS_READ
    ensures AllStagings(Take(Crowd(n, now), MAX_EVENTS_READ), now) == []
    ensures |AllStagings(Crowd(n, now), now)| == 1
  {
    hide Crowd, MayStillHappen, OccurrencesOf, Idle, Stagings;
    var s := Crowd(n, now);
    forall i: nat | i < n - 1 ensures Idle(s[i], now) {
      CrowdMember(n, now, i);
    }
    NoStagings(s[..MAX_EVENTS_READ], now);
    NoStagings(s[..n - 1], now);
    CrowdMember(n, now, n - 1);
    OneStaging(s[n - 1], now);
    StagingsOfConcat(s[..n - 1], [s[n - 1]], now);
    assert s == s[..n - 1] + [s[n - 1]];
  }

  lemma OneStaging(e: Event, now: Instant)
    requires |OccurrencesOf(e, now, now + OCCURRENCE_HORIZON, MAX_OCCURRENCE_SCAN)| == 1
    ensures |AllStagings([e], now)| == 1
  {
    hide OccurrencesOf;
    assert [e][..0] == [] && Stagings([], now, MAX_OCCURRENCE_SCAN) == [];
    var dates := OccurrencesOf(e, now, now + OCCURRENCE_HORIZON, MAX_OCCURRENCE_SCAN);
    assert Stagings([e], now, MAX_OCCURRENCE_SCAN)
           == Stagings([e][..0], now, MAX_OCCURRENCE_SCAN) + StagingsAt(e, dates);
  }

  ghost predicate AllStorable(stored: seq<Event>) {
    DistinctIds(stored) && forall e :: e in stored ==> Storable(e)
  }

  /**
  With n candidates the query may be trusted, whatever storable events they are and however
  it orders equal starts, exactly up to its limit of 200.
  */
  lemma ReadLimitExactly(n: nat)
    ensures (forall stored, now, read ::
               AllStorable(stored) && |Matching(stored, now)| == n && IsQueryAnswer(stored, now, read) ==>
                 SortDates(Dates(AllStagings(read, now))) == SortDates(Dates(AllStagings(stored, now))))
            <==> n <= MAX_EVENTS_READ
  {
    hide Matching, IsQueryAnswer, SortDates, AllStagings, DistinctIds, Storable;
    if n <= MAX_EVENTS_READ {
      forall stored, now, read | AllStorable(stored) && |Matching(stored, now)| == n && IsQueryAnswer(stored, now, read)
        ensures SortDates(Dates(AllStagings(read, now))) == SortDates(Dates(AllStagings(stored, now)))
      {
        ReadingLosesNothing(stored, now, read);
      }
    } else {
      var now := 100000;
      var stored, read := Crowd(n, now), Take(Crowd(n, now), MAX_EVENTS_READ);
      hide Crowd;
      CrowdIsStorable(n, now);
      CrowdIsRead(n, now);
      CrowdDates(n, now);
      SortDatesMeaning(Dates(AllStagings(stored, now)), 0);
      SortDatesMeaning(Dates(AllStagings(read, now)), 0);
      assert |Matching(stored, now)| == n;
    }
  }
}
