/**
The two listings of what is coming: `UpcomingPage` shows every live event once, at its
next staging; `Upcoming` shows the next dates of all events together.
*/
module Listing {
  import opened Options
  import opened Calendar
  import opened Expansion
  import opened Events

  // ---- pages ---------------------------------------------------------------------

  /** The order of the listing: by start, then by id. */
  predicate Before(a: Event, b: Event) {
    a.startDate < b.startDate || (a.startDate == b.startDate && a.id < b.id)
  }

  predicate InOrder(s: seq<Event>) {
    forall i, j :: 0 <= i < j < |s| ==> Before(s[i], s[j])
  }

  /** Stored events have distinct ids. */
  predicate DistinctIds(s: seq<Event>) {
    forall i, j :: 0 <= i < j < |s| ==> s[i].id != s[j].id
  }

  /** The stored events that project onto a staging, so projected, in stored order. */
  function Visible(stored: seq<Event>, now: Instant): seq<Event> {
    if stored == [] then []
    else
      var init := Visible(stored[..|stored| - 1], now);
      match ProjectNext(stored[|stored| - 1], now)
      case Some(p) => init + [p]
      case None => init
  }

  predicate MayBeUpcoming(e: Event, now: Instant) {
    e.endDate >= now || e.isRecurring
  }

  function Insert(e: Event, s: seq<Event>): seq<Event> {
    if s == [] || Before(e, s[0]) then [e] + s else [s[0]] + Insert(e, s[1..])
  }

  function SortEvents(s: seq<Event>): seq<Event> {
    if s == [] then [] else Insert(s[|s| - 1], SortEvents(s[..|s| - 1]))
  }

  /** Page `page`, counted from 1, of `limit` entries. */
  function PageOf(s: seq<Event>, page: int, limit: int): seq<Event>
    requires page >= 1 && limit >= 1
  {
    var first := (page - 1) * limit;
    if first >= |s| then []
    else if first + limit > |s| then s[first..]
    else s[first..first + limit]
  }

  lemma {:induction false} InsertKeeps(e: Event, s: seq<Event>)
    ensures multiset(Insert(e, s)) == multiset(s) + multiset{e}
    ensures forall x :: x in Insert(e, s) ==> x == e || x in s
  {
    hide Before;
    if s != [] && !Before(e, s[0]) {
      InsertKeeps(e, s[1..]);
      assert s == [s[0]] + s[1..];
    }
  }

  lemma {:induction false} InsertKeepsOrder(e: Event, s: seq<Event>)
    requires InOrder(s)
    requires forall x :: x in multiset(s) ==> x.id != e.id
    ensures InOrder(Insert(e, s))
    ensures multiset(Insert(e, s)) == multiset(s) + multiset{e}
  {
    InsertKeeps(e, s);
    if s == [] || Before(e, s[0]) {
    } else {
      var t := Insert(e, s[1..]);
      InsertKeepsOrder(e, s[1..]);
      InsertKeeps(e, s[1..]);
      assert Before(s[0], e) by { assert s[0] in s; }
      forall i | 0 <= i < |t| ensures Before(s[0], t[i]) {
        assert t[i] in t;
      }
    }
  }

  /** Sorting gives the same events in listing order. */
  lemma {:induction false} SortEventsMeaning(s: seq<Event>)
    requires DistinctIds(s)
    ensures InOrder(SortEvents(s)) && multiset(SortEvents(s)) == multiset(s)
  {
    assert InOrder([]);
    if s != [] {
      hide Before, InOrder, Insert, DistinctIds;
      var init, last := s[..|s| - 1], s[|s| - 1];
      LastIdIsNew(s);
      SortEventsMeaning(init);
      InsertKeepsOrder(last, SortEvents(init));
      assert s == init + [last];
    }
  }

  lemma LastIdIsNew(s: seq<Event>)
    requires DistinctIds(s) && s != []
    ensures DistinctIds(s[..|s| - 1])
    ensures forall x :: x in multiset(s[..|s| - 1]) ==> x.id != s[|s| - 1].id
  {
  }

  lemma HeadInOrder(s: seq<Event>, e: Event)
    requires InOrder(s) && e in multiset(s)
    ensures s != [] && (e == s[0] || Before(s[0], e))
  {
    var i :| 0 <= i < |s| && s[i] == e;
  }

  lemma TailInOrder(s: seq<Event>)
    requires InOrder(s) && s != []
    ensures InOrder(s[1..]) && multiset(s[1..]) == multiset(s) - multiset{s[0]}
    ensures s[0] in multiset(s) && !Before(s[0], s[0])
  {
    assert s == [s[0]] + s[1..];
  }

  lemma NotBothBefore(a: Event, b: Event)
    ensures !(Before(a, b) && Before(b, a))
  {
  }

  /** Only one arrangement is in listing order, so any correct sort gives it. */
  lemma {:induction false} OrderIsUnique(s: seq<Event>, t: seq<Event>)
    requires InOrder(s) && InOrder(t) && multiset(s) == multiset(t)
    ensures s == t
  {
    hide Before, InOrder;
    assert |s| == |multiset(s)| == |multiset(t)| == |t|;
    if s != [] {
      TailInOrder(s);
      TailInOrder(t);
      HeadInOrder(t, s[0]);
      HeadInOrder(s, t[0]);
      NotBothBefore(s[0], t[0]);
      OrderIsUnique(s[1..], t[1..]);
      assert s == [s[0]] + s[1..] && t == [t[0]] + t[1..];
    }
  }

  lemma {:induction false} VisibleMembers(stored: seq<Event>, now: Instant)
    requires DistinctIds(stored)
    ensures DistinctIds(Visible(stored, now))
    ensures forall p :: p in Visible(stored, now) <==> exists e :: e in stored && ProjectNext(e, now) == Some(p)
  {
    hide ProjectNext;
    if stored != [] {
      var n := |stored| - 1;
      var init := stored[..n];
      VisibleMembers(init, now);
      assert stored == init + [stored[n]];
      var v := Visible(init, now);
      forall i | 0 <= i < |v| ensures v[i].id != stored[n].id {
        assert v[i] in v;
        var e :| e in init && ProjectNext(e, now) == Some(v[i]);
        ProjectKeepsId(e, now);
      }
      ProjectKeepsId(stored[n], now);
    }
  }

  lemma ProjectKeepsId(e: Event, now: Instant)
    ensures ProjectNext(e, now).Some? ==> ProjectNext(e, now).value.id == e.id
  {
    hide OccurrencesOf;
  }

  /** The query drops only events that would not be visible anyway. */
  lemma {:induction false} QueryLosesNothing(stored: seq<Event>, now: Instant)
    ensures Visible(Candidates(stored, now), now) == Visible(stored, now)
  {
    hide OccurrencesOf;
    if stored != [] {
      QueryLosesNothing(stored[..|stored| - 1], now);
      var c := Candidates(stored[..|stored| - 1], now);
      var e := stored[|stored| - 1];
      assert (c + [e])[..|c|] == c;
    }
  }

  function Candidates(stored: seq<Event>, now: Instant): seq<Event> {
    if stored == [] then []
    else
      var init := Candidates(stored[..|stored| - 1], now);
      if MayBeUpcoming(stored[|stored| - 1], now) then init + [stored[|stored| - 1]] else init
  }

  /** The library sort: some arrangement in listing order. */
  method SortSlice(s: seq<Event>) returns (out: seq<Event>)
    requires DistinctIds(s)
    ensures InOrder(out) && multiset(out) == multiset(s)
  {
    out := [];
    for i := 0 to |s|
      invariant out == SortEvents(s[..i])
    {
      assert s[..i + 1][..i] == s[..i];
      out := Insert(s[i], out);
    }
    assert s[..|s|] == s;
    SortEventsMeaning(s);
  }

  method ProjectAll(candidates: seq<Event>, now: Instant) returns (visible: seq<Event>)
    ensures visible == Visible(candidates, now)
  {
    hide ProjectNext;
    visible := [];
    for i := 0 to |candidates|
      invariant visible == Visible(candidates[..i], now)
    {
      assert candidates[..i + 1][..i] == candidates[..i];
      var projected := ProjectNextOccurrence(candidates[i], now);
      if projected.Some? {
        visible := visible + [projected.value];
      }
    }
    assert candidates[..|candidates|] == candidates;
  }

  /** One page of the live events, each at its next staging, in listing order. */
  method UpcomingPage(stored: seq<Event>, now: Instant, page: int, limit: int)
    returns (events: seq<Event>, total: int)
    requires DistinctIds(stored)
    ensures var p := if page < 1 then 1 else page;
            var l := if limit < 1 || limit > 50 then 25 else limit;
            events == PageOf(SortEvents(Visible(stored, now)), p, l)
    ensures total == |SortEvents(Visible(stored, now))| == |Shown(stored, now)|
    ensures forall p :: p in events ==> exists e :: e in stored && ShownAs(e, now, p)
  {
    hide Visible, SortEvents, DistinctIds, InOrder;
    var p := if page < 1 then 1 else page;
    var l := if limit < 1 || limit > 50 then 25 else limit;
    var visible := ProjectAll(Candidates(stored, now), now);
    QueryLosesNothing(stored, now);
    VisibleMembers(stored, now);
    SortEventsMeaning(visible);
    ghost var unsorted := visible;
    visible := SortSlice(visible);
    OrderIsUnique(visible, SortEvents(unsorted));
    events := SlicePage(visible, p, l);
    total := |visible|;
    PageIsShown(stored, now, p, l);
  }

  method SlicePage(visible: seq<Event>, page: int, limit: int) returns (events: seq<Event>)
    requires page >= 1 && limit >= 1
    ensures events == PageOf(visible, page, limit)
  {
    var start := (page - 1) * limit;
    if start >= |visible| {
      return [];
    }
    var end := start + limit;
    if end > |visible| {
      end := |visible|;
    }
    return visible[start..end];
  }

  /** Pages 1 to n, one after the other. */
  function Pages(s: seq<Event>, limit: int, n: nat): seq<Event>
    requires limit >= 1
  {
    if n == 0 then [] else Pages(s, limit, n - 1) + PageOf(s, n, limit)
  }

  lemma {:induction false} PagesArePrefix(s: seq<Event>, limit: int, n: nat)
    requires limit >= 1
    ensures Pages(s, limit, n) == Take(s, n * limit)
  {
    if n > 0 {
      PagesArePrefix(s, limit, n - 1);
      var first := (n - 1) * limit;
      assert n * limit == first + limit && first >= 0;
      assert PageOf(s, n, limit) ==
             if first >= |s| then []
             else if first + limit > |s| then s[first..]
             else s[first..first + limit];
    }
  }

  /**
  Reading every page at one moment reads the whole sorted list: each live event
  exactly once, in order of its next staging.
  */
  lemma PagesCoverTheList(stored: seq<Event>, now: Instant, limit: int, n: nat)
    requires DistinctIds(stored) && limit >= 1 && |Visible(stored, now)| <= n * limit
    ensures var all := Pages(SortEvents(Visible(stored, now)), limit, n);
            InOrder(all) && multiset(all) == multiset(Visible(stored, now))
    ensures forall e :: e in stored && ProjectNext(e, now).Some? ==>
              multiset(Pages(SortEvents(Visible(stored, now)), limit, n))[ProjectNext(e, now).value] == 1
  {
    hide ProjectNext, SortEvents, Pages;
    var v := Visible(stored, now);
    VisibleMembers(stored, now);
    SortEventsMeaning(v);
    assert |SortEvents(v)| == |multiset(SortEvents(v))| == |multiset(v)| == |v|;
    PagesArePrefix(SortEvents(v), limit, n);
    forall e | e in stored && ProjectNext(e, now).Some?
      ensures multiset(v)[ProjectNext(e, now).value] == 1
    {
      assert ProjectNext(e, now).value in v;
      OnceEach(v, ProjectNext(e, now).value);
    }
  }

  lemma {:induction false} OnceEach(s: seq<Event>, e: Event)
    requires DistinctIds(s) && e in s
    ensures multiset(s)[e] == 1
  {
    var n := |s| - 1;
    assert s == s[..n] + [s[n]];
    if s[n] == e {
      assert e !in s[..n];
      assert multiset(s[..n])[e] == 0;
    } else {
      OnceEach(s[..n], e);
    }
  }

  // ---- the pages, event by event -------------------------------------------------

  /** The stored events that show at `now`. */
  ghost function Shown(stored: seq<Event>, now: Instant): set<Event> {
    set e | e in stored && exists p :: ShownAs(e, now, p)
  }

  /** How many events the listing has is how many show. */
  lemma {:induction false} VisibleCount(stored: seq<Event>, now: Instant)
    requires DistinctIds(stored)
    ensures |Visible(stored, now)| == |Shown(stored, now)|
  {
    hide ProjectNext, ShownAs;
    if stored == [] {
      assert Shown(stored, now) == {};
    } else {
      var init, last := stored[..|stored| - 1], stored[|stored| - 1];
      assert stored == init + [last];
      VisibleCount(init, now);
      forall p ensures ProjectNext(last, now) == Some(p) <==> ShownAs(last, now, p) {
        ProjectionExactly(last, now, p);
      }
      assert last !in init;
      if ProjectNext(last, now).Some? {
        assert ShownAs(last, now, ProjectNext(last, now).value);
        assert Shown(stored, now) == Shown(init, now) + {last};
      } else {
        assert Shown(stored, now) == Shown(init, now);
      }
    }
  }

  lemma PageIsShown(stored: seq<Event>, now: Instant, page: int, limit: int)
    requires DistinctIds(stored) && page >= 1 && limit >= 1
    ensures |SortEvents(Visible(stored, now))| == |Shown(stored, now)|
    ensures forall p :: p in PageOf(SortEvents(Visible(stored, now)), page, limit) ==>
              exists e :: e in stored && ShownAs(e, now, p)
  {
    hide ProjectNext, ShownAs, SortEvents, Shown, Visible;
    var v := Visible(stored, now);
    var sorted := SortEvents(v);
    VisibleCount(stored, now);
    VisibleMembers(stored, now);
    SortEventsMeaning(v);
    assert |sorted| == |multiset(sorted)| == |multiset(v)| == |v|;
    forall p | p in PageOf(sorted, page, limit) ensures exists e :: e in stored && ShownAs(e, now, p) {
      assert p in sorted && p in multiset(sorted) && p in v;
      var e :| e in stored && ProjectNext(e, now) == Some(p);
      ProjectionExactly(e, now, p);
    }
  }

  /**
  The pages at one moment, event by event: each stored event that shows is there exactly
  once, as it shows, in order, and nothing else is; the total counts the events that show.
  */
  lemma PagesShowExactly(stored: seq<Event>, now: Instant, limit: int, n: nat)
    requires DistinctIds(stored) && limit >= 1 && |Shown(stored, now)| <= n * limit
    ensures var all := Pages(SortEvents(Visible(stored, now)), limit, n);
            && InOrder(all) && |all| == |SortEvents(Visible(stored, now))| == |Shown(stored, now)|
            && forall p :: multiset(all)[p] == if exists e :: e in stored && ShownAs(e, now, p) then 1 else 0
  {
    hide ProjectNext, ShownAs, SortEvents, Pages, Shown;
    VisibleCount(stored, now);
    PagesCoverTheList(stored, now, limit, n);
    VisibleMembers(stored, now);
    var all, v := Pages(SortEvents(Visible(stored, now)), limit, n), Visible(stored, now);
    SortEventsMeaning(v);
    assert |SortEvents(v)| == |multiset(SortEvents(v))| == |multiset(v)| == |v|;
    assert |all| == |multiset(all)| == |v|;
    forall p ensures multiset(all)[p] == if exists e :: e in stored && ShownAs(e, now, p) then 1 else 0 {
      forall e ensures ProjectNext(e, now) == Some(p) <==> ShownAs(e, now, p) {
        ProjectionExactly(e, now, p);
      }
      if p in v {
        OnceEach(v, p);
      }
    }
  }
}
