/**
Sending one queue as two batches. Repeats are collapsed per member within a batch, so a
member with rows in both halves may be stored twice; this module says exactly when.
*/
module BatchSplit {
  import opened Calendar
  import opened Text
  import opened Events
  import opened DailyEvents
  import opened Attendance
  import opened Reconciliation

  function Part(req: Request, rows: seq<Row>): Request {
    req.(rows := rows)
  }

  lemma NamedInConcat(a: seq<Row>, b: seq<Row>)
    ensures NamedIn(a + b) == NamedIn(a) + NamedIn(b)
  {
    hide Name;
    forall m | m in NamedIn(a) + NamedIn(b) ensures m in NamedIn(a + b) {
      if m in NamedIn(a) {
        var i :| 0 <= i < |a| && Name(a[i]) != "" && Name(a[i]) == m;
        assert (a + b)[i] == a[i];
      } else {
        var i :| 0 <= i < |b| && Name(b[i]) != "" && Name(b[i]) == m;
        assert (a + b)[|a| + i] == b[i];
      }
    }
  }

  /** A part of a batch gives a member no earlier time than the whole. */
  lemma ArrivalOfPart(rows: seq<Row>, part: seq<Row>, offset: nat, m: string, now: Instant)
    requires offset + |part| <= |rows| && rows[offset..offset + |part|] == part
    requires m in NamedIn(part)
    ensures m in NamedIn(rows) && ArrivalOf(rows, m, now) <= ArrivalOf(part, m, now)
  {
    NamedNonEmpty(part, m);
    hide Name, Clamp, NamedIn, ArrivalOf;
    ArrivalIsEarliest(part, m, now);
    var i :| RowOfMember(part, m, i) && ArrivalOf(part, m, now) == Clamp(part[i].at, now);
    assert rows[offset + i] == part[i];
    assert RowOfMember(rows, m, offset + i);
    NamedByRow(rows, m, offset + i);
    ArrivalIsEarliest(rows, m, now);
  }

  /** A part that holds a member's deciding row gives no later time than the whole. */
  lemma ArrivalFromPart(rows: seq<Row>, part: seq<Row>, offset: nat, m: string, now: Instant, i: int)
    requires offset + |part| <= |rows| && rows[offset..offset + |part|] == part
    requires m in NamedIn(rows) && offset <= i < offset + |part|
    requires RowOfMember(rows, m, i) && ArrivalOf(rows, m, now) == Clamp(rows[i].at, now)
    ensures m in NamedIn(part) && ArrivalOf(part, m, now) <= ArrivalOf(rows, m, now)
  {
    NamedNonEmpty(rows, m);
    hide Name, Clamp, NamedIn, ArrivalOf;
    assert rows[i] == part[i - offset];
    assert RowOfMember(part, m, i - offset);
    NamedByRow(part, m, i - offset);
    ArrivalIsEarliest(part, m, now);
  }

  /** The whole queue gives a member the earlier of the times its two halves give. */
  lemma ArrivalOfConcat(a: seq<Row>, b: seq<Row>, m: string, now: Instant)
    requires m in NamedIn(a + b)
    ensures m in NamedIn(a) || m in NamedIn(b)
    ensures m in NamedIn(a) ==> ArrivalOf(a + b, m, now) <= ArrivalOf(a, m, now)
    ensures m in NamedIn(b) ==> ArrivalOf(a + b, m, now) <= ArrivalOf(b, m, now)
    ensures (m in NamedIn(a) && ArrivalOf(a + b, m, now) == ArrivalOf(a, m, now))
            || (m in NamedIn(b) && ArrivalOf(a + b, m, now) == ArrivalOf(b, m, now))
  {
    hide Name, Clamp, NamedIn, ArrivalOf;
    var rows := a + b;
    assert rows[0..|a|] == a && rows[|a|..|a| + |b|] == b;
    ArrivalIsEarliest(rows, m, now);
    var i :| RowOfMember(rows, m, i) && ArrivalOf(rows, m, now) == Clamp(rows[i].at, now);
    if m in NamedIn(a) { ArrivalOfPart(rows, a, 0, m, now); }
    if m in NamedIn(b) { ArrivalOfPart(rows, b, |a|, m, now); }
    if i < |a| {
      ArrivalFromPart(rows, a, 0, m, now, i);
    } else {
      ArrivalFromPart(rows, b, |a|, m, now, i);
    }
  }

  /** The occurrence a member of a batch is filed under. */
  function FiledIn(e: Event, req: Request, rows: seq<Row>, m: string, now: Instant): Instant {
    OccurrenceOf(e, req, ArrivalOf(rows, m, now))
  }

  /** Every known member with rows in both halves is filed under one occurrence by both. */
  predicate HalvesAgree(e: Event, req: Request, a: seq<Row>, b: seq<Row>, now: Instant, roster: Roster) {
    forall m :: m in NamedIn(a) && m in NamedIn(b) && OnRoster(roster, m) ==>
      FiledIn(e, req, a, m, now) == FiledIn(e, req, b, m, now)
  }

  lemma TargetsOf(e: Event, req: Request, rows: seq<Row>, now: Instant, roster: Roster, k: Key)
    ensures k in Targets(e, Part(req, rows), now, roster)
            <==> k.eventId == req.eventId && k.memberId in NamedIn(rows) && OnRoster(roster, k.memberId)
                 && k.occurrence == FiledIn(e, req, rows, k.memberId, now)
  {
    hide NamedIn, ArrivalOf, FiledUnder, OnRoster;
  }

  /** For one event: two batches never ask for less than one, and for the same exactly when the halves agree. */
  lemma SplitTargets(e: Event, req: Request, a: seq<Row>, b: seq<Row>, now: Instant, roster: Roster)
    ensures Targets(e, Part(req, a + b), now, roster)
            <= Targets(e, Part(req, a), now, roster) + Targets(e, Part(req, b), now, roster)
    ensures Targets(e, Part(req, a + b), now, roster)
            == Targets(e, Part(req, a), now, roster) + Targets(e, Part(req, b), now, roster)
            <==> HalvesAgree(e, req, a, b, now, roster)
  {
    hide NamedIn, ArrivalOf, FiledUnder, OnRoster, Targets, Part, OccurrenceOf;
    NamedInConcat(a, b);
    var whole := Targets(e, Part(req, a + b), now, roster);
    var parts := Targets(e, Part(req, a), now, roster) + Targets(e, Part(req, b), now, roster);
    forall k | k in whole ensures k in parts {
      WholeKeyIsInAHalf(e, req, a, b, now, roster, k);
    }
    if HalvesAgree(e, req, a, b, now, roster) {
      forall k | k in parts ensures k in whole {
        AgreeingKeyIsWhole(e, req, a, b, now, roster, k);
      }
    } else {
      var m :| m in NamedIn(a) && m in NamedIn(b) && OnRoster(roster, m)
        && FiledIn(e, req, a, m, now) != FiledIn(e, req, b, m, now);
      var p := Key(req.eventId, FiledIn(e, req, a, m, now), m);
      var q := Key(req.eventId, FiledIn(e, req, b, m, now), m);
      TargetsOf(e, req, a, now, roster, p);
      TargetsOf(e, req, b, now, roster, q);
      TargetsOf(e, req, a + b, now, roster, p);
      TargetsOf(e, req, a + b, now, roster, q);
      assert p in parts && q in parts && !(p in whole && q in whole);
    }
  }

  lemma WholeKeyIsInAHalf(e: Event, req: Request, a: seq<Row>, b: seq<Row>, now: Instant, roster: Roster, k: Key)
    requires k in Targets(e, Part(req, a + b), now, roster)
    ensures k in Targets(e, Part(req, a), now, roster) || k in Targets(e, Part(req, b), now, roster)
  {
    hide NamedIn, ArrivalOf, FiledUnder, OnRoster, Targets, Part, OccurrenceOf;
    TargetsOf(e, req, a + b, now, roster, k);
    ArrivalOfConcat(a, b, k.memberId, now);
    TargetsOf(e, req, a, now, roster, k);
    TargetsOf(e, req, b, now, roster, k);
  }

  lemma AgreeingKeyIsWhole(e: Event, req: Request, a: seq<Row>, b: seq<Row>, now: Instant, roster: Roster, k: Key)
    requires HalvesAgree(e, req, a, b, now, roster)
    requires k in Targets(e, Part(req, a), now, roster) || k in Targets(e, Part(req, b), now, roster)
    ensures k in Targets(e, Part(req, a + b), now, roster)
  {
    hide NamedIn, ArrivalOf, FiledUnder, OnRoster, Targets, Part, OccurrenceOf;
    NamedInConcat(a, b);
    TargetsOf(e, req, a, now, roster, k);
    TargetsOf(e, req, b, now, roster, k);
    ArrivalOfConcat(a, b, k.memberId, now);
    TargetsOf(e, req, a + b, now, roster, k);
  }

  // ---- whole calls ---------------------------------------------------------------

  lemma OneBatchRun(store: Store, e: Event, req: Request, now: Instant, roster: Roster)
    requires !roster.Unreachable?
    ensures RunSyncs(store, e, [Call(req, now)], roster).Keys == store.Keys + Targets(e, req, now, roster)
  {
    hide Targets, RunSyncs;
    var calls := [Call(req, now)];
    RunStoresTargets(store, e, calls, roster);
    assert calls[0] in calls;
  }

  lemma TwoBatchRun(store: Store, e: Event, first: Request, second: Request, now: Instant, roster: Roster)
    requires !roster.Unreachable?
    ensures RunSyncs(store, e, [Call(first, now), Call(second, now)], roster).Keys
            == store.Keys + Targets(e, first, now, roster) + Targets(e, second, now, roster)
  {
    hide Targets, RunSyncs;
    var calls := [Call(first, now), Call(second, now)];
    RunStoresTargets(store, e, calls, roster);
    assert calls[0] in calls && calls[1] in calls;
  }

  /** Sent whole or in two halves, the queue leaves the same attendance. */
  ghost predicate SplitIsNeutral(
    store: Store, e: Event, req: Request, a: seq<Row>, b: seq<Row>, now: Instant, roster: Roster)
  {
    RunSyncs(store, e, [Call(Part(req, a + b), now)], roster).Keys
    == RunSyncs(store, e, [Call(Part(req, a), now), Call(Part(req, b), now)], roster).Keys
  }

  lemma AgreeingSplit(store: Store, e: Event, req: Request, a: seq<Row>, b: seq<Row>, now: Instant, roster: Roster)
    requires !roster.Unreachable?
    ensures HalvesAgree(e, req, a, b, now, roster) ==> SplitIsNeutral(store, e, req, a, b, now, roster)
    ensures !HalvesAgree(e, req, a, b, now, roster) ==>
              RunSyncs(map[], e, [Call(Part(req, a + b), now)], roster).Keys
              < RunSyncs(map[], e, [Call(Part(req, a), now), Call(Part(req, b), now)], roster).Keys
  {
    hide RunSyncs, Targets, Part, HalvesAgree;
    SplitTargets(e, req, a, b, now, roster);
    OneBatchRun(store, e, Part(req, a + b), now, roster);
    TwoBatchRun(store, e, Part(req, a), Part(req, b), now, roster);
    OneBatchRun(map[], e, Part(req, a + b), now, roster);
    TwoBatchRun(map[], e, Part(req, a), Part(req, b), now, roster);
  }

  /** Every known member with rows in both halves arrives at one time by both. */
  predicate SameArrivals(a: seq<Row>, b: seq<Row>, now: Instant, roster: Roster) {
    forall m :: m in NamedIn(a) && m in NamedIn(b) && OnRoster(roster, m) ==>
      ArrivalOf(a, m, now) == ArrivalOf(b, m, now)
  }

  /** The event whose first two stagings part two arrival times. */
  function Parting(id: Id, t: Instant, u: Instant): Event {
    SplitEvent(id, (if t < u then u else t) - 1)
  }

  lemma PartingFiles(id: Id, t: Instant, u: Instant)
    requires t != u
    ensures Storable(Parting(id, t, u)) && Parting(id, t, u).id == id
    ensures FiledUnder(Parting(id, t, u), t) != FiledUnder(Parting(id, t, u), u)
  {
    var at := (if t < u then u else t) - 1;
    SplitEventParts(id, at);
    hide SplitEvent, FiledUnder, Storable;
    SplitEventBoundary(id, at, t);
    SplitEventBoundary(id, at, u);
  }

  /**
  A queue may be split at will, whatever the event and whatever is stored, if and only if
  the device named the occurrence or its two halves give every shared known member the
  same arrival time.
  */
  lemma SplitIsNeutralExactly(req: Request, a: seq<Row>, b: seq<Row>, now: Instant, roster: Roster)
    requires !roster.Unreachable?
    ensures (forall store, e :: Storable(e) && e.id == req.eventId ==> SplitIsNeutral(store, e, req, a, b, now, roster))
            <==> req.occurrence != 0 || SameArrivals(a, b, now, roster)
  {
    hide SplitIsNeutral, Storable, NamedIn, ArrivalOf, OnRoster, RunSyncs, Part;
    if req.occurrence != 0 || SameArrivals(a, b, now, roster) {
      forall store, e | Storable(e) && e.id == req.eventId ensures SplitIsNeutral(store, e, req, a, b, now, roster) {
        assert HalvesAgree(e, req, a, b, now, roster);
        AgreeingSplit(store, e, req, a, b, now, roster);
      }
    } else {
      hide FiledUnder, Parting;
      var m :| m in NamedIn(a) && m in NamedIn(b) && OnRoster(roster, m)
        && ArrivalOf(a, m, now) != ArrivalOf(b, m, now);
      var e := Parting(req.eventId, ArrivalOf(a, m, now), ArrivalOf(b, m, now));
      PartingFiles(req.eventId, ArrivalOf(a, m, now), ArrivalOf(b, m, now));
      assert FiledIn(e, req, a, m, now) != FiledIn(e, req, b, m, now);
      SplitStoresMore(e, req, a, b, now, roster);
    }
  }

  lemma SplitStoresMore(e: Event, req: Request, a: seq<Row>, b: seq<Row>, now: Instant, roster: Roster)
    requires !roster.Unreachable? && !HalvesAgree(e, req, a, b, now, roster)
    ensures !SplitIsNeutral(map[], e, req, a, b, now, roster)
  {
    hide HalvesAgree, RunSyncs, Part;
    AgreeingSplit(map[], e, req, a, b, now, roster);
  }

  // ---- a queue that must not be split --------------------------------------------

  /** Two scans of one member, a second apart, at the midpoint between two daily stagings. */
  function Scan(m: string, at: Instant): Row {
    Row(m, "QR", at)
  }

  lemma {:induction false} OneRow(m: string, at: Instant, now: Instant)
    requires TrimSpace(m) == m && m != "" && Timely(at, now)
    ensures NamedIn([Scan(m, at)]) == {m} && ArrivalOf([Scan(m, at)], m, now) == at
  {
    var rows := [Scan(m, at)];
    assert Name(rows[0]) == m;
    assert m in NamedIn(rows);
    hide ArrivalOf;
    ArrivalIsEarliest(rows, m, now);
    var i :| RowOfMember(rows, m, i) && ArrivalOf(rows, m, now) == Clamp(rows[i].at, now);
    assert rows[i] == rows[0];
  }

  /** Sent as one batch the two scans store less than sent as two, at the same moment. */
  lemma SplittingCanStoreTwice(id: Id, now: Instant, m: string)
    requires now > 0 && TrimSpace(m) == m && m != ""
    ensures var e := SplitEvent(id, now);
            var req := Request(id, [], 0, true);
            var a, b := [Scan(m, now)], [Scan(m, now + 1)];
            Storable(e)
            && RunSyncs(map[], e, [Call(Part(req, a + b), now)], NoRoster).Keys
               < RunSyncs(map[], e, [Call(Part(req, a), now), Call(Part(req, b), now)], NoRoster).Keys
  {
    SplitEventParts(id, now);
    hide FiledUnder, ArrivalOf, NamedIn, SplitEvent, TrimSpace, RunSyncs, Part, Storable;
    OneRow(m, now, now);
    OneRow(m, now + 1, now);
    SplitEventBoundary(id, now, now);
    SplitEventBoundary(id, now, now + 1);
    var e, req := SplitEvent(id, now), Request(id, [], 0, true);
    var a, b := [Scan(m, now)], [Scan(m, now + 1)];
    assert FiledIn(e, req, a, m, now) != FiledIn(e, req, b, m, now);
    AgreeingSplit(map[], e, req, a, b, now, NoRoster);
  }
}
