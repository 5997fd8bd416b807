/** What reconciling offline queues guarantees: accounting, safe retries, order independence. */
module Reconciliation {
  import opened Calendar
  import opened Events
  import opened Expansion
  import opened DailyEvents
  import opened Attendance

  // ---- who a batch names ---------------------------------------------------------

  /** The distinct members a batch names. */
  function NamedIn(rows: seq<Row>): set<string> {
    set i | 0 <= i < |rows| && Name(rows[i]) != "" :: Name(rows[i])
  }

  function BlankRows(rows: seq<Row>): nat {
    if rows == [] then 0
    else BlankRows(rows[..|rows| - 1]) + (if Name(rows[|rows| - 1]) == "" then 1 else 0)
  }

  lemma NamedInSnoc(rows: seq<Row>, row: Row)
    ensures NamedIn(rows + [row]) == NamedIn(rows) + (if Name(row) == "" then {} else {Name(row)})
  {
    hide Name;
    var all := rows + [row];
    forall m | m in NamedIn(rows) ensures m in NamedIn(all) {
      var i :| 0 <= i < |rows| && Name(rows[i]) != "" && Name(rows[i]) == m;
      assert all[i] == rows[i];
    }
    if Name(row) != "" {
      assert all[|rows|] == row;
      assert Name(row) in NamedIn(all);
    }
  }

  lemma AddRowLists(b: Batch, row: Row, now: Instant)
    requires WellNamed(b)
    ensures forall m :: m in AddRow(b, row, now).order <==> m in b.order || (m != "" && m == Name(row))
    ensures |AddRow(b, row, now).blank| == |b.blank| + (if Name(row) == "" then 1 else 0)
  {
    hide Name, Clamp;
  }

  /** Collapsing lists exactly the members named, and the rows that name nobody. */
  lemma {:induction false} CollapseLists(rows: seq<Row>, now: Instant)
    ensures forall m :: m in Collapse(rows, now).order <==> m in NamedIn(rows)
    ensures |Collapse(rows, now).blank| == BlankRows(rows)
  {
    hide Name, AddRow, NamedIn, WellNamed;
    if rows == [] {
      NobodyNamed();
    } else {
      var init, row := rows[..|rows| - 1], rows[|rows| - 1];
      CollapseLists(init, now);
      CollapseNames(init, now);
      NamedInSnoc(init, row);
      assert rows == init + [row];
      AddRowLists(Collapse(init, now), row, now);
    }
  }

  lemma NobodyNamed()
    ensures NamedIn([]) == {}
  {
  }

  lemma {:induction false} DistinctCount(s: seq<string>, t: set<string>)
    requires NoneTwice(s)
    requires forall m :: m in s <==> m in t
    ensures |s| == |t|
  {
    if s == [] {
      assert t == {};
    } else {
      var init, last := s[..|s| - 1], s[|s| - 1];
      assert s == init + [last];
      assert last in t;
      NoneTwiceSnoc(init, last);
      DistinctCount(init, t - {last});
    }
  }

  // ---- the insert ----------------------------------------------------------------

  function KeysOf(docs: seq<Doc>): set<Key> {
    set d | d in docs :: d.key
  }

  lemma KeysOfSnoc(docs: seq<Doc>, d: Doc)
    ensures KeysOf(docs + [d]) == KeysOf(docs) + {d.key}
  {
    forall k | k in KeysOf(docs) + {d.key} ensures k in KeysOf(docs + [d]) {
      if k == d.key {
        assert d in docs + [d];
      } else {
        var x :| x in docs && x.key == k;
        assert x in docs + [d];
      }
    }
  }

  /** Nothing stored is ever overwritten, each new key is counted once, and every document is accounted for. */
  lemma {:induction false} InsertMeaning(store: Store, docs: seq<Doc>, faults: set<string>)
    ensures var ins := InsertMany(store, docs, faults);
            && (forall k :: k in store ==> k in ins.store && ins.store[k] == store[k])
            && ins.store.Keys <= store.Keys + KeysOf(docs)
            && |ins.store| == |store| + ins.recorded
            && ins.recorded + ins.duplicate + |ins.faulty| == |docs|
  {
    if docs != [] {
      var init, d := docs[..|docs| - 1], docs[|docs| - 1];
      InsertMeaning(store, init, faults);
      KeysOfSnoc(init, d);
      assert docs == init + [d];
      assert InsertMany(store, docs, faults) == InsertOne(InsertMany(store, init, faults), d, faults);
      hide InsertOne, InsertMany, KeysOf;
      InsertOneMeaning(InsertMany(store, init, faults), d, faults);
    }
  }

  lemma InsertOneMeaning(ins: Insertion, d: Doc, faults: set<string>)
    ensures var next := InsertOne(ins, d, faults);
            && (forall k :: k in ins.store ==> k in next.store && next.store[k] == ins.store[k])
            && next.store.Keys <= ins.store.Keys + {d.key}
            && |next.store| - next.recorded == |ins.store| - ins.recorded
            && next.recorded + next.duplicate + |next.faulty| == ins.recorded + ins.duplicate + |ins.faulty| + 1
  {
    if d.key !in ins.store {
      var grown := ins.store[d.key := d.record];
      assert grown.Keys == ins.store.Keys + {d.key};
      assert |grown| == |grown.Keys| == |ins.store.Keys| + 1;
    }
  }

  /** Without other write failures, every document's key is stored afterwards. */
  lemma {:induction false} InsertStoresAll(store: Store, docs: seq<Doc>)
    ensures InsertMany(store, docs, {}).store.Keys == store.Keys + KeysOf(docs)
    ensures InsertMany(store, docs, {}).faulty == []
  {
    if docs != [] {
      var init, d := docs[..|docs| - 1], docs[|docs| - 1];
      InsertStoresAll(store, init);
      KeysOfSnoc(init, d);
      assert docs == init + [d];
    }
  }

  /** Inserting what is already there changes nothing and reports only duplicates. */
  lemma {:induction false} InsertAgain(store: Store, docs: seq<Doc>)
    requires KeysOf(docs) <= store.Keys
    ensures InsertMany(store, docs, {}) == Insertion(store, 0, |docs|, [])
  {
    if docs != [] {
      var init, d := docs[..|docs| - 1], docs[|docs| - 1];
      KeysOfSnoc(init, d);
      assert docs == init + [d];
      InsertAgain(store, init);
    }
  }

  // ---- accounting ----------------------------------------------------------------

  /**
  Every row that names nobody and every distinct member named is reported exactly
  once, as recorded, as a duplicate or as rejected.
  */
  lemma SyncAccounts(store: Store, e: Event, req: Request, now: Instant, roster: Roster, faults: set<string>)
    requires SyncEvent(store, e, req, now, roster, faults).reply.Done?
    ensures var r := SyncEvent(store, e, req, now, roster, faults).reply.result;
            r.recorded + r.duplicate + |r.rejected| == BlankRows(req.rows) + |NamedIn(req.rows)|
  {
    hide Collapse, Name, FiledUnder, Unknown, Kept, InsertMany, NamedIn;
    var b := Collapse(req.rows, now);
    CollapseLists(req.rows, now);
    CollapseNames(req.rows, now);
    DistinctCount(b.order, NamedIn(req.rows));
    KeptMembers(b.order, roster);
    InsertMeaning(store, Docs(e, req, b, Kept(b.order, roster), now), faults);
  }

  // ---- when a retry is filed as before -------------------------------------------

  predicate Timely(at: Instant, now: Instant) {
    at != 0 && at <= now + FUTURE_SKEW
  }

  predicate RowOfMember(rows: seq<Row>, m: string, i: int) {
    0 <= i < |rows| && Name(rows[i]) == m
  }

  /** The check-in time a batch gives a member at server time `now`. */
  function ArrivalOf(rows: seq<Row>, m: string, now: Instant): Instant {
    RowOf(Collapse(rows, now), m).at
  }

  /**
  A member's rows fix their check-in time whatever the clock says later: either no
  row is clamped now, or an unclamped row is already in the past.
  */
  ghost predicate SteadyMember(rows: seq<Row>, m: string, now: Instant) {
    || (forall i :: RowOfMember(rows, m, i) ==> Timely(rows[i].at, now))
    || (exists i :: RowOfMember(rows, m, i) && Timely(rows[i].at, now) && rows[i].at <= now)
  }

  lemma {:induction false} ArrivalIsEarliest(rows: seq<Row>, m: string, now: Instant)
    requires m in NamedIn(rows)
    ensures forall i :: RowOfMember(rows, m, i) ==> ArrivalOf(rows, m, now) <= Clamp(rows[i].at, now)
    ensures exists i :: RowOfMember(rows, m, i) && ArrivalOf(rows, m, now) == Clamp(rows[i].at, now)
  {
    hide Name, Clamp, NamedIn;
    NamedNonEmpty(rows, m);
    var n := |rows| - 1;
    var init, row := rows[..n], rows[n];
    assert rows == init + [row];
    NamedInSnoc(init, row);
    CollapseNames(init, now);
    CollapseLists(init, now);
    if m in NamedIn(init) {
      ArrivalIsEarliest(init, m, now);
      var i :| RowOfMember(init, m, i) && ArrivalOf(init, m, now) == Clamp(init[i].at, now);
      assert RowOfMember(rows, m, i);
      assert RowOfMember(rows, m, n) <==> Name(row) == m;
      forall j | RowOfMember(rows, m, j) ensures ArrivalOf(rows, m, now) <= Clamp(rows[j].at, now) {
        if j < n { assert RowOfMember(init, m, j); }
      }
    } else {
      assert RowOfMember(rows, m, n);
      forall j | RowOfMember(rows, m, j) ensures j == n {
        if j < n {
          assert RowOfMember(init, m, j);
          NamedByRow(init, m, j);
        }
      }
    }
  }

  lemma NamedNonEmpty(rows: seq<Row>, m: string)
    requires m in NamedIn(rows)
    ensures rows != [] && m != ""
  {
  }

  lemma NamedByRow(rows: seq<Row>, m: string, i: int)
    requires RowOfMember(rows, m, i) && m != ""
    ensures m in NamedIn(rows)
  {
  }

  lemma SteadyArrival(rows: seq<Row>, m: string, now: Instant, later: Instant)
    requires m in NamedIn(rows) && now <= later
    requires SteadyMember(rows, m, now)
    ensures ArrivalOf(rows, m, later) == ArrivalOf(rows, m, now)
  {
    hide Name, NamedIn, ArrivalOf;
    ArrivalIsEarliest(rows, m, now);
    ArrivalIsEarliest(rows, m, later);
    var i :| RowOfMember(rows, m, i) && ArrivalOf(rows, m, now) == Clamp(rows[i].at, now);
    var j :| RowOfMember(rows, m, j) && ArrivalOf(rows, m, later) == Clamp(rows[j].at, later);
    assert RowOfMember(rows, m, i) && RowOfMember(rows, m, j);
  }

  /** The arrival moves past `now` one second later when nothing holds it there. */
  lemma UnsteadyArrival(rows: seq<Row>, m: string, now: Instant)
    requires m in NamedIn(rows) && now > 0
    requires !SteadyMember(rows, m, now)
    ensures ArrivalOf(rows, m, now) == now
    ensures now < ArrivalOf(rows, m, now + 1) <= now + 1 + FUTURE_SKEW
  {
    hide Name, NamedIn, ArrivalOf;
    ArrivalIsEarliest(rows, m, now);
    ArrivalIsEarliest(rows, m, now + 1);
    var u :| RowOfMember(rows, m, u) && !Timely(rows[u].at, now);
    var i :| RowOfMember(rows, m, i) && ArrivalOf(rows, m, now) == Clamp(rows[i].at, now);
    var j :| RowOfMember(rows, m, j) && ArrivalOf(rows, m, now + 1) == Clamp(rows[j].at, now + 1);
  }

  // ---- retries -------------------------------------------------------------------

  /** A caller can check this before sending: the batch is filed the same at any later time. */
  ghost predicate Steady(e: Event, req: Request, now: Instant) {
    || req.occurrence != 0
    || RuleOf(e).None?
    || forall m :: m in NamedIn(req.rows) ==> SteadyMember(req.rows, m, now)
  }

  /** The keys a batch asks to store. */
  function Targets(e: Event, req: Request, now: Instant, roster: Roster): set<Key> {
    set m | m in NamedIn(req.rows) && OnRoster(roster, m) ::
      Key(req.eventId, OccurrenceOf(e, req, ArrivalOf(req.rows, m, now)), m)
  }

  lemma DocsHaveTargetKeys(e: Event, req: Request, now: Instant, roster: Roster)
    ensures var b := Collapse(req.rows, now);
            KeysOf(Docs(e, req, b, Kept(b.order, roster), now)) == Targets(e, req, now, roster)
  {
    hide Collapse, Name, FiledUnder, NamedIn, Kept, RowOf;
    var b := Collapse(req.rows, now);
    var kept := Kept(b.order, roster);
    var docs := Docs(e, req, b, kept, now);
    CollapseLists(req.rows, now);
    KeptMembers(b.order, roster);
    forall k | k in Targets(e, req, now, roster) ensures k in KeysOf(docs) {
      var m :| m in NamedIn(req.rows) && OnRoster(roster, m)
               && k == Key(req.eventId, OccurrenceOf(e, req, ArrivalOf(req.rows, m, now)), m);
      assert m in kept;
      var i :| 0 <= i < |kept| && kept[i] == m;
      assert docs[i].key == k && docs[i] in docs;
    }
    forall k | k in KeysOf(docs) ensures k in Targets(e, req, now, roster) {
      var d :| d in docs && d.key == k;
      var i :| 0 <= i < |docs| && docs[i] == d;
      assert kept[i] in kept;
    }
  }

  lemma {:induction false} ListsIgnoreTheClock(rows: seq<Row>, now: Instant, later: Instant)
    ensures Collapse(rows, now).order == Collapse(rows, later).order
    ensures Collapse(rows, now).blank == Collapse(rows, later).blank
  {
    hide Name, Clamp;
    if rows != [] {
      var init := rows[..|rows| - 1];
      ListsIgnoreTheClock(init, now, later);
      CollapseNames(init, now);
      CollapseNames(init, later);
    }
  }

  lemma SteadyTargets(e: Event, req: Request, now: Instant, later: Instant, roster: Roster)
    requires now <= later && Steady(e, req, now)
    ensures Targets(e, req, later, roster) == Targets(e, req, now, roster)
  {
    hide SteadyMember, ArrivalOf, NamedIn, Expand, Nearest;
    forall m | m in NamedIn(req.rows)
      ensures OccurrenceOf(e, req, ArrivalOf(req.rows, m, later)) == OccurrenceOf(e, req, ArrivalOf(req.rows, m, now))
    {
      if req.occurrence == 0 && RuleOf(e).Some? {
        SteadyArrival(req.rows, m, now, later);
      }
    }
  }

  /**
  A device that never heard the reply sends the same batch again, at any later time
  and after any other syncs: nothing is stored, everyone recorded or duplicate before
  is a duplicate now, and the same rows are rejected.
  */
  lemma RetryIsIdempotent(
    store: Store, e: Event, req: Request, now: Instant, later: Instant, roster: Roster, between: Store)
    requires now <= later && Steady(e, req, now)
    requires SyncEvent(store, e, req, now, roster, {}).reply.Done?
    requires SyncEvent(store, e, req, now, roster, {}).store.Keys <= between.Keys
    ensures var first := SyncEvent(store, e, req, now, roster, {}).reply.result;
            var again := SyncEvent(between, e, req, later, roster, {});
            && again.store == between && again.reply.Done?
            && again.reply.result.recorded == 0
            && again.reply.result.duplicate == first.recorded + first.duplicate
            && again.reply.result.rejected == first.rejected
            && again.reply.result.attendanceCount == CountEvent(between, req.eventId)
  {
    hide Collapse, Name, FiledUnder, Unknown, Kept, InsertMany, NamedIn, Steady, Targets, KeysOf, CountEvent;
    var b, c := Collapse(req.rows, now), Collapse(req.rows, later);
    ListsIgnoreTheClock(req.rows, now, later);
    var docs := Docs(e, req, b, Kept(b.order, roster), now);
    var redo := Docs(e, req, c, Kept(c.order, roster), later);
    DocsHaveTargetKeys(e, req, now, roster);
    DocsHaveTargetKeys(e, req, later, roster);
    SteadyTargets(e, req, now, later, roster);
    InsertStoresAll(store, docs);
    InsertMeaning(store, docs, {});
    InsertAgain(between, redo);
  }

  /** The batch sent again at `later`, right after, leaves the attendance as it is. */
  ghost predicate RetryAddsNothing(store: Store, e: Event, req: Request, now: Instant, later: Instant, roster: Roster) {
    var first := SyncEvent(store, e, req, now, roster, {}).store;
    SyncEvent(first, e, req, later, roster, {}).store == first
  }

  lemma SteadyRetry(store: Store, e: Event, req: Request, now: Instant, later: Instant, roster: Roster)
    requires now <= later && Steady(e, req, now) && !roster.Unreachable?
    ensures RetryAddsNothing(store, e, req, now, later, roster)
  {
    assert SyncEvent(store, e, req, now, roster, {}).reply.Done?;
    hide SyncEvent, Steady;
    RetryIsIdempotent(store, e, req, now, later, roster, SyncEvent(store, e, req, now, roster, {}).store);
  }

  lemma TargetOf(e: Event, req: Request, now: Instant, roster: Roster, k: Key)
    ensures k in Targets(e, req, now, roster)
            <==> k.eventId == req.eventId && k.memberId in NamedIn(req.rows) && OnRoster(roster, k.memberId)
                 && k.occurrence == OccurrenceOf(e, req, ArrivalOf(req.rows, k.memberId, now))
  {
    hide NamedIn, ArrivalOf, OccurrenceOf, OnRoster;
  }

  /** Between two daily stagings, a member nothing holds in place is stored again a second later. */
  lemma UnsteadyRetry(req: Request, m: string, now: Instant)
    requires now > 0 && req.occurrence == 0 && m in NamedIn(req.rows) && !SteadyMember(req.rows, m, now)
    ensures !RetryAddsNothing(map[], SplitEvent(req.eventId, now), req, now, now + 1, NoRoster)
  {
    var e := SplitEvent(req.eventId, now);
    UnsteadyArrival(req.rows, m, now);
    SplitEventBoundary(req.eventId, now, ArrivalOf(req.rows, m, now));
    SplitEventBoundary(req.eventId, now, ArrivalOf(req.rows, m, now + 1));
    hide SyncEvent, Targets, NamedIn, ArrivalOf, SplitEvent, FiledUnder, SteadyMember;
    var first := SyncEvent(map[], e, req, now, NoRoster, {}).store;
    SyncAddsTargets(map[], e, req, now, NoRoster);
    SyncAddsTargets(first, e, req, now + 1, NoRoster);
    var k := Key(req.eventId, FiledUnder(e, ArrivalOf(req.rows, m, now + 1)), m);
    TargetOf(e, req, now, NoRoster, k);
    TargetOf(e, req, now + 1, NoRoster, k);
    assert k !in first && k in SyncEvent(first, e, req, now + 1, NoRoster, {}).store;
  }

  /**
  Exactly the batches whose rows fix every check-in time are safe to send again: whatever
  is stored, whatever the event and the roster, and however late the retry, nothing is added
  if and only if the device named the occurrence or every member it names is steady.
  */
  lemma SafeRetryExactly(req: Request, now: Instant)
    requires now > 0
    ensures (forall store, e, later, roster: Roster ::
               Storable(e) && e.id == req.eventId && now <= later && !roster.Unreachable? ==>
                 RetryAddsNothing(store, e, req, now, later, roster))
            <==> req.occurrence != 0 || forall m :: m in NamedIn(req.rows) ==> SteadyMember(req.rows, m, now)
  {
    if req.occurrence != 0 || forall m :: m in NamedIn(req.rows) ==> SteadyMember(req.rows, m, now) {
      hide RetryAddsNothing, Storable, NamedIn, SteadyMember;
      forall store, e, later, roster: Roster |
          Storable(e) && e.id == req.eventId && now <= later && !roster.Unreachable?
        ensures RetryAddsNothing(store, e, req, now, later, roster)
      {
        SteadyRetry(store, e, req, now, later, roster);
      }
    } else {
      hide RetryAddsNothing, Storable, NamedIn, SteadyMember, SplitEvent;
      var m :| m in NamedIn(req.rows) && !SteadyMember(req.rows, m, now);
      UnsteadyRetry(req, m, now);
      SplitEventParts(req.eventId, now);
    }
  }

  // ---- order and repetition ------------------------------------------------------

  /** One whole sync, at the server time it is served. */
  datatype Call = Call(req: Request, now: Instant)

  function RunSyncs(store: Store, e: Event, calls: seq<Call>, roster: Roster): Store {
    if calls == [] then store
    else
      var n := |calls| - 1;
      SyncEvent(RunSyncs(store, e, calls[..n], roster), e, calls[n].req, calls[n].now, roster, {}).store
  }

  function RequestsOf(calls: seq<Call>): set<Request> {
    set c | c in calls :: c.req
  }

  lemma SyncAddsTargets(store: Store, e: Event, req: Request, now: Instant, roster: Roster)
    requires !roster.Unreachable?
    ensures SyncEvent(store, e, req, now, roster, {}).store.Keys == store.Keys + Targets(e, req, now, roster)
    ensures forall k :: k in store ==> SyncEvent(store, e, req, now, roster, {}).store[k] == store[k]
  {
    hide Collapse, Name, FiledUnder, Unknown, Kept, InsertMany, NamedIn, Targets, KeysOf;
    var b := Collapse(req.rows, now);
    var docs := Docs(e, req, b, Kept(b.order, roster), now);
    DocsHaveTargetKeys(e, req, now, roster);
    InsertStoresAll(store, docs);
    InsertMeaning(store, docs, {});
  }

  /** A key is stored after a run exactly when it was there before or some call asked for it. */
  lemma {:induction false} RunStoresTargets(store: Store, e: Event, calls: seq<Call>, roster: Roster)
    requires !roster.Unreachable?
    ensures forall k :: k in RunSyncs(store, e, calls, roster)
              <==> k in store || exists c :: c in calls && k in Targets(e, c.req, c.now, roster)
  {
    hide Targets, SyncEvent;
    if calls != [] {
      var n := |calls| - 1;
      RunStoresTargets(store, e, calls[..n], roster);
      SyncAddsTargets(RunSyncs(store, e, calls[..n], roster), e, calls[n].req, calls[n].now, roster);
      assert calls == calls[..n] + [calls[n]];
      assert forall c :: c in calls <==> c in calls[..n] || c == calls[n];
    }
  }

  /** Any two orders, with any repetitions and at any times, of the same steady batches store the same keys. */
  lemma OrderDoesNotMatter(store: Store, e: Event, a: seq<Call>, b: seq<Call>, roster: Roster)
    requires !roster.Unreachable? && RequestsOf(a) == RequestsOf(b)
    requires forall c :: c in a + b ==> Steady(e, c.req, c.now)
    ensures RunSyncs(store, e, a, roster).Keys == RunSyncs(store, e, b, roster).Keys
  {
    hide Targets, RunSyncs, Steady;
    RunStoresTargets(store, e, a, roster);
    RunStoresTargets(store, e, b, roster);
    SameTargets(e, a, b, roster);
    SameTargets(e, b, a, roster);
  }

  lemma SameTargets(e: Event, a: seq<Call>, b: seq<Call>, roster: Roster)
    requires RequestsOf(a) == RequestsOf(b)
    requires forall c :: c in a || c in b ==> Steady(e, c.req, c.now)
    ensures forall c :: c in a ==>
              exists d :: d in b && Targets(e, d.req, d.now, roster) == Targets(e, c.req, c.now, roster)
  {
    hide Targets, Steady;
    forall c | c in a
      ensures exists d :: d in b && Targets(e, d.req, d.now, roster) == Targets(e, c.req, c.now, roster)
    {
      assert c.req in RequestsOf(b);
      var d :| d in b && d.req == c.req;
      if c.now <= d.now {
        SteadyTargets(e, c.req, c.now, d.now, roster);
      } else {
        SteadyTargets(e, c.req, d.now, c.now, roster);
      }
    }
  }
}
