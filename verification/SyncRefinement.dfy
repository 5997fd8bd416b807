/**
The stepwise protocol against the atomic call: a whole `Sync` is one run of a lone device,
and any finished interleaving of several calls stores the keys that serving the calls one
after the other stores, in whichever order.
*/
module SyncRefinement {
  import opened Events
  import opened Attendance
  import opened Reconciliation
  import opened SyncProtocol
  import opened SyncRuns

  /** What one call sends to the collection. */
  function DocsOf(e: Event, call: Call, roster: Roster): seq<Doc> {
    var b := Collapse(call.req.rows, call.now);
    Docs(e, call.req, b, Kept(b.order, roster), call.now)
  }

  /** A member is kept once, so no document is sent twice. */
  lemma DocsAreDistinct(e: Event, call: Call, roster: Roster)
    ensures NoRepeats(DocsOf(e, call, roster))
  {
    hide Collapse, Kept, FiledUnder, RowOf;
    var b := Collapse(call.req.rows, call.now);
    CollapseNames(call.req.rows, call.now);
    KeptMembers(b.order, roster);
    var kept := Kept(b.order, roster);
    forall i, j | 0 <= i < j < |kept| ensures DocsOf(e, call, roster)[i] != DocsOf(e, call, roster)[j] {
      assert DocsOf(e, call, roster)[i].key.memberId == kept[i];
      assert DocsOf(e, call, roster)[j].key.memberId == kept[j];
    }
  }

  /** The whole call, left alone, is the protocol's run of one device over its documents. */
  lemma SyncIsARun(store: Store, shown: nat, e: Event, call: Call, roster: Roster)
    requires !roster.Unreachable?
    ensures var docs := DocsOf(e, call, roster);
            var run := InsertActions(docs) + [Recount(0), WriteCount(0)];
            var t := After(Start(store, shown, [DocSet(docs)]), run, call.req.eventId);
            var whole := SyncEvent(store, e, call.req, call.now, roster, {});
            && t.Some? && t.value.store == whole.store
            && t.value.shown == whole.reply.result.attendanceCount
            && t.value.devices[0].recorded == whole.reply.result.recorded
            && t.value.devices[0].duplicate == whole.reply.result.duplicate
  {
    hide Collapse, Kept, InsertMany, CountEvent, After, Docs, NoRepeats, Unknown, OccurrencesIn, CountOccurrence;
    DocsAreDistinct(e, call, roster);
    LoneSyncIsARun(store, shown, DocsOf(e, call, roster), call.req.eventId);
  }

  /** One device for each call. */
  function PlansOf(e: Event, calls: seq<Call>, roster: Roster): (plans: seq<set<Doc>>)
    ensures |plans| == |calls|
  {
    seq(|calls|, i requires 0 <= i < |calls| => DocSet(DocsOf(e, calls[i], roster)))
  }

  lemma KeysOfDocSet(docs: seq<Doc>, k: Key)
    ensures k in KeysOf(docs) <==> exists doc: Doc :: doc in DocSet(docs) && doc.key == k
  {
    if k in KeysOf(docs) {
      var doc :| doc in docs && doc.key == k;
      assert doc in DocSet(docs);
    }
  }

  /** The keys planned by the devices are those the calls ask for. */
  lemma PlannedAreTargets(e: Event, calls: seq<Call>, roster: Roster, k: Key)
    ensures PlannedKey(PlansOf(e, calls, roster), k)
            <==> exists c :: c in calls && k in Targets(e, c.req, c.now, roster)
  {
    hide Targets, DocsOf, DocSet, KeysOf;
    var plans := PlansOf(e, calls, roster);
    if PlannedKey(plans, k) {
      var doc: Doc :| doc.key == k && Planned(plans, doc);
      var i :| 0 <= i < |plans| && doc in plans[i];
      KeysOfDocSet(DocsOf(e, calls[i], roster), k);
      CallTargets(e, calls[i], roster);
      assert calls[i] in calls;
    }
    if c :| c in calls && k in Targets(e, c.req, c.now, roster) {
      var i :| 0 <= i < |calls| && calls[i] == c;
      CallTargets(e, c, roster);
      KeysOfDocSet(DocsOf(e, c, roster), k);
      var doc: Doc :| doc in DocSet(DocsOf(e, c, roster)) && doc.key == k;
      assert doc in plans[i];
      assert Planned(plans, doc);
    }
  }

  lemma CallTargets(e: Event, call: Call, roster: Roster)
    ensures KeysOf(DocsOf(e, call, roster)) == Targets(e, call.req, call.now, roster)
  {
    hide Collapse, Kept, FiledUnder, KeysOf, Targets, Docs;
    DocsHaveTargetKeys(e, call.req, call.now, roster);
  }

  /** Any finished interleaving of the calls stores the keys of serving them in the listed order. */
  lemma InterleavedRefinesAtomic(
    store: Store, shown: nat, e: Event, calls: seq<Call>, roster: Roster, run: seq<Action>, eventId: Id)
    requires shown <= CountEvent(store, eventId) && !roster.Unreachable?
    requires var t := After(Start(store, shown, PlansOf(e, calls, roster)), run, eventId); t.Some? && AllDone(t.value)
    ensures After(Start(store, shown, PlansOf(e, calls, roster)), run, eventId).value.store.Keys
            == RunSyncs(store, e, calls, roster).Keys
  {
    hide CountEvent, After, PlansOf, Start, RunSyncs, TotalRecorded, Targets, AllDone, Planned;
    var plans := PlansOf(e, calls, roster);
    InterleavedSync(store, shown, plans, run, eventId);
    RunStoresTargets(store, e, calls, roster);
    var t := After(Start(store, shown, plans), run, eventId).value;
    forall k ensures k in t.store <==> k in RunSyncs(store, e, calls, roster) {
      PlannedAreTargets(e, calls, roster, k);
      if k in t.store && k !in store {
        assert Planned(plans, Doc(k, t.store[k]));
      }
      if PlannedKey(plans, k) {
        var doc: Doc :| doc.key == k && Planned(plans, doc);
      }
    }
  }

  /**
  Interleaving, order, repetition and serving time all together: a finished interleaving
  of some calls and one of others stores the same keys when both make the same steady requests.
  */
  lemma ScheduleDoesNotMatter(
    store: Store, shown: nat, e: Event, roster: Roster, eventId: Id,
    a: seq<Call>, runA: seq<Action>, b: seq<Call>, runB: seq<Action>)
    requires shown <= CountEvent(store, eventId) && !roster.Unreachable?
    requires RequestsOf(a) == RequestsOf(b) && forall c :: c in a + b ==> Steady(e, c.req, c.now)
    requires var t := After(Start(store, shown, PlansOf(e, a, roster)), runA, eventId); t.Some? && AllDone(t.value)
    requires var t := After(Start(store, shown, PlansOf(e, b, roster)), runB, eventId); t.Some? && AllDone(t.value)
    ensures After(Start(store, shown, PlansOf(e, a, roster)), runA, eventId).value.store.Keys
            == After(Start(store, shown, PlansOf(e, b, roster)), runB, eventId).value.store.Keys
  {
    hide CountEvent, After, PlansOf, Start, RunSyncs, AllDone, Steady, RequestsOf;
    InterleavedRefinesAtomic(store, shown, e, a, roster, runA, eventId);
    InterleavedRefinesAtomic(store, shown, e, b, roster, runB, eventId);
    OrderDoesNotMatter(store, e, a, b, roster);
  }
}
