/**
Particular runs of the sync protocol: the whole call as one run of a lone device, the
runs whose published count is exact, and one whose published count lags.
*/
module SyncRuns {
  import opened Options
  import opened Events
  import opened Attendance
  import opened SyncProtocol

  // ---- the atomic call is a run --------------------------------------------------

  function InsertActions(docs: seq<Doc>): (run: seq<Action>)
    ensures |run| == |docs|
  {
    seq(|docs|, i requires 0 <= i < |docs| => InsertDoc(0, docs[i]))
  }

  function DocSet(docs: seq<Doc>): set<Doc> {
    set d | d in docs
  }

  predicate NoRepeats(docs: seq<Doc>) {
    forall i, j :: 0 <= i < j < |docs| ==> docs[i] != docs[j]
  }

  lemma {:induction false} InsertsRun(store: Store, shown: nat, docs: seq<Doc>, n: nat, eventId: Id)
    requires n <= |docs| && NoRepeats(docs)
    ensures var ins := InsertMany(store, docs[..n], {});
            After(Start(store, shown, [DocSet(docs)]), InsertActions(docs)[..n], eventId)
            == Some(State(ins.store, shown, [Device(DocSet(docs[n..]), ins.recorded, ins.duplicate, Inserting)]))
  {
    hide CountEvent;
    var s := Start(store, shown, [DocSet(docs)]);
    if n == 0 {
      assert docs[0..] == docs;
      assert s.devices == [Device(DocSet(docs), 0, 0, Inserting)];
      assert docs[..0] == [] && InsertActions(docs)[..0] == [];
    } else {
      hide Start, InsertOne, After, Apply;
      var doc := docs[n - 1];
      InsertsRun(store, shown, docs, n - 1, eventId);
      assert InsertActions(docs)[..n] == InsertActions(docs)[..n - 1] + [InsertDoc(0, doc)];
      AfterSnoc(s, InsertActions(docs)[..n - 1], InsertDoc(0, doc), eventId);
      var ins := InsertMany(store, docs[..n - 1], {});
      DropDoc(docs, n);
      LoneInsert(ins, shown, DocSet(docs[n - 1..]), doc, eventId);
      assert docs[..n][..n - 1] == docs[..n - 1] && docs[..n][n - 1] == doc;
      assert InsertMany(store, docs[..n], {}) == InsertOne(ins, doc, {});
    }
  }

  lemma LoneInsert(ins: Insertion, shown: nat, pending: set<Doc>, doc: Doc, eventId: Id)
    requires doc in pending
    ensures var s := State(ins.store, shown, [Device(pending, ins.recorded, ins.duplicate, Inserting)]);
            var next := InsertOne(ins, doc, {});
            Enabled(s, InsertDoc(0, doc)) && Apply(s, InsertDoc(0, doc), eventId)
            == State(next.store, shown, [Device(pending - {doc}, next.recorded, next.duplicate, Inserting)])
  {
    hide CountEvent;
    var s := State(ins.store, shown, [Device(pending, ins.recorded, ins.duplicate, Inserting)]);
    assert forall x: Device :: s.devices[0 := x] == [x];
  }

  lemma DropDoc(docs: seq<Doc>, n: nat)
    requires 1 <= n <= |docs| && NoRepeats(docs)
    ensures docs[n - 1] in DocSet(docs[n - 1..])
    ensures DocSet(docs[n - 1..]) - {docs[n - 1]} == DocSet(docs[n..])
  {
    assert docs[n - 1..] == [docs[n - 1]] + docs[n..];
  }

  /**
  A sync that runs alone is the protocol's run of one device: it inserts the batch in
  order, recounts and writes, and the published count is the true one.
  */
  lemma LoneSyncIsARun(store: Store, shown: nat, docs: seq<Doc>, eventId: Id)
    requires NoRepeats(docs)
    ensures var run := InsertActions(docs) + [Recount(0), WriteCount(0)];
            var t := After(Start(store, shown, [DocSet(docs)]), run, eventId);
            var ins := InsertMany(store, docs, {});
            t.Some? && t.value.store == ins.store && t.value.shown == CountEvent(ins.store, eventId)
            && t.value.devices[0].recorded == ins.recorded && t.value.devices[0].duplicate == ins.duplicate
  {
    hide CountEvent, InsertMany;
    var inserts := InsertActions(docs);
    InsertsRun(store, shown, docs, |docs|, eventId);
    assert docs[..|docs|] == docs && inserts[..|docs|] == inserts;
    assert DocSet(docs[|docs|..]) == {};
    AfterSnoc(Start(store, shown, [DocSet(docs)]), inserts, Recount(0), eventId);
    AfterSnoc(Start(store, shown, [DocSet(docs)]), inserts + [Recount(0)], WriteCount(0), eventId);
    assert inserts + [Recount(0)] + [WriteCount(0)] == inserts + [Recount(0), WriteCount(0)];
  }

  lemma AfterSnoc(s: State, run: seq<Action>, a: Action, eventId: Id)
    ensures After(s, run + [a], eventId) ==
            match After(s, run, eventId)
            case None => None
            case Some(t) => if Enabled(t, a) then Some(Apply(t, a, eventId)) else None
  {
    assert (run + [a])[..|run|] == run;
  }

  // ---- when the published count is exact -----------------------------------------

  lemma {:induction false} AfterConcat(s: State, a: seq<Action>, b: seq<Action>, eventId: Id)
    ensures After(s, a + b, eventId) ==
            match After(s, a, eventId) case None => None case Some(t) => After(t, b, eventId)
  {
    hide Enabled, Apply;
    if b == [] {
      assert a + b == a;
    } else {
      var n := |b| - 1;
      AfterConcat(s, a, b[..n], eventId);
      AfterSnoc(s, a + b[..n], b[n], eventId);
      assert a + b[..n] + [b[n]] == a + b;
    }
  }

  /** Without its recount a device is never done inserting. */
  lemma {:induction false} InsertingStays(s: State, run: seq<Action>, j: nat, eventId: Id)
    requires j < |s.devices| && s.devices[j].phase == Inserting
    requires forall a :: a in run ==> !a.Recount?
    ensures var t := After(s, run, eventId);
            t.Some? ==> |t.value.devices| == |s.devices| && t.value.devices[j].phase == Inserting
  {
    hide CountEvent;
    if run != [] {
      InsertingStays(s, run[..|run| - 1], j, eventId);
      assert run[|run| - 1] in run;
    }
  }

  predicate NoneInserting(s: State) {
    forall j :: 0 <= j < |s.devices| ==> s.devices[j].phase != Inserting
  }

  /** When every device has recounted, only count writes are left and the store stands still. */
  lemma {:induction false} QuietStore(s: State, run: seq<Action>, eventId: Id)
    requires NoneInserting(s)
    ensures var t := After(s, run, eventId);
            t.Some? ==> NoneInserting(t.value) && t.value.store == s.store
  {
    hide CountEvent;
    if run != [] {
      QuietStore(s, run[..|run| - 1], eventId);
    }
  }

  /** The event's keys in a store; the count is their number. */
  function EventKeys(store: Store, eventId: Id): set<Key> {
    set k | k in store.Keys && k.eventId == eventId
  }

  lemma CountIsSize(store: Store, eventId: Id)
    ensures CountEvent(store, eventId) == |EventKeys(store, eventId)|
  {
  }

  lemma {:induction false} StoreGrows(s: State, run: seq<Action>, eventId: Id)
    ensures var t := After(s, run, eventId);
            t.Some? ==> s.store.Keys <= t.value.store.Keys && |t.value.devices| == |s.devices|
  {
    hide CountEvent;
    if run != [] {
      StoreGrows(s, run[..|run| - 1], eventId);
    }
  }

  /** Without a count write the published count stands. */
  lemma {:induction false} ShownStays(s: State, run: seq<Action>, eventId: Id)
    requires forall a :: a in run ==> !a.WriteCount?
    ensures var t := After(s, run, eventId);
            t.Some? ==> t.value.shown == s.shown
  {
    hide CountEvent;
    if run != [] {
      assert run[|run| - 1] in run;
      ShownStays(s, run[..|run| - 1], eventId);
    }
  }

  /** A device that has recounted holds its count until it writes it, once. */
  lemma {:induction false} CountStays(s: State, run: seq<Action>, i: nat, eventId: Id)
    requires i < |s.devices| && s.devices[i].phase != Inserting
    ensures var t := After(s, run, eventId);
            t.Some? ==>
              && i < |t.value.devices|
              && t.value.devices[i].phase == if WriteCount(i) in run then Finished else s.devices[i].phase
  {
    hide CountEvent;
    if run != [] {
      var init, last := run[..|run| - 1], run[|run| - 1];
      assert run == init + [last];
      CountStays(s, init, i, eventId);
    }
  }

  /**
  The published count is what the last device to write had counted, so it is the true one
  if and only if no record of the event was stored after that device's recount.
  */
  lemma LastWriteDecides(s: State, before: seq<Action>, i: nat, between: seq<Action>, rest: seq<Action>, eventId: Id)
    requires forall a :: a in rest ==> !a.WriteCount?
    requires After(s, before + [Recount(i)] + between + [WriteCount(i)] + rest, eventId).Some?
    ensures After(s, before + [Recount(i)], eventId).Some?
    ensures var c := After(s, before + [Recount(i)], eventId).value;
            var t := After(s, before + [Recount(i)] + between + [WriteCount(i)] + rest, eventId).value;
            && t.shown == CountEvent(c.store, eventId)
            && (t.shown == CountEvent(t.store, eventId) <==> EventKeys(t.store, eventId) == EventKeys(c.store, eventId))
  {
    hide CountEvent, After, EventKeys;
    var counted := before + [Recount(i)];
    var tail := between + [WriteCount(i)] + rest;
    assert counted + between + [WriteCount(i)] + rest == counted + tail;
    AfterConcat(s, counted, tail, eventId);
    AfterSnoc(s, before, Recount(i), eventId);
    var c := After(s, counted, eventId).value;
    AfterConcat(c, between + [WriteCount(i)], rest, eventId);
    AfterSnoc(c, between, WriteCount(i), eventId);
    CountStays(c, between, i, eventId);
    var w := After(c, between + [WriteCount(i)], eventId).value;
    ShownStays(w, rest, eventId);
    StoreGrows(c, tail, eventId);
    SameCount(c.store, After(c, tail, eventId).value.store, eventId);
  }

  /** A store that has grown holds as many keys of an event exactly when it holds the same. */
  lemma SameCount(store: Store, grown: Store, eventId: Id)
    requires store.Keys <= grown.Keys
    ensures CountEvent(grown, eventId) == CountEvent(store, eventId)
            <==> EventKeys(grown, eventId) == EventKeys(store, eventId)
  {
    CountIsSize(store, eventId);
    CountIsSize(grown, eventId);
    var few, many := EventKeys(store, eventId), EventKeys(grown, eventId);
    assert few <= many;
    assert many == few + (many - few);
    assert |many| == |few| + |many - few|;
  }

  /**
  If the device that recounts last also writes last, the published count is the true
  one. Syncs served one at a time are the plain case.
  */
  lemma LastCounterLastWriter(
      s: State, before: seq<Action>, i: nat, between: seq<Action>, rest: seq<Action>, eventId: Id)
    requires forall a :: a in between + rest ==> !a.Recount?
    requires forall a :: a in rest ==> !a.WriteCount?
    requires After(s, before + [Recount(i)] + between + [WriteCount(i)] + rest, eventId).Some?
    requires AllDone(After(s, before + [Recount(i)] + between + [WriteCount(i)] + rest, eventId).value)
    ensures var t := After(s, before + [Recount(i)] + between + [WriteCount(i)] + rest, eventId).value;
            t.shown == CountEvent(t.store, eventId)
  {
    hide CountEvent, After, EventKeys;
    LastWriteDecides(s, before, i, between, rest, eventId);
    var counted, tail := before + [Recount(i)], between + [WriteCount(i)] + rest;
    assert counted + between + [WriteCount(i)] + rest == counted + tail;
    AfterConcat(s, counted, tail, eventId);
    var c := After(s, counted, eventId).value;
    StoreGrows(c, tail, eventId);
    assert NoneInserting(c) by {
      forall j | 0 <= j < |c.devices| ensures c.devices[j].phase != Inserting {
        if c.devices[j].phase == Inserting {
          InsertingStays(c, tail, j, eventId);
        }
      }
    }
    QuietStore(c, tail, eventId);
  }

  /** A device past inserting has recounted. */
  lemma {:induction false} CountedHasRecount(
    store: Store, shown: nat, plans: seq<set<Doc>>, run: seq<Action>, i: nat, eventId: Id)
    requires After(Start(store, shown, plans), run, eventId).Some?
    requires var t := After(Start(store, shown, plans), run, eventId).value;
             i < |t.devices| && t.devices[i].phase != Inserting
    ensures Recount(i) in run
  {
    hide CountEvent;
    if run != [] {
      var init, last := run[..|run| - 1], run[|run| - 1];
      assert run == init + [last];
      var m := After(Start(store, shown, plans), init, eventId).value;
      if i < |m.devices| && m.devices[i].phase != Inserting {
        CountedHasRecount(store, shown, plans, init, i, eventId);
      }
    }
  }

  /** A run with a count write, cut at its last one. */
  lemma {:induction false} CutAtLastWrite(run: seq<Action>) returns (init: seq<Action>, i: nat, rest: seq<Action>)
    requires exists a :: a in run && a.WriteCount?
    ensures run == init + [WriteCount(i)] + rest && forall a :: a in rest ==> !a.WriteCount?
  {
    var n := |run| - 1;
    assert run == run[..n] + [run[n]];
    if run[n].WriteCount? {
      init, i, rest := run[..n], run[n].device, [];
    } else {
      init, i, rest := CutAtLastWrite(run[..n]);
      rest := rest + [run[n]];
    }
  }

  /** A device that is done has written. */
  lemma {:induction false} DoneHasWritten(
    store: Store, shown: nat, plans: seq<set<Doc>>, run: seq<Action>, i: nat, eventId: Id)
    requires After(Start(store, shown, plans), run, eventId).Some?
    requires var t := After(Start(store, shown, plans), run, eventId).value;
             i < |t.devices| && t.devices[i].phase == Finished
    ensures WriteCount(i) in run
  {
    hide CountEvent;
    if run != [] {
      var init, last := run[..|run| - 1], run[|run| - 1];
      assert run == init + [last];
      var m := After(Start(store, shown, plans), init, eventId).value;
      if i < |m.devices| && m.devices[i].phase == Finished {
        DoneHasWritten(store, shown, plans, init, i, eventId);
      }
    }
  }

  /**
  Every finished run has a last count write and, before it, that device's recount; its
  published count is exact if and only if no record of the event was stored after that recount.
  */
  lemma PublishedCountExactly(store: Store, shown: nat, plans: seq<set<Doc>>, run: seq<Action>, eventId: Id)
      returns (before: seq<Action>, i: nat, between: seq<Action>, rest: seq<Action>)
    requires plans != [] && After(Start(store, shown, plans), run, eventId).Some?
    requires AllDone(After(Start(store, shown, plans), run, eventId).value)
    ensures run == before + [Recount(i)] + between + [WriteCount(i)] + rest
    ensures forall a :: a in rest ==> !a.WriteCount?
    ensures After(Start(store, shown, plans), before + [Recount(i)], eventId).Some?
    ensures var c := After(Start(store, shown, plans), before + [Recount(i)], eventId).value;
            var t := After(Start(store, shown, plans), run, eventId).value;
            t.shown == CountEvent(t.store, eventId) <==> EventKeys(t.store, eventId) == EventKeys(c.store, eventId)
  {
    var s := Start(store, shown, plans);
    hide CountEvent, After, EventKeys, Start;
    StoreGrows(s, run, eventId);
    DoneHasWritten(store, shown, plans, run, 0, eventId);
    assert WriteCount(0) in run && WriteCount(0).WriteCount?;
    var init;
    init, i, rest := CutAtLastWrite(run);
    AfterConcat(s, init + [WriteCount(i)], rest, eventId);
    AfterSnoc(s, init, WriteCount(i), eventId);
    CountedHasRecount(store, shown, plans, init, i, eventId);
    var k :| 0 <= k < |init| && init[k] == Recount(i);
    before, between := init[..k], init[k + 1..];
    assert init == before + [Recount(i)] + between;
    LastWriteDecides(s, before, i, between, rest, eventId);
  }

  // ---- a run whose published count lags ------------------------------------------

  function OneDoc(eventId: Id, m: string): Doc {
    Doc(Key(eventId, 1, m), Record("QR", 1, 1, true))
  }

  const AMA := "ama"
  const KOFI := "kofi"

  lemma CountOne(a: Doc)
    ensures CountEvent(map[a.key := a.record], a.key.eventId) == 1
  {
    var one: Store := map[a.key := a.record];
    assert (set k | k in one.Keys && k.eventId == a.key.eventId) == {a.key};
  }

  lemma CountTwo(a: Doc, b: Doc)
    requires a.key != b.key && a.key.eventId == b.key.eventId
    ensures CountEvent(map[a.key := a.record][b.key := b.record], a.key.eventId) == 2
  {
    var one: Store := map[a.key := a.record];
    var two := one[b.key := b.record];
    assert (set k | k in two.Keys && k.eventId == a.key.eventId) == {a.key, b.key};
  }

  function LagRun(a: Doc, b: Doc): (run: seq<Action>)
    ensures |run| == 6
  {
    [InsertDoc(0, a), Recount(0), InsertDoc(1, b), Recount(1), WriteCount(1), WriteCount(0)]
  }

  /** The state after k steps of the lagging run. */
  function LagState(a: Doc, b: Doc, k: nat): State {
    var one: Store := if k >= 1 then map[a.key := a.record] else map[];
    var store := if k >= 3 then one[b.key := b.record] else one;
    State(store, if k == 6 then 1 else if k == 5 then 2 else 0, [
      Device(if k >= 1 then {} else {a}, if k >= 1 then 1 else 0, 0,
             if k >= 6 then Finished else if k >= 2 then Counted(1) else Inserting),
      Device(if k >= 3 then {} else {b}, if k >= 3 then 1 else 0, 0,
             if k >= 5 then Finished else if k >= 4 then Counted(2) else Inserting)])
  }

  lemma LagStep(a: Doc, b: Doc, k: nat)
    requires k < 6 && a.key != b.key && a.key.eventId == b.key.eventId
    ensures Enabled(LagState(a, b, k), LagRun(a, b)[k])
    ensures Apply(LagState(a, b, k), LagRun(a, b)[k], a.key.eventId) == LagState(a, b, k + 1)
  {
    CountOne(a);
    CountTwo(a, b);
    hide CountEvent;
    assert {a} - {a} == {} && {b} - {b} == {};
    var s := LagState(a, b, k);
    assert forall d: Device :: s.devices[0 := d] == [d, s.devices[1]];
    assert forall d: Device :: s.devices[1 := d] == [s.devices[0], d];
  }

  lemma {:induction false} LagReaches(a: Doc, b: Doc, k: nat)
    requires k <= 6 && a.key != b.key && a.key.eventId == b.key.eventId
    ensures After(Start(map[], 0, [{a}, {b}]), LagRun(a, b)[..k], a.key.eventId) == Some(LagState(a, b, k))
  {
    var s := Start(map[], 0, [{a}, {b}]);
    if k == 0 {
      assert s.devices == [Device({a}, 0, 0, Inserting), Device({b}, 0, 0, Inserting)];
      assert LagRun(a, b)[..0] == [];
    } else {
      hide Start, After, Enabled, Apply, LagState, LagRun;
      LagReaches(a, b, k - 1);
      LagStep(a, b, k - 1);
      AfterSnoc(s, LagRun(a, b)[..k - 1], LagRun(a, b)[k - 1], a.key.eventId);
      assert LagRun(a, b)[..k] == LagRun(a, b)[..k - 1] + [LagRun(a, b)[k - 1]];
    }
  }

  /**
  The first device counts one attendee, the second stores and publishes two, and then
  the first publishes its stale one: the published count stays below the true one.
  */
  lemma PublishedCountMayLag(eventId: Id)
    ensures var a, b := OneDoc(eventId, AMA), OneDoc(eventId, KOFI);
            var t := After(Start(map[], 0, [{a}, {b}]), LagRun(a, b), eventId);
            t.Some? && AllDone(t.value) && t.value.shown == 1 && CountEvent(t.value.store, eventId) == 2
  {
    var a, b := OneDoc(eventId, AMA), OneDoc(eventId, KOFI);
    assert a.key != b.key;
    LagReaches(a, b, 6);
    CountTwo(a, b);
    hide After, CountEvent, Start;
    assert LagRun(a, b)[..6] == LagRun(a, b);
  }
}
