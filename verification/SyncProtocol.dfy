/**
Several devices syncing one event at the same time. Each database operation is one
step: the insert of one document, the recount, the write of the count. Steps of
different devices interleave in any way.
*/
module SyncProtocol {
  import opened Options
  import opened Sets
  import opened Events
  import opened Attendance

  datatype Phase = Inserting | Counted(total: nat) | Finished

  datatype Device = Device(pending: set<Doc>, recorded: nat, duplicate: nat, phase: Phase)

  /** The shared collection, the stored `attendanceCount`, and what each device has left to do. */
  datatype State = State(store: Store, shown: nat, devices: seq<Device>)

  datatype Action =
    | InsertDoc(device: nat, doc: Doc)
    | Recount(device: nat)
    | WriteCount(device: nat)

  predicate Enabled(s: State, a: Action) {
    a.device < |s.devices| &&
    var d := s.devices[a.device];
    match a
    case InsertDoc(_, doc) => d.phase == Inserting && doc in d.pending
    case Recount(_) => d.phase == Inserting && d.pending == {}
    case WriteCount(_) => d.phase.Counted?
  }

  function Apply(s: State, a: Action, eventId: Id): State
    requires Enabled(s, a)
  {
    var d := s.devices[a.device];
    match a
    case InsertDoc(i, doc) =>
      if doc.key in s.store then
        s.(devices := s.devices[i := d.(pending := d.pending - {doc}, duplicate := d.duplicate + 1)])
      else
        s.(store := s.store[doc.key := doc.record],
           devices := s.devices[i := d.(pending := d.pending - {doc}, recorded := d.recorded + 1)])
    case Recount(i) =>
      s.(devices := s.devices[i := d.(phase := Counted(CountEvent(s.store, eventId)))])
    case WriteCount(i) =>
      s.(shown := d.phase.total, devices := s.devices[i := d.(phase := Finished)])
  }

  /** The state after a run, if every step of it was enabled. */
  function After(s: State, run: seq<Action>, eventId: Id): Option<State> {
    if run == [] then Some(s)
    else
      match After(s, run[..|run| - 1], eventId)
      case None => None
      case Some(t) => if Enabled(t, run[|run| - 1]) then Some(Apply(t, run[|run| - 1], eventId)) else None
  }

  /** Every device starts with its own batch; batches may overlap. */
  function Start(store: Store, shown: nat, plans: seq<set<Doc>>): (s: State)
    ensures |s.devices| == |plans|
  {
    State(store, shown, seq(|plans|, i requires 0 <= i < |plans| => Device(plans[i], 0, 0, Inserting)))
  }

  function TotalRecorded(devices: seq<Device>): nat {
    if devices == [] then 0
    else TotalRecorded(devices[..|devices| - 1]) + devices[|devices| - 1].recorded
  }

  // ---- what every step keeps -----------------------------------------------------

  ghost predicate StoredFromPlans(s: State, store: Store, plans: seq<set<Doc>>) {
    && (forall k :: k in store ==> k in s.store && s.store[k] == store[k])
    && (forall k :: k in s.store && k !in store ==> Planned(plans, Doc(k, s.store[k])))
  }

  ghost predicate Planned(plans: seq<set<Doc>>, doc: Doc) {
    exists i :: 0 <= i < |plans| && doc in plans[i]
  }

  ghost predicate PlannedKey(plans: seq<set<Doc>>, k: Key) {
    exists doc: Doc :: doc.key == k && Planned(plans, doc)
  }

  ghost predicate DeviceInv(s: State, d: Device, plan: set<Doc>, eventId: Id) {
    && d.pending <= plan
    && (forall doc :: doc in plan && doc !in d.pending ==> doc.key in s.store)
    && d.recorded + d.duplicate + |d.pending| == |plan|
    && (d.phase != Inserting ==> d.pending == {})
    && (d.phase.Counted? ==> d.phase.total <= CountEvent(s.store, eventId))
  }

  ghost predicate Inv(s: State, store: Store, plans: seq<set<Doc>>, eventId: Id) {
    && |s.devices| == |plans|
    && StoredFromPlans(s, store, plans)
    && (forall i :: 0 <= i < |plans| ==> DeviceInv(s, s.devices[i], plans[i], eventId))
    && |s.store| == |store| + TotalRecorded(s.devices)
    && s.shown <= CountEvent(s.store, eventId)
  }

  lemma {:induction false} TotalAfterUpdate(devices: seq<Device>, i: nat, d: Device)
    requires i < |devices|
    ensures TotalRecorded(devices[i := d]) == TotalRecorded(devices) - devices[i].recorded + d.recorded
  {
    var n := |devices| - 1;
    if i < n {
      assert devices[i := d][..n] == devices[..n][i := d];
      TotalAfterUpdate(devices[..n], i, d);
    } else {
      assert devices[i := d][..n] == devices[..n];
    }
  }

  lemma {:induction false} NoneRecorded(devices: seq<Device>)
    requires forall i :: 0 <= i < |devices| ==> devices[i].recorded == 0
    ensures TotalRecorded(devices) == 0
  {
    if devices != [] {
      NoneRecorded(devices[..|devices| - 1]);
    }
  }

  /** Storing a new key never lowers a count. */
  lemma CountGrows(store: Store, doc: Doc, eventId: Id)
    requires doc.key !in store
    ensures CountEvent(store, eventId) <= CountEvent(store[doc.key := doc.record], eventId)
    ensures |store[doc.key := doc.record]| == |store| + 1
  {
    var grown := store[doc.key := doc.record];
    SubsetSize(set k | k in store.Keys && k.eventId == eventId, set k | k in grown.Keys && k.eventId == eventId);
    assert grown.Keys == store.Keys + {doc.key};
    assert |grown| == |grown.Keys|;
  }

  lemma StartInv(store: Store, shown: nat, plans: seq<set<Doc>>, eventId: Id)
    requires shown <= CountEvent(store, eventId)
    ensures Inv(Start(store, shown, plans), store, plans, eventId)
  {
    NoneRecorded(Start(store, shown, plans).devices);
  }

  /** A device that does not move keeps its invariant while the store grows. */
  lemma OtherDevice(s: State, t: State, d: Device, plan: set<Doc>, eventId: Id)
    requires DeviceInv(s, d, plan, eventId)
    requires s.store.Keys <= t.store.Keys && CountEvent(s.store, eventId) <= CountEvent(t.store, eventId)
    ensures DeviceInv(t, d, plan, eventId)
  {
    hide CountEvent;
  }

  lemma InsertingDevice(s: State, t: State, i: nat, doc: Doc, plan: set<Doc>, eventId: Id)
    requires Enabled(s, InsertDoc(i, doc)) && t == Apply(s, InsertDoc(i, doc), eventId)
    requires DeviceInv(s, s.devices[i], plan, eventId)
    ensures DeviceInv(t, t.devices[i], plan, eventId)
    ensures s.store.Keys <= t.store.Keys && doc.key in t.store
  {
    hide CountEvent;
    var d := s.devices[i];
    assert |d.pending| == |d.pending - {doc}| + 1;
  }

  lemma InsertKeepsInv(s: State, i: nat, doc: Doc, store: Store, plans: seq<set<Doc>>, eventId: Id)
    requires Inv(s, store, plans, eventId) && Enabled(s, InsertDoc(i, doc))
    ensures Inv(Apply(s, InsertDoc(i, doc), eventId), store, plans, eventId)
  {
    hide CountEvent, TotalRecorded, DeviceInv;
    var t := Apply(s, InsertDoc(i, doc), eventId);
    InsertingDevice(s, t, i, doc, plans[i], eventId);
    TotalAfterUpdate(s.devices, i, t.devices[i]);
    assert Planned(plans, doc) by { DevicePlans(s, s.devices[i], plans[i], eventId); }
    if doc.key !in s.store {
      CountGrows(s.store, doc, eventId);
      assert Doc(doc.key, doc.record) == doc;
    }
    forall j | 0 <= j < |plans| && j != i ensures DeviceInv(t, t.devices[j], plans[j], eventId) {
      OtherDevice(s, t, s.devices[j], plans[j], eventId);
    }
  }

  lemma DevicePlans(s: State, d: Device, plan: set<Doc>, eventId: Id)
    requires DeviceInv(s, d, plan, eventId)
    ensures d.pending <= plan
  {
  }

  /** A device that only changes phase changes nothing the others rely on. */
  lemma PhaseKeepsInv(s: State, i: nat, phase: Phase, shown: nat, store: Store, plans: seq<set<Doc>>, eventId: Id)
    requires Inv(s, store, plans, eventId) && i < |s.devices| && phase != Inserting && s.devices[i].pending == {}
    requires phase.Counted? ==> phase.total <= CountEvent(s.store, eventId)
    requires shown <= CountEvent(s.store, eventId)
    ensures Inv(s.(shown := shown, devices := s.devices[i := s.devices[i].(phase := phase)]), store, plans, eventId)
  {
    hide CountEvent, TotalRecorded, StoredFromPlans;
    var t := s.(shown := shown, devices := s.devices[i := s.devices[i].(phase := phase)]);
    TotalAfterUpdate(s.devices, i, t.devices[i]);
    assert StoredFromPlans(t, store, plans) by { SameStore(s, t, store, plans); }
    forall j | 0 <= j < |plans| ensures DeviceInv(t, t.devices[j], plans[j], eventId) {
      assert DeviceInv(s, s.devices[j], plans[j], eventId);
    }
  }

  lemma SameStore(s: State, t: State, store: Store, plans: seq<set<Doc>>)
    requires StoredFromPlans(s, store, plans) && s.store == t.store
    ensures StoredFromPlans(t, store, plans)
  {
  }

  lemma StepKeepsInv(s: State, a: Action, store: Store, plans: seq<set<Doc>>, eventId: Id)
    requires Inv(s, store, plans, eventId) && Enabled(s, a)
    ensures Inv(Apply(s, a, eventId), store, plans, eventId)
  {
    match a
    case InsertDoc(i, doc) =>
      hide Inv, Apply, Enabled;
      InsertKeepsInv(s, i, doc, store, plans, eventId);
    case Recount(i) =>
      hide CountEvent, TotalRecorded, StoredFromPlans;
      PhaseKeepsInv(s, i, Counted(CountEvent(s.store, eventId)), s.shown, store, plans, eventId);
    case WriteCount(i) =>
      hide CountEvent, TotalRecorded, StoredFromPlans;
      assert DeviceInv(s, s.devices[i], plans[i], eventId);
      PhaseKeepsInv(s, i, Finished, s.devices[i].phase.total, store, plans, eventId);
  }

  lemma {:induction false} RunKeepsInv(store: Store, shown: nat, plans: seq<set<Doc>>, run: seq<Action>, eventId: Id)
    requires shown <= CountEvent(store, eventId)
    ensures var t := After(Start(store, shown, plans), run, eventId);
            t.Some? ==> Inv(t.value, store, plans, eventId)
  {
    hide CountEvent, Inv, Apply, Enabled;
    if run == [] {
      StartInv(store, shown, plans, eventId);
    } else {
      var init, a := run[..|run| - 1], run[|run| - 1];
      RunKeepsInv(store, shown, plans, init, eventId);
      var m := After(Start(store, shown, plans), init, eventId);
      if m.Some? && Enabled(m.value, a) {
        StepKeepsInv(m.value, a, store, plans, eventId);
      }
    }
  }

  // ---- what a whole run means ----------------------------------------------------

  predicate AllDone(s: State) {
    forall i :: 0 <= i < |s.devices| ==> s.devices[i].phase == Finished
  }

  /**
  However the devices' steps interleave, a finished run stores exactly the keys that
  were there before and those some device planned, each once and never overwritten;
  the devices together report exactly the new ones as recorded; and the published
  count is never more than the true one.
  */
  lemma InterleavedSync(store: Store, shown: nat, plans: seq<set<Doc>>, run: seq<Action>, eventId: Id)
    requires shown <= CountEvent(store, eventId)
    requires After(Start(store, shown, plans), run, eventId).Some?
    ensures var t := After(Start(store, shown, plans), run, eventId).value;
            && |t.devices| == |plans| && StoredFromPlans(t, store, plans)
            && TotalRecorded(t.devices) == |t.store| - |store|
            && t.shown <= CountEvent(t.store, eventId)
            && (AllDone(t) ==>
                  && (forall doc: Doc :: Planned(plans, doc) ==> doc.key in t.store)
                  && forall i :: 0 <= i < |plans| ==> t.devices[i].recorded + t.devices[i].duplicate == |plans[i]|)
  {
    hide CountEvent, TotalRecorded, After;
    RunKeepsInv(store, shown, plans, run, eventId);
    var t := After(Start(store, shown, plans), run, eventId).value;
    if AllDone(t) {
      forall i | 0 <= i < |plans| ensures t.devices[i].pending == {} && DeviceInv(t, t.devices[i], plans[i], eventId) {
        assert t.devices[i].phase == Finished;
      }
    }
  }

  /** Two finished runs over batches that ask for the same keys end with the same keys stored. */
  lemma InterleavingDoesNotMatter(
      store: Store, shown: nat, plans: seq<set<Doc>>, run: seq<Action>,
      others: seq<set<Doc>>, other: seq<Action>, eventId: Id)
    requires shown <= CountEvent(store, eventId)
    requires After(Start(store, shown, plans), run, eventId).Some?
             && After(Start(store, shown, others), other, eventId).Some?
    requires AllDone(After(Start(store, shown, plans), run, eventId).value)
    requires AllDone(After(Start(store, shown, others), other, eventId).value)
    requires forall k :: PlannedKey(plans, k) <==> PlannedKey(others, k)
    ensures After(Start(store, shown, plans), run, eventId).value.store.Keys
            == After(Start(store, shown, others), other, eventId).value.store.Keys
  {
    hide CountEvent, TotalRecorded, After, Planned;
    InterleavedSync(store, shown, plans, run, eventId);
    InterleavedSync(store, shown, others, other, eventId);
    var t := After(Start(store, shown, plans), run, eventId).value;
    var u := After(Start(store, shown, others), other, eventId).value;
    PlannedKeysStored(t, u, store, plans, others);
    PlannedKeysStored(u, t, store, others, plans);
  }

  lemma PlannedKeysStored(t: State, u: State, store: Store, plans: seq<set<Doc>>, others: seq<set<Doc>>)
    requires StoredFromPlans(t, store, plans) && store.Keys <= u.store.Keys
    requires forall doc: Doc :: Planned(others, doc) ==> doc.key in u.store
    requires forall k :: PlannedKey(plans, k) <==> PlannedKey(others, k)
    ensures t.store.Keys <= u.store.Keys
  {
    hide Planned;
    forall k | k in t.store.Keys ensures k in u.store.Keys {
      if k !in store {
        assert Planned(plans, Doc(k, t.store[k]));
        assert PlannedKey(others, k);
      }
    }
  }
}
