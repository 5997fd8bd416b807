/**
What one sync does, read off the request alone: whom the roster lets in, what is stored
about each of them, and what the reply reports.
*/
module SyncMeaning {
  import opened Options
  import opened Calendar
  import opened Events
  import opened Attendance
  import opened Reconciliation

  // ---- the roster ----------------------------------------------------------------

  lemma {:induction false} BlankReasons(rows: seq<Row>, now: Instant)
    ensures forall r :: r in Collapse(rows, now).blank ==> r.reason == NoMember
  {
    hide Name, Clamp;
    if rows != [] {
      BlankReasons(rows[..|rows| - 1], now);
    }
  }

  lemma {:induction false} FaultReasons(store: Store, docs: seq<Doc>, faults: set<string>)
    ensures forall r :: r in InsertMany(store, docs, faults).faulty ==> r.reason == WriteFault
  {
    if docs != [] {
      FaultReasons(store, docs[..|docs| - 1], faults);
    }
  }

  /** Each name a known roster lacks is rejected once, and no other name is. */
  lemma {:induction false} UnknownMeaning(order: seq<string>, ids: set<string>, m: string)
    requires NoneTwice(order)
    ensures multiset(Unknown(order, Known(ids)))[Rejection(m, UnknownMember)]
            == if m in order && m !in ids then 1 else 0
  {
    if order != [] {
      var init, last := order[..|order| - 1], order[|order| - 1];
      assert order == init + [last];
      NoneTwiceSnoc(init, last);
      UnknownMeaning(init, ids, m);
    }
  }

  lemma {:induction false} NobodyUnknown(order: seq<string>)
    ensures Unknown(order, NoRoster) == [] && Kept(order, NoRoster) == order
  {
    if order != [] {
      NobodyUnknown(order[..|order| - 1]);
    }
  }

  lemma {:induction false} KeptOfKnown(order: seq<string>, ids: set<string>)
    ensures forall m :: m in Kept(order, Known(ids)) <==> m in order && m in ids
  {
    if order != [] {
      KeptOfKnown(order[..|order| - 1], ids);
      assert order == order[..|order| - 1] + [order[|order| - 1]];
    }
  }

  /** A document whose write does not fail has its key stored afterwards. */
  lemma {:induction false} DocIsStored(store: Store, docs: seq<Doc>, faults: set<string>, d: Doc)
    requires d in docs && d.key.memberId !in faults
    ensures d.key in InsertMany(store, docs, faults).store
  {
    var init, last := docs[..|docs| - 1], docs[|docs| - 1];
    assert docs == init + [last];
    if d in init {
      DocIsStored(store, init, faults, d);
    }
  }

  /** What is new in the store came from a document, as it was written there. */
  lemma {:induction false} NewComesFromDoc(store: Store, docs: seq<Doc>, faults: set<string>, k: Key)
    requires k in InsertMany(store, docs, faults).store && k !in store
    ensures Doc(k, InsertMany(store, docs, faults).store[k]) in docs
  {
    if docs != [] {
      var init, last := docs[..|docs| - 1], docs[|docs| - 1];
      assert docs == init + [last];
      if k in InsertMany(store, init, faults).store {
        NewComesFromDoc(store, init, faults, k);
      }
    }
  }

  /** Counting a rejection over the three parts of the list. */
  lemma CountRejection(blank: seq<Rejection>, unknown: seq<Rejection>, faulty: seq<Rejection>, m: string)
    requires forall r :: r in blank ==> r.reason == NoMember
    requires forall r :: r in faulty ==> r.reason == WriteFault
    ensures multiset(blank + unknown + faulty)[Rejection(m, UnknownMember)]
            == multiset(unknown)[Rejection(m, UnknownMember)]
  {
    var x := Rejection(m, UnknownMember);
    assert x !in blank && x !in faulty;
    assert multiset(blank)[x] == 0 && multiset(faulty)[x] == 0;
  }

  /** The documents of a call name the kept members, and each kept member has one. */
  lemma DocsNameKept(e: Event, req: Request, b: Batch, kept: seq<string>, now: Instant)
    ensures var docs := Docs(e, req, b, kept, now);
            && (forall d :: d in docs ==> d.key.eventId == req.eventId && d.key.memberId in kept
                                          && d == DocFor(e, req, b, d.key.memberId, now))
            && (forall m :: m in kept ==> DocFor(e, req, b, m, now) in docs)
  {
    hide FiledUnder, RowOf;
    var docs := Docs(e, req, b, kept, now);
    forall m | m in kept ensures DocFor(e, req, b, m, now) in docs {
      var i :| 0 <= i < |kept| && kept[i] == m;
      assert docs[i] == DocFor(e, req, b, m, now);
    }
    forall d | d in docs
      ensures d.key.eventId == req.eventId && d.key.memberId in kept && d == DocFor(e, req, b, d.key.memberId, now)
    {
      var i :| 0 <= i < |docs| && docs[i] == d;
      assert kept[i] in kept;
    }
  }

  /**
  A roster decides by its ids alone: only members on it gain a key, each member named who is
  not on it is rejected as unknown, once, and each who is ends up with a key unless the
  write fails.
  */
  lemma RosterDecides(store: Store, e: Event, req: Request, now: Instant, ids: set<string>, faults: set<string>)
    ensures SyncEvent(store, e, req, now, Known(ids), faults).reply.Done?
    ensures var out := SyncEvent(store, e, req, now, Known(ids), faults);
            && (forall k :: k in out.store && k !in store ==>
                  k.eventId == req.eventId && k.memberId in ids && k.memberId in NamedIn(req.rows))
            && (forall m :: multiset(out.reply.result.rejected)[Rejection(m, UnknownMember)]
                            == if m in NamedIn(req.rows) && m !in ids then 1 else 0)
            && (forall m :: m in NamedIn(req.rows) && m in ids && m !in faults ==>
                  exists k :: k in out.store && k.eventId == req.eventId && k.memberId == m)
  {
    hide Collapse, NamedIn, Kept, Unknown, InsertMany, Docs, DocFor, CountEvent, CountOccurrence, OccurrencesIn;
    var b := Collapse(req.rows, now);
    var kept := Kept(b.order, Known(ids));
    var docs := Docs(e, req, b, kept, now);
    var ins := InsertMany(store, docs, faults);
    CollapseLists(req.rows, now);
    CollapseNames(req.rows, now);
    KeptOfKnown(b.order, ids);
    DocsNameKept(e, req, b, kept, now);
    BlankReasons(req.rows, now);
    FaultReasons(store, docs, faults);
    forall k | k in ins.store && k !in store
      ensures k.eventId == req.eventId && k.memberId in ids && k.memberId in NamedIn(req.rows)
    {
      NewComesFromDoc(store, docs, faults, k);
    }
    forall m ensures multiset(b.blank + Unknown(b.order, Known(ids)) + ins.faulty)[Rejection(m, UnknownMember)]
                     == if m in NamedIn(req.rows) && m !in ids then 1 else 0
    {
      UnknownMeaning(b.order, ids, m);
      CountRejection(b.blank, Unknown(b.order, Known(ids)), ins.faulty, m);
    }
    forall m | m in NamedIn(req.rows) && m in ids && m !in faults
      ensures exists k :: k in ins.store && k.eventId == req.eventId && k.memberId == m
    {
      DocNamesMember(e, req, b, m, now);
      DocIsStored(store, docs, faults, DocFor(e, req, b, m, now));
    }
  }

  lemma DocNamesMember(e: Event, req: Request, b: Batch, m: string, now: Instant)
    ensures DocFor(e, req, b, m, now).key.memberId == m
  {
  }

  /** Without a roster nobody is unknown and everybody named ends up with a key unless the write fails. */
  lemma NoRosterAdmitsAll(store: Store, e: Event, req: Request, now: Instant, faults: set<string>)
    ensures SyncEvent(store, e, req, now, NoRoster, faults).reply.Done?
    ensures var out := SyncEvent(store, e, req, now, NoRoster, faults);
            && (forall r :: r in out.reply.result.rejected ==> r.reason != UnknownMember)
            && (forall m :: m in NamedIn(req.rows) && m !in faults ==>
                  exists k :: k in out.store && k.eventId == req.eventId && k.memberId == m)
  {
    hide Collapse, NamedIn, Kept, Unknown, InsertMany, Docs, DocFor, CountEvent, CountOccurrence, OccurrencesIn;
    var b := Collapse(req.rows, now);
    NobodyUnknown(b.order);
    var docs := Docs(e, req, b, b.order, now);
    CollapseLists(req.rows, now);
    DocsNameKept(e, req, b, b.order, now);
    BlankReasons(req.rows, now);
    FaultReasons(store, docs, faults);
    forall m | m in NamedIn(req.rows) && m !in faults
      ensures exists k :: k in InsertMany(store, docs, faults).store && k.eventId == req.eventId && k.memberId == m
    {
      DocNamesMember(e, req, b, m, now);
      DocIsStored(store, docs, faults, DocFor(e, req, b, m, now));
    }
  }

  /** A roster that cannot be asked fails the call, and changes nothing, exactly when there is somebody to ask about. */
  lemma UnreachableRosterFails(store: Store, e: Event, req: Request, now: Instant, faults: set<string>)
    ensures SyncEvent(store, e, req, now, Unreachable, faults).store == store
    ensures SyncEvent(store, e, req, now, Unreachable, faults).reply == RosterFailed <==> NamedIn(req.rows) != {}
  {
    hide Collapse, NamedIn, FiledUnder;
    CollapseLists(req.rows, now);
    var b := Collapse(req.rows, now);
    if b.order != [] {
      assert b.order[0] in NamedIn(req.rows);
    } else {
      assert NamedIn(req.rows) == {};
    }
  }

  // ---- the records ---------------------------------------------------------------

  /** The time a row counts for: the device's, unless it is missing or over five minutes ahead. */
  predicate CountsFor(row: Row, now: Instant, t: Instant) {
    t == if row.at == 0 || row.at > now + 300 then now else row.at
  }

  /** Row i is the member's first among those with the earliest time, t. */
  ghost predicate DecidingRow(rows: seq<Row>, m: string, now: Instant, i: nat, t: Instant) {
    && RowOfMember(rows, m, i) && CountsFor(rows[i], now, t)
    && (forall j, u :: RowOfMember(rows, m, j) && CountsFor(rows[j], now, u) ==> t <= u && (j < i ==> t < u))
  }

  /** The same, through the code's clamping. */
  ghost predicate FirstEarliest(rows: seq<Row>, m: string, now: Instant, i: nat) {
    && RowOfMember(rows, m, i)
    && forall j :: RowOfMember(rows, m, j) ==>
         Clamp(rows[i].at, now) <= Clamp(rows[j].at, now) && (j < i ==> Clamp(rows[i].at, now) < Clamp(rows[j].at, now))
  }

  lemma FirstEarliestDecides(rows: seq<Row>, m: string, now: Instant, i: nat)
    requires FirstEarliest(rows, m, now, i)
    ensures DecidingRow(rows, m, now, i, Clamp(rows[i].at, now))
  {
    hide Name;
    forall j, u | RowOfMember(rows, m, j) && CountsFor(rows[j], now, u) ensures u == Clamp(rows[j].at, now) {
    }
  }

  /** One more row takes over only if it is the member's and earlier. */
  lemma FirstEarliestSnoc(init: seq<Row>, row: Row, m: string, now: Instant, i: nat)
    requires FirstEarliest(init, m, now, i)
    ensures var rows := init + [row];
            if Name(row) == m && Clamp(row.at, now) < Clamp(init[i].at, now) then FirstEarliest(rows, m, now, |init|)
            else FirstEarliest(rows, m, now, i)
  {
    hide Name, Clamp;
    var rows := init + [row];
    forall j | RowOfMember(rows, m, j) ensures if j < |init| then RowOfMember(init, m, j) else Name(row) == m {
    }
    assert RowOfMember(rows, m, i);
  }

  lemma FirstEarliestNew(init: seq<Row>, row: Row, m: string, now: Instant)
    requires m != "" && m !in NamedIn(init) && Name(row) == m
    ensures FirstEarliest(init + [row], m, now, |init|)
  {
    hide Name, Clamp, NamedIn;
    var rows := init + [row];
    forall j | RowOfMember(rows, m, j) ensures j == |init| {
      if j < |init| {
        assert RowOfMember(init, m, j);
        NamedByRow(init, m, j);
      }
    }
    assert RowOfMember(rows, m, |init|);
  }

  /** What one more row does to what is kept of a member. */
  lemma AddRowKeeps(b: Batch, row: Row, now: Instant, m: string)
    requires WellNamed(b) && m != ""
    ensures RowOf(AddRow(b, row, now), m)
            == if Name(row) == m && (m !in b.earliest || Clamp(row.at, now) < b.earliest[m].at) then Clean(row, now)
               else RowOf(b, m)
  {
    hide Name, Clamp;
  }

  /** Collapsing keeps of each member named the deciding row, cleaned. */
  lemma {:induction false} CollapseDecides(rows: seq<Row>, m: string, now: Instant) returns (i: nat)
    requires m in NamedIn(rows)
    ensures FirstEarliest(rows, m, now, i) && RowOf(Collapse(rows, now), m) == Clean(rows[i], now)
  {
    NamedNonEmpty(rows, m);
    var n := |rows| - 1;
    var init, row := rows[..n], rows[n];
    assert rows == init + [row];
    var b := Collapse(init, now);
    assert Collapse(rows, now) == AddRow(b, row, now);
    hide Name, Clamp, NamedIn, FirstEarliest, AddRow, Collapse;
    NamedInSnoc(init, row);
    CollapseNames(init, now);
    CollapseLists(init, now);
    AddRowKeeps(b, row, now, m);
    if m in NamedIn(init) {
      i := CollapseDecides(init, m, now);
      InitHasRow(init, m, now, i);
      FirstEarliestSnoc(init, row, m, now, i);
      if Name(row) == m && Clamp(row.at, now) < Clamp(init[i].at, now) {
        i := n;
      }
    } else {
      i := n;
      FirstEarliestNew(init, row, m, now);
    }
  }

  lemma InitHasRow(rows: seq<Row>, m: string, now: Instant, i: nat)
    requires FirstEarliest(rows, m, now, i)
    ensures i < |rows| && Clean(rows[i], now).at == Clamp(rows[i].at, now)
  {
    hide Name, Clamp;
  }

  /**
  What is stored about a member who gains a key: the earliest of their device times, the
  method of that scan, the moment the queue landed, and the occurrence the device named or
  else the one that time is filed under.
  */
  lemma RecordMeaning(
    store: Store, e: Event, req: Request, now: Instant, roster: Roster, faults: set<string>, k: Key) returns (i: nat)
    requires k in SyncEvent(store, e, req, now, roster, faults).store && k !in store
    ensures i < |req.rows|
    ensures var r := SyncEvent(store, e, req, now, roster, faults).store[k];
            && DecidingRow(req.rows, k.memberId, now, i, r.checkedInAt)
            && r.how == (if req.rows[i].how == "QR" then "QR" else "MANUAL")
            && r.recordedAt == now && r.offline == req.offline
            && k.eventId == req.eventId
            && k.occurrence == (if req.occurrence != 0 then req.occurrence else FiledUnder(e, r.checkedInAt))
  {
    hide Collapse, NamedIn, Kept, Unknown, InsertMany, Docs, CountEvent, CountOccurrence, OccurrencesIn, FiledUnder;
    hide DecidingRow, FirstEarliest, Name, Clamp;
    var b := Collapse(req.rows, now);
    var kept := Kept(b.order, roster);
    var docs := Docs(e, req, b, kept, now);
    CollapseLists(req.rows, now);
    KeptMembers(b.order, roster);
    DocsNameKept(e, req, b, kept, now);
    NewComesFromDoc(store, docs, faults, k);
    i := CollapseDecides(req.rows, k.memberId, now);
    FirstEarliestDecides(req.rows, k.memberId, now, i);
    InitHasRow(req.rows, k.memberId, now, i);
  }

  // ---- the reply -----------------------------------------------------------------

  /** The occurrences the known members named are filed under. */
  function Filings(e: Event, req: Request, now: Instant, roster: Roster): set<Instant> {
    set k | k in Targets(e, req, now, roster) :: k.occurrence
  }

  /**
  The reply counts the keys stored for the event, and for one occurrence when the batch was
  filed under that one alone.
  */
  lemma ReplyCounts(store: Store, e: Event, req: Request, now: Instant, roster: Roster, faults: set<string>)
    requires SyncEvent(store, e, req, now, roster, faults).reply.Done? && !roster.Unreachable?
    ensures var out := SyncEvent(store, e, req, now, roster, faults);
            var r := out.reply.result;
            && r.attendanceCount == |set k | k in out.store.Keys && k.eventId == req.eventId|
            && (forall o :: r.occurrenceAt == Some(o) <==> Filings(e, req, now, roster) == {o})
            && r.occurrenceAttendance == match r.occurrenceAt
                 case Some(o) => |set k | k in out.store.Keys && k.eventId == req.eventId && k.occurrence == o|
                 case None => 0
  {
    hide Collapse, NamedIn, Kept, Unknown, InsertMany, Docs, FiledUnder, Targets, ArrivalOf;
    var b := Collapse(req.rows, now);
    var docs := Docs(e, req, b, Kept(b.order, roster), now);
    DocsHaveTargetKeys(e, req, now, roster);
    assert OccurrencesIn(docs) == Filings(e, req, now, roster) by { FilingsOfDocs(docs, Targets(e, req, now, roster)); }
    OnlyOne(docs);
  }

  lemma FilingsOfDocs(docs: seq<Doc>, keys: set<Key>)
    requires KeysOf(docs) == keys
    ensures OccurrencesIn(docs) == set k | k in keys :: k.occurrence
  {
    forall o | o in set k | k in keys :: k.occurrence ensures o in OccurrencesIn(docs) {
      var k :| k in keys && k.occurrence == o;
      var d :| d in docs && d.key == k;
    }
    forall o | o in OccurrencesIn(docs) ensures o in set k | k in keys :: k.occurrence {
      var d :| d in docs && d.key.occurrence == o;
      assert d.key in KeysOf(docs);
    }
  }

  /** A batch has one occurrence exactly when it is not empty and that of its first document is the only one. */
  lemma OnlyOne(docs: seq<Doc>)
    ensures forall o :: docs != [] && |OccurrencesIn(docs)| == 1 && docs[0].key.occurrence == o
                        <==> OccurrencesIn(docs) == {o}
    ensures docs == [] ==> OccurrencesIn(docs) == {}
  {
    if docs != [] {
      assert docs[0].key.occurrence in OccurrencesIn(docs);
      if |OccurrencesIn(docs)| == 1 {
        var x := docs[0].key.occurrence;
        assert |OccurrencesIn(docs) - {x}| == 0;
        assert OccurrencesIn(docs) == {x};
      }
    }
  }
}
