/**
Reconciling a device's offline queue. `Sync` cleans the batch, asks the roster once,
inserts without order under a unique key, and recounts. The functions say what each
stage computes; the lemmas say what the stages amount to.
*/
module Attendance {
  import opened Options
  import opened Calendar
  import opened Text
  import opened Events

  const FUTURE_SKEW: int := 300

  datatype Row = Row(memberId: string, how: string, at: Instant)

  /** `occurrence` is the zero instant when the device leaves the choice to the server. */
  datatype Request = Request(eventId: Id, rows: seq<Row>, occurrence: Instant, offline: bool)

  /** The roster's answer to the one lookup of a batch. */
  datatype Roster = NoRoster | Known(ids: set<string>) | Unreachable

  datatype Reason = NoMember | UnknownMember | WriteFault

  datatype Rejection = Rejection(memberId: string, reason: Reason)

  /** The unique key of the attendance collection. */
  datatype Key = Key(eventId: Id, occurrence: Instant, memberId: string)

  datatype Record = Record(how: string, checkedInAt: Instant, recordedAt: Instant, offline: bool)

  type Store = map<Key, Record>

  datatype Result = Result(
    recorded: nat, duplicate: nat, rejected: seq<Rejection>, attendanceCount: nat,
    occurrenceAttendance: nat, occurrenceAt: Option<Instant>)

  datatype Reply = Done(result: Result) | EventNotFound | RosterFailed

  // ---- 1. cleaning and collapsing ------------------------------------------------

  function Name(row: Row): string {
    TrimSpace(row.memberId)
  }

  /** A missing or far-future device time becomes the server's now. */
  function Clamp(at: Instant, now: Instant): Instant {
    if at == 0 || at > now + FUTURE_SKEW then now else at
  }

  function Clean(row: Row, now: Instant): Row {
    Row(Name(row), if row.how == "QR" || row.how == "MANUAL" then row.how else "MANUAL", Clamp(row.at, now))
  }

  /** The members of a batch in order of first mention, each with its earliest row. */
  datatype Batch = Batch(order: seq<string>, earliest: map<string, Row>, blank: seq<Rejection>)

  function AddRow(b: Batch, row: Row, now: Instant): Batch {
    var clean := Clean(row, now);
    if clean.memberId == "" then b.(blank := b.blank + [Rejection(row.memberId, NoMember)])
    else if clean.memberId in b.earliest then
      if clean.at < b.earliest[clean.memberId].at then b.(earliest := b.earliest[clean.memberId := clean]) else b
    else b.(order := b.order + [clean.memberId], earliest := b.earliest[clean.memberId := clean])
  }

  function Collapse(rows: seq<Row>, now: Instant): Batch {
    if rows == [] then Batch([], map[], [])
    else AddRow(Collapse(rows[..|rows| - 1], now), rows[|rows| - 1], now)
  }

  // ---- 2. the roster -------------------------------------------------------------

  predicate OnRoster(roster: Roster, m: string) {
    roster.Known? ==> m in roster.ids
  }

  function Kept(order: seq<string>, roster: Roster): seq<string> {
    if order == [] then []
    else
      var init := Kept(order[..|order| - 1], roster);
      if OnRoster(roster, order[|order| - 1]) then init + [order[|order| - 1]] else init
  }

  function Unknown(order: seq<string>, roster: Roster): seq<Rejection> {
    if order == [] then []
    else
      var init := Unknown(order[..|order| - 1], roster);
      if OnRoster(roster, order[|order| - 1]) then init
      else init + [Rejection(order[|order| - 1], UnknownMember)]
  }

  // ---- 3. the insert -------------------------------------------------------------

  function OccurrenceOf(e: Event, req: Request, at: Instant): Instant {
    if req.occurrence == 0 then FiledUnder(e, at) else req.occurrence
  }

  /** A map read as Go reads one: a missing entry is the zero row. */
  function RowOf(b: Batch, m: string): Row {
    if m in b.earliest then b.earliest[m] else Row("", "", 0)
  }

  datatype Doc = Doc(key: Key, record: Record)

  function DocFor(e: Event, req: Request, b: Batch, m: string, now: Instant): Doc {
    var row := RowOf(b, m);
    Doc(Key(req.eventId, OccurrenceOf(e, req, row.at), m), Record(row.how, row.at, now, req.offline))
  }

  /** What the batch asks to store: one document for each member kept. */
  function Docs(e: Event, req: Request, b: Batch, kept: seq<string>, now: Instant): (docs: seq<Doc>)
    ensures |docs| == |kept|
  {
    seq(|kept|, i requires 0 <= i < |kept| => DocFor(e, req, b, kept[i], now))
  }

  datatype Insertion = Insertion(store: Store, recorded: nat, duplicate: nat, faulty: seq<Rejection>)

  /** A taken key is a duplicate; `faults` are the members whose write fails for another reason. */
  function InsertOne(ins: Insertion, doc: Doc, faults: set<string>): Insertion {
    if doc.key.memberId in faults then ins.(faulty := ins.faulty + [Rejection(doc.key.memberId, WriteFault)])
    else if doc.key in ins.store then ins.(duplicate := ins.duplicate + 1)
    else ins.(store := ins.store[doc.key := doc.record], recorded := ins.recorded + 1)
  }

  function InsertMany(store: Store, docs: seq<Doc>, faults: set<string>): Insertion {
    if docs == [] then Insertion(store, 0, 0, [])
    else InsertOne(InsertMany(store, docs[..|docs| - 1], faults), docs[|docs| - 1], faults)
  }

  function OccurrencesIn(docs: seq<Doc>): set<Instant> {
    set d | d in docs :: d.key.occurrence
  }

  // ---- 4. the counts -------------------------------------------------------------

  function CountEvent(store: Store, eventId: Id): nat {
    |set k | k in store.Keys && k.eventId == eventId|
  }

  function CountOccurrence(store: Store, eventId: Id, at: Instant): nat {
    |set k | k in store.Keys && k.eventId == eventId && k.occurrence == at|
  }

  // ---- the whole call ------------------------------------------------------------

  datatype Sequel = Sequel(store: Store, reply: Reply)

  function SyncEvent(store: Store, e: Event, req: Request, now: Instant, roster: Roster, faults: set<string>): Sequel {
    var b := Collapse(req.rows, now);
    if b.order != [] && roster.Unreachable? then Sequel(store, RosterFailed)
    else
      var docs := Docs(e, req, b, Kept(b.order, roster), now);
      var ins := InsertMany(store, docs, faults);
      var at := if docs != [] && |OccurrencesIn(docs)| == 1 then Some(docs[0].key.occurrence) else None;
      Sequel(ins.store, Done(Result(
        ins.recorded, ins.duplicate, b.blank + Unknown(b.order, roster) + ins.faulty,
        CountEvent(ins.store, req.eventId),
        if at.Some? then CountOccurrence(ins.store, req.eventId, at.value) else 0, at)))
  }

  /** Every member is listed once, under its own name, and has one row. */
  ghost predicate WellNamed(b: Batch) {
    && (forall m :: m in b.order <==> m in b.earliest)
    && (forall m :: m in b.earliest ==> m != "" && b.earliest[m].memberId == m)
    && NoneTwice(b.order)
  }

  lemma AddRowNames(b: Batch, row: Row, now: Instant)
    requires WellNamed(b)
    ensures WellNamed(AddRow(b, row, now))
  {
    var clean := Clean(row, now);
    var m := clean.memberId;
    hide Clean;
    assert forall x :: x in b.order + [m] <==> x in b.order || x == m;
  }

  lemma {:induction false} CollapseNames(rows: seq<Row>, now: Instant)
    ensures WellNamed(Collapse(rows, now))
  {
    hide AddRow;
    if rows != [] {
      CollapseNames(rows[..|rows| - 1], now);
      AddRowNames(Collapse(rows[..|rows| - 1], now), rows[|rows| - 1], now);
    }
  }

  predicate NoneTwice(s: seq<string>) {
    forall i, j :: 0 <= i < j < |s| ==> s[i] != s[j]
  }

  lemma NoneTwiceSnoc(s: seq<string>, m: string)
    ensures NoneTwice(s + [m]) <==> NoneTwice(s) && m !in s
  {
    if NoneTwice(s + [m]) {
      forall i | 0 <= i < |s| ensures s[i] != m {
        assert (s + [m])[i] == s[i] && (s + [m])[|s|] == m;
      }
      forall i, j | 0 <= i < j < |s| ensures s[i] != s[j] {
        assert (s + [m])[i] == s[i] && (s + [m])[j] == s[j];
      }
    }
  }

  /** The roster splits a list of names into the kept and the unknown, and keeps no name twice. */
  lemma {:induction false} KeptMembers(order: seq<string>, roster: Roster)
    ensures forall m :: m in Kept(order, roster) <==> m in order && OnRoster(roster, m)
    ensures |Kept(order, roster)| + |Unknown(order, roster)| == |order|
    ensures NoneTwice(order) ==> NoneTwice(Kept(order, roster))
  {
    hide NoneTwice, OnRoster;
    if order == [] {
      NothingTwice();
    } else {
      var init, last := order[..|order| - 1], order[|order| - 1];
      KeptMembers(init, roster);
      assert order == init + [last];
      NoneTwiceSnoc(init, last);
      NoneTwiceSnoc(Kept(init, roster), last);
    }
  }

  lemma NothingTwice()
    ensures NoneTwice([])
  {
  }

  // ---- the service ---------------------------------------------------------------

  class AttendanceService {
    var events: map<Id, Event>
    var attendance: Store
    var attendanceCount: map<Id, nat>

    constructor (events: map<Id, Event>)
      ensures this.events == events && attendance == map[] && attendanceCount == map[]
    {
      this.events, attendance, attendanceCount := events, map[], map[];
    }

    /** One device's queue landing, at server time `now`. */
    method Sync(req: Request, now: Instant, roster: Roster, faults: set<string>) returns (reply: Reply)
      modifies this`attendance, this`attendanceCount
      ensures req.eventId !in events ==>
                reply == EventNotFound && attendance == old(attendance) && attendanceCount == old(attendanceCount)
      ensures req.eventId in events ==>
                Sequel(attendance, reply) == SyncEvent(old(attendance), events[req.eventId], req, now, roster, faults)
      ensures attendanceCount ==
                if reply.Done? then old(attendanceCount)[req.eventId := reply.result.attendanceCount]
                else old(attendanceCount)
    {
      hide FiledUnder, TrimSpace;
      if req.eventId !in events {
        return EventNotFound;
      }
      var found := events[req.eventId];
      var b := CollapseRows(req.rows, now);
      if |b.order| > 0 && roster.Unreachable? {
        return RosterFailed;
      }
      var order, unknown := CheckRoster(b.order, roster);
      var docs := BuildDocs(found, req, b, order, now);
      var ins := Insert(docs, faults);
      var total := CountEvent(attendance, req.eventId);
      attendanceCount := attendanceCount[req.eventId := total];
      var result := Result(ins.recorded, ins.duplicate, b.blank + unknown + ins.faulty, total, 0, None);
      if |docs| > 0 && |OccurrencesIn(docs)| == 1 {
        var at := docs[0].key.occurrence;
        var present := CountOccurrence(attendance, req.eventId, at);
        result := result.(occurrenceAttendance := present, occurrenceAt := Some(at));
      }
      return Done(result);
    }

    /** The unordered insert under the unique key. */
    method Insert(docs: seq<Doc>, faults: set<string>) returns (ins: Insertion)
      modifies this`attendance
      ensures ins == InsertMany(old(attendance), docs, faults) && attendance == ins.store
    {
      var recorded, duplicate, faulty := 0, 0, [];
      for i := 0 to |docs|
        invariant Insertion(attendance, recorded, duplicate, faulty) == InsertMany(old(attendance), docs[..i], faults)
      {
        assert docs[..i + 1][..i] == docs[..i];
        var key := docs[i].key;
        if key.memberId in faults {
          faulty := faulty + [Rejection(key.memberId, WriteFault)];
        } else if key in attendance {
          duplicate := duplicate + 1;
        } else {
          attendance := attendance[key := docs[i].record];
          recorded := recorded + 1;
        }
      }
      assert docs[..|docs|] == docs;
      ins := Insertion(attendance, recorded, duplicate, faulty);
    }
  }

  method CollapseRows(rows: seq<Row>, now: Instant) returns (b: Batch)
    ensures b == Collapse(rows, now)
  {
    hide TrimSpace;
    var earliest, order, blank := map[], [], [];
    for i := 0 to |rows|
      invariant Batch(order, earliest, blank) == Collapse(rows[..i], now)
    {
      assert rows[..i + 1][..i] == rows[..i];
      var row := rows[i];
      var memberId := TrimSpace(row.memberId);
      if memberId == "" {
        blank := blank + [Rejection(row.memberId, NoMember)];
        continue;
      }
      var how := if row.how == "QR" || row.how == "MANUAL" then row.how else "MANUAL";
      var at := row.at;
      if at == 0 || at > now + FUTURE_SKEW {
        at := now;
      }
      if memberId in earliest {
        if at < earliest[memberId].at {
          earliest := earliest[memberId := Row(memberId, how, at)];
        }
        continue;
      }
      earliest := earliest[memberId := Row(memberId, how, at)];
      order := order + [memberId];
    }
    assert rows[..|rows|] == rows;
    b := Batch(order, earliest, blank);
  }

  method CheckRoster(order: seq<string>, roster: Roster) returns (kept: seq<string>, unknown: seq<Rejection>)
    ensures kept == Kept(order, roster) && unknown == Unknown(order, roster)
  {
    kept, unknown := [], [];
    for i := 0 to |order|
      invariant kept == Kept(order[..i], roster) && unknown == Unknown(order[..i], roster)
    {
      assert order[..i + 1][..i] == order[..i];
      if OnRoster(roster, order[i]) {
        kept := kept + [order[i]];
      } else {
        unknown := unknown + [Rejection(order[i], UnknownMember)];
      }
    }
    assert order[..|order|] == order;
  }

  method BuildDocs(e: Event, req: Request, b: Batch, order: seq<string>, now: Instant) returns (docs: seq<Doc>)
    ensures docs == Docs(e, req, b, order, now)
  {
    hide FiledUnder;
    docs := [];
    for i := 0 to |order|
      invariant docs == Docs(e, req, b, order, now)[..i]
    {
      var row := RowOf(b, order[i]);
      var occurrence := req.occurrence;
      if req.occurrence == 0 {
        occurrence := OccurrenceFor(e, row.at);
      }
      docs := docs + [Doc(Key(req.eventId, occurrence, order[i]), Record(row.how, row.at, now, req.offline))];
    }
  }
}
