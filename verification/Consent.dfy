/**
The consent log: decisions are only ever appended, and the newest one for a member and
a purpose is in force. A broadcast filters its audience in one pass over one query.
*/
module Consent {
  import opened Options
  import opened Calendar

  datatype Purpose = Membership | Giving | Communications | AiProcessing | Unrecognised(name: string)

  predicate Valid(p: Purpose) {
    !p.Unrecognised?
  }

  predicate RequiresOptIn(p: Purpose) {
    p == Communications || p == AiProcessing
  }

  /** `id` is the document id, which breaks ties between equal times. */
  datatype Record = Record(id: nat, memberId: string, purpose: Purpose, granted: bool, createdAt: Instant)

  predicate Newer(a: Record, b: Record) {
    a.createdAt > b.createdAt || (a.createdAt == b.createdAt && a.id > b.id)
  }

  predicate DistinctIds(log: seq<Record>) {
    forall i, j :: 0 <= i < j < |log| ==> log[i].id != log[j].id
  }

  predicate About(r: Record, m: string, p: Purpose) {
    r.memberId == m && r.purpose == p
  }

  /** The default of each purpose, for a member nothing is recorded about. */
  lemma Defaults(log: seq<Record>, m: string, p: Purpose)
    requires forall r :: r in log ==> !(r.memberId == m && r.purpose == p)
    ensures p == Communications || p == AiProcessing ==> !Granted(log, m, p)
    ensures p == Membership || p == Giving ==> Granted(log, m, p)
  {
    CurrentIsNewest(log, m, p);
  }

  // ---- one member ----------------------------------------------------------------

  /** The newest record about a member and a purpose. */
  function Current(log: seq<Record>, m: string, p: Purpose): Option<Record> {
    if log == [] then None
    else
      var before, last := Current(log[..|log| - 1], m, p), log[|log| - 1];
      if About(last, m, p) && (before.None? || Newer(last, before.value)) then Some(last) else before
  }

  /** Whether a member may be processed for a purpose, as the log stands. */
  predicate Granted(log: seq<Record>, m: string, p: Purpose) {
    match Current(log, m, p)
    case Some(r) => r.granted
    case None => !RequiresOptIn(p)
  }

  lemma {:induction false} CurrentIsNewest(log: seq<Record>, m: string, p: Purpose)
    ensures var c := Current(log, m, p);
            match c
            case Some(r) => r in log && About(r, m, p) && forall x :: x in log && About(x, m, p) ==> !Newer(x, r)
            case None => forall x :: x in log ==> !About(x, m, p)
  {
    if log != [] {
      var init, last := log[..|log| - 1], log[|log| - 1];
      assert log == init + [last];
      CurrentIsNewest(init, m, p);
    }
  }

  // ---- the query -----------------------------------------------------------------

  predicate NewestFirst(s: seq<Record>) {
    forall i, j :: 0 <= i < j < |s| ==> !Newer(s[j], s[i])
  }

  function Place(r: Record, s: seq<Record>): seq<Record> {
    if s == [] || !Newer(s[0], r) then [r] + s else [s[0]] + Place(r, s[1..])
  }

  lemma {:induction false} PlaceKeeps(r: Record, s: seq<Record>)
    ensures forall x :: x in Place(r, s) <==> x == r || x in s
  {
    if s != [] && Newer(s[0], r) {
      PlaceKeeps(r, s[1..]);
      assert s == [s[0]] + s[1..];
    }
  }

  lemma {:induction false} PlaceSorts(r: Record, s: seq<Record>)
    requires NewestFirst(s)
    ensures NewestFirst(Place(r, s))
  {
    if s == [] || !Newer(s[0], r) {
      forall j | 0 <= j < |s| ensures !Newer(s[j], r) {
        if j > 0 { NewerChain(s[j], s[0], r); }
      }
    } else {
      PlaceSorts(r, s[1..]);
      PlaceKeeps(r, s[1..]);
      var t := Place(r, s[1..]);
      forall j | 0 <= j < |t| ensures !Newer(t[j], s[0]) {
        assert t[j] in t;
      }
    }
  }

  lemma NewerChain(x: Record, y: Record, z: Record)
    requires !Newer(x, y) && !Newer(y, z)
    ensures !Newer(x, z)
  {
  }

  /** The query of a broadcast: every record about the audience for the purpose, newest first. */
  method FindRecords(log: seq<Record>, audience: set<string>, p: Purpose) returns (records: seq<Record>)
    ensures NewestFirst(records)
    ensures forall x :: x in records <==> x in log && x.memberId in audience && x.purpose == p
  {
    records := [];
    for i := 0 to |log|
      invariant NewestFirst(records)
      invariant forall x :: x in records <==> x in log[..i] && x.memberId in audience && x.purpose == p
    {
      hide NewestFirst, Place, Newer;
      assert log[..i + 1] == log[..i] + [log[i]];
      if log[i].memberId in audience && log[i].purpose == p {
        PlaceKeeps(log[i], records);
        PlaceSorts(log[i], records);
        records := Place(log[i], records);
      }
    }
    assert log[..|log|] == log;
  }

  /** The audience members who may be processed, repeats and order kept. */
  function Allowed(log: seq<Record>, members: seq<string>, p: Purpose): seq<string> {
    if members == [] then []
    else
      var init := Allowed(log, members[..|members| - 1], p);
      if Granted(log, members[|members| - 1], p) then init + [members[|members| - 1]] else init
  }

  /** These are places of a list, in order, and what stands at them. */
  predicate Picked(places: seq<nat>, members: seq<string>, picked: seq<string>) {
    && |places| == |picked|
    && (forall i, j :: 0 <= i < j < |places| ==> places[i] < places[j])
    && (forall i :: 0 <= i < |places| ==> places[i] < |members| && picked[i] == members[places[i]])
  }

  lemma PickOne(places: seq<nat>, members: seq<string>, picked: seq<string>, last: string)
    requires Picked(places, members, picked)
    ensures Picked(places, members + [last], picked)
    ensures Picked(places + [|members|], members + [last], picked + [last])
  {
  }

  lemma OnePlaceMore(places: seq<nat>, n: nat)
    ensures forall k: nat :: k in places + [n] <==> k in places || k == n
  {
  }

  /** The places of the audience that are let through: all with a grant in force, and no others, in order. */
  lemma {:induction false} AllowedExactly(log: seq<Record>, members: seq<string>, p: Purpose)
      returns (places: seq<nat>)
    ensures Picked(places, members, Allowed(log, members, p))
    ensures forall k: nat :: k in places <==> k < |members| && Granted(log, members[k], p)
  {
    if members == [] {
      places := [];
    } else {
      hide Granted, Picked;
      var n := |members| - 1;
      var init := members[..n];
      places := AllowedExactly(log, init, p);
      assert members == init + [members[n]];
      PickOne(places, init, Allowed(log, init, p), members[n]);
      assert forall k: nat :: k < n ==> init[k] == members[k];
      if Granted(log, members[n], p) {
        OnePlaceMore(places, n);
        places := places + [n];
      }
    }
  }

  /** The first record about a member, if any. */
  function FirstAbout(s: seq<Record>, m: string): Option<Record> {
    if s == [] then None
    else
      match FirstAbout(s[..|s| - 1], m)
      case Some(r) => Some(r)
      case None => if s[|s| - 1].memberId == m then Some(s[|s| - 1]) else None
  }

  lemma {:induction false} FirstIsNewest(s: seq<Record>, m: string)
    requires NewestFirst(s)
    ensures match FirstAbout(s, m)
            case Some(r) => r in s && r.memberId == m && forall x :: x in s && x.memberId == m ==> !Newer(x, r)
            case None => forall x :: x in s ==> x.memberId != m
  {
    if s != [] {
      var init, last := s[..|s| - 1], s[|s| - 1];
      assert s == init + [last];
      FirstIsNewest(init, m);
    }
  }

  /** In a query's answer the first record of a member is the one in force. */
  lemma FirstIsCurrent(log: seq<Record>, records: seq<Record>, audience: set<string>, p: Purpose, m: string)
    requires DistinctIds(log) && NewestFirst(records) && m in audience
    requires forall x :: x in records <==> x in log && x.memberId in audience && x.purpose == p
    ensures FirstAbout(records, m) == Current(log, m, p)
  {
    FirstIsNewest(records, m);
    CurrentIsNewest(log, m, p);
    hide FirstAbout, Current, NewestFirst;
    if FirstAbout(records, m).Some? {
      SameRecord(log, FirstAbout(records, m).value, Current(log, m, p).value);
    }
  }

  lemma SameRecord(log: seq<Record>, a: Record, b: Record)
    requires DistinctIds(log) && a in log && b in log && !Newer(a, b) && !Newer(b, a)
    ensures a == b
  {
    var i :| 0 <= i < |log| && log[i] == a;
    var j :| 0 <= j < |log| && log[j] == b;
  }

  // ---- the service ---------------------------------------------------------------

  datatype Answer<T> = Ok(value: T) | UnknownPurpose | NoMember

  class ConsentService {
    var log: seq<Record>

    constructor ()
      ensures log == []
    {
      log := [];
    }

    /** Grant and revoke both append; nothing is ever changed or removed. */
    method Append(m: string, p: Purpose, granted: bool, now: Instant, newId: nat) returns (r: Answer<()>)
      modifies this
      ensures if !Valid(p) then r == UnknownPurpose && log == old(log)
              else if m == "" then r == NoMember && log == old(log)
              else r == Ok(()) && log == old(log) + [Record(newId, m, p, granted, now)]
    {
      if !Valid(p) {
        return UnknownPurpose;
      }
      if m == "" {
        return NoMember;
      }
      log := log + [Record(newId, m, p, granted, now)];
      return Ok(());
    }

    method IsGranted(m: string, p: Purpose) returns (r: Answer<bool>)
      requires DistinctIds(log)
      ensures r == if !Valid(p) then UnknownPurpose else Ok(Granted(log, m, p))
    {
      if !Valid(p) {
        return UnknownPurpose;
      }
      var latest := FindRecords(log, {m}, p);
      CurrentIsNewest(log, m, p);
      if |latest| == 0 {
        return Ok(!RequiresOptIn(p));
      }
      assert latest[0] in latest;
      SameRecord(log, latest[0], Current(log, m, p).value);
      return Ok(latest[0].granted);
    }

    /** One query and two passes answer for the whole audience what `IsGranted` answers for each. */
    method FilterAllowed(members: seq<string>, p: Purpose) returns (r: Answer<seq<string>>)
      requires DistinctIds(log)
      ensures r == if !Valid(p) then UnknownPurpose else Ok(Allowed(log, members, p))
    {
      if !Valid(p) {
        return UnknownPurpose;
      }
      if |members| == 0 {
        return Ok([]);
      }
      var audience := set m | m in members;
      var records := FindRecords(log, audience, p);
      var decision := Decisions(records);
      var implied := !RequiresOptIn(p);
      var allowed := [];
      for i := 0 to |members|
        invariant allowed == Allowed(log, members[..i], p)
      {
        assert members[..i + 1][..i] == members[..i];
        var id := members[i];
        FirstIsCurrent(log, records, audience, p, id);
        hide Current, NewestFirst, Newer, DistinctIds, FirstAbout;
        if (id in decision && decision[id]) || (id !in decision && implied) {
          allowed := allowed + [id];
        }
      }
      assert members[..|members|] == members;
      return Ok(allowed);
    }
  }

  /** The first pass: sorted newest first, the first record seen of a member decides. */
  method Decisions(records: seq<Record>) returns (decision: map<string, bool>)
    ensures forall m :: m in decision <==> FirstAbout(records, m).Some?
    ensures forall m :: m in decision ==> decision[m] == FirstAbout(records, m).value.granted
  {
    decision := map[];
    for i := 0 to |records|
      invariant forall m :: m in decision <==> FirstAbout(records[..i], m).Some?
      invariant forall m :: m in decision ==> decision[m] == FirstAbout(records[..i], m).value.granted
    {
      assert records[..i + 1][..i] == records[..i];
      if records[i].memberId !in decision {
        decision := decision[records[i].memberId := records[i].granted];
      }
    }
    assert records[..|records|] == records;
  }

  // ---- what appending changes ----------------------------------------------------

  /**
  Appending a decision changes the answer for its own member and purpose only, and
  there exactly when it is newer than the decision in force.
  */
  lemma AppendChangesOne(log: seq<Record>, r: Record, m: string, p: Purpose)
    ensures Granted(log + [r], m, p) ==
            if About(r, m, p) && (Current(log, m, p).None? || Newer(r, Current(log, m, p).value)) then r.granted
            else Granted(log, m, p)
  {
    assert (log + [r])[..|log|] == log;
  }

  /** With strictly increasing stamps the last decision is the one in force. */
  lemma LastDecisionCounts(log: seq<Record>, r: Record)
    requires forall x :: x in log ==> Newer(r, x)
    ensures Granted(log + [r], r.memberId, r.purpose) == r.granted
    ensures forall m, p :: (m != r.memberId || p != r.purpose) ==> Granted(log + [r], m, p) == Granted(log, m, p)
  {
    hide Granted, Current, Newer;
    CurrentIsNewest(log, r.memberId, r.purpose);
    AppendChangesOne(log, r, r.memberId, r.purpose);
    forall m, p | m != r.memberId || p != r.purpose ensures Granted(log + [r], m, p) == Granted(log, m, p) {
      AppendChangesOne(log, r, m, p);
    }
  }

  /** Order of a log does not matter: two logs with the same records give every member the same answer. */
  lemma SameRecordsSameAnswers(log: seq<Record>, other: seq<Record>, m: string, p: Purpose)
    requires DistinctIds(log) && forall x :: x in log <==> x in other
    ensures Granted(log, m, p) == Granted(other, m, p)
  {
    CurrentIsNewest(log, m, p);
    CurrentIsNewest(other, m, p);
    hide Current;
    if Current(log, m, p).Some? && Current(other, m, p).Some? {
      SameRecord(log, Current(log, m, p).value, Current(other, m, p).value);
    }
  }
}
