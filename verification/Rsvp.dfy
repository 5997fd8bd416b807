/** Answers to an invitation: who is going, the published count, and an event's capacity. */
module Rsvp {
  import opened Sets
  import opened Text

  type Id = nat

  datatype Status = Going | Maybe | NotGoing | Unrecognised(text: string)

  datatype Reply = Ok | EventNotFound | MemberRequired | StatusInvalid | CapacityReached

  /** One answer for each event and member. */
  type Answers = map<(Id, string), Status>

  function GoingTo(answers: Answers, event: Id): set<string> {
    set k | k in answers && k.0 == event && answers[k] == Going :: k.1
  }

  predicate Full(answers: Answers, event: Id, member: string, capacity: int) {
    capacity > 0 && |GoingTo(answers, event) - {member}| >= capacity
  }

  datatype Sequel = Sequel(answers: Answers, reply: Reply)

  function Responded(answers: Answers, capacities: map<Id, int>, event: Id, raw: string, status: Status): Sequel {
    var member := TrimSpace(raw);
    if event !in capacities then Sequel(answers, EventNotFound)
    else if member == "" then Sequel(answers, MemberRequired)
    else if status.Unrecognised? then Sequel(answers, StatusInvalid)
    else if status == Going && Full(answers, event, member, capacities[event]) then Sequel(answers, CapacityReached)
    else Sequel(answers[(event, member) := status], Ok)
  }

  class RsvpService {
    /** The stored events with their capacities; zero is no limit. */
    var capacities: map<Id, int>
    var answers: Answers
    var rsvpCount: map<Id, nat>

    /** Every published count is the number going. */
    ghost predicate Valid()
      reads this
    {
      forall e :: e in rsvpCount ==> rsvpCount[e] == |GoingTo(answers, e)|
    }

    constructor ()
      ensures Valid() && capacities == map[] && answers == map[] && rsvpCount == map[]
    {
      capacities, answers, rsvpCount := map[], map[], map[];
    }

    /** The count excludes the member, so who is going already is never told the event is full. */
    method Respond(event: Id, raw: string, status: Status) returns (reply: Reply)
      requires Valid()
      modifies this`answers, this`rsvpCount
      ensures Valid()
      ensures Sequel(answers, reply) == Responded(old(answers), capacities, event, raw, status)
      ensures rsvpCount == if reply == Ok then old(rsvpCount)[event := |GoingTo(answers, event)|] else old(rsvpCount)
      ensures NoneOverfull(old(answers), capacities) ==> NoneOverfull(answers, capacities)
    {
      hide TrimSpace, GoingTo, NoneOverfull;
      if NoneOverfull(answers, capacities) {
        RespondKeepsCapacity(answers, capacities, event, raw, status);
      }
      var member := TrimSpace(raw);
      if event !in capacities {
        return EventNotFound;
      }
      if member == "" {
        return MemberRequired;
      }
      if status.Unrecognised? {
        return StatusInvalid;
      }
      if status == Going && capacities[event] > 0 {
        var going := |GoingTo(answers, event) - {member}|;
        if going >= capacities[event] {
          return CapacityReached;
        }
      }
      OtherEvents(answers, event, member, status);
      answers := answers[(event, member) := status];
      rsvpCount := rsvpCount[event := |GoingTo(answers, event)|];
      return Ok;
    }

    /** What creating or editing an event does to its capacity: who is going is not looked at. */
    method SetCapacity(event: Id, capacity: int)
      requires Valid()
      modifies this`capacities
      ensures Valid() && capacities == old(capacities)[event := if capacity > 0 then capacity else 0]
    {
      capacities := capacities[event := if capacity > 0 then capacity else 0];
    }
  }

  ghost predicate NoneOverfull(answers: Answers, capacities: map<Id, int>) {
    forall e :: e in capacities && capacities[e] > 0 ==> |GoingTo(answers, e)| <= capacities[e]
  }

  lemma GoingAfter(answers: Answers, event: Id, member: string, status: Status)
    ensures GoingTo(answers[(event, member) := status], event)
            == if status == Going then GoingTo(answers, event) + {member} else GoingTo(answers, event) - {member}
  {
    var next := answers[(event, member) := status];
    forall m | m in GoingTo(answers, event) && m != member ensures m in GoingTo(next, event) {
      assert (event, m) in next && next[(event, m)] == Going;
    }
    if status == Going {
      assert (event, member) in next && next[(event, member)] == Going;
    }
  }

  lemma OtherEvents(answers: Answers, event: Id, member: string, status: Status)
    ensures forall e :: e != event ==> GoingTo(answers[(event, member) := status], e) == GoingTo(answers, e)
  {
    var next := answers[(event, member) := status];
    forall e | e != event ensures GoingTo(next, e) == GoingTo(answers, e) {
      forall m ensures m in GoingTo(next, e) <==> m in GoingTo(answers, e) {
        assert (e, m) in next <==> (e, m) in answers;
      }
    }
  }

  /** "Full" is said exactly to those whose yes would put the event over its capacity. */
  lemma FullIffOverfull(answers: Answers, event: Id, member: string, capacity: int)
    requires capacity > 0
    ensures Full(answers, event, member, capacity)
            <==> |GoingTo(answers[(event, member) := Going], event)| > capacity
  {
    hide GoingTo;
    GoingAfter(answers, event, member, Going);
    var going := GoingTo(answers, event);
    assert going + {member} == (going - {member}) + {member};
  }

  lemma RespondKeepsCapacity(answers: Answers, capacities: map<Id, int>, event: Id, raw: string, status: Status)
    requires NoneOverfull(answers, capacities)
    ensures NoneOverfull(Responded(answers, capacities, event, raw, status).answers, capacities)
  {
    hide GoingTo, Full, TrimSpace;
    var member := TrimSpace(raw);
    var next := Responded(answers, capacities, event, raw, status).answers;
    OtherEvents(answers, event, member, status);
    if next != answers && capacities[event] > 0 {
      GoingAfter(answers, event, member, status);
      if status == Going {
        FullIffOverfull(answers, event, member, capacities[event]);
      } else {
        SubsetSize(GoingTo(answers, event) - {member}, GoingTo(answers, event));
      }
    }
  }

  /**
  Every answer has its exact case: an answer is taken unless the event, the member or the
  status is wrong, or the event is limited and would be over its capacity with the member.
  */
  lemma RespondedExactly(answers: Answers, capacities: map<Id, int>, event: Id, raw: string, status: Status)
    ensures var m, out := TrimSpace(raw), Responded(answers, capacities, event, raw, status);
            && (out.reply == EventNotFound <==> event !in capacities)
            && (out.reply == MemberRequired <==> event in capacities && m == "")
            && (out.reply == StatusInvalid <==> event in capacities && m != "" && status.Unrecognised?)
            && (out.reply == CapacityReached <==>
                  event in capacities && m != "" && status == Going
                  && capacities[event] > 0 && |GoingTo(answers, event) + {m}| > capacities[event])
            && out.answers == if out.reply == Ok then answers[(event, m) := status] else answers
  {
    hide GoingTo, TrimSpace;
    var going, m := GoingTo(answers, event), TrimSpace(raw);
    assert going + {m} == (going - {m}) + {m};
    assert |going + {m}| == |going - {m}| + 1;
  }

  /** Somebody already going may say so again, and anybody may change to another answer. */
  lemma GoingStaysWelcome(answers: Answers, capacities: map<Id, int>, event: Id, raw: string, status: Status)
    requires NoneOverfull(answers, capacities) && event in capacities
    requires TrimSpace(raw) != "" && !status.Unrecognised?
    requires status != Going || TrimSpace(raw) in GoingTo(answers, event)
    ensures Responded(answers, capacities, event, raw, status)
            == Sequel(answers[(event, TrimSpace(raw)) := status], Ok)
  {
    hide GoingTo, TrimSpace;
    var member := TrimSpace(raw);
    if status == Going && capacities[event] > 0 {
      var going := GoingTo(answers, event);
      assert going == (going - {member}) + {member};
    }
  }

  // ---- runs ----------------------------------------------------------------------

  /** A negative capacity is none. */
  function Limit(capacity: int): int {
    if capacity > 0 then capacity else 0
  }

  datatype Call = Answer(event: Id, raw: string, status: Status) | Edit(event: Id, capacity: int)

  datatype State = State(answers: Answers, capacities: map<Id, int>)

  function Served(s: State, call: Call): State {
    match call
    case Answer(event, raw, status) => s.(answers := Responded(s.answers, s.capacities, event, raw, status).answers)
    case Edit(event, capacity) => s.(capacities := s.capacities[event := Limit(capacity)])
  }

  function After(calls: seq<Call>): State {
    if calls == [] then State(map[], map[]) else Served(After(calls[..|calls| - 1]), calls[|calls| - 1])
  }

  ghost predicate Fits(s: State) {
    NoneOverfull(s.answers, s.capacities)
  }

  /** An edit that leaves room for everybody going at that moment, or sets no limit. */
  predicate Roomy(s: State, call: Call) {
    call.Edit? ==> Limit(call.capacity) == 0 || |GoingTo(s.answers, call.event)| <= call.capacity
  }

  /** One call keeps every event within its capacity exactly when it is no edit to below the number going. */
  lemma StepFitsExactly(s: State, call: Call)
    requires Fits(s)
    ensures Fits(Served(s, call)) <==> Roomy(s, call)
  {
    hide GoingTo, Responded;
    match call
    case Answer(event, raw, status) =>
      RespondKeepsCapacity(s.answers, s.capacities, event, raw, status);
    case Edit(event, capacity) =>
  }

  lemma NothingServed()
    ensures Fits(After([]))
  {
    forall e ensures GoingTo(map[], e) == {} {
    }
  }

  /** Every event is within its capacity now and at every earlier moment of the run. */
  ghost predicate AlwaysFits(calls: seq<Call>) {
    Fits(After(calls)) && (calls != [] ==> AlwaysFits(calls[..|calls| - 1]))
  }

  /** Each edit of the run leaves room for those going when it is made. */
  predicate AlwaysRoomy(calls: seq<Call>) {
    calls != [] ==> AlwaysRoomy(calls[..|calls| - 1]) && Roomy(After(calls[..|calls| - 1]), calls[|calls| - 1])
  }

  /**
  Over any run of answers and edits, every event is within its capacity at every moment if
  and only if each edit leaves room for those going when it is made.
  */
  lemma {:induction false} RunFitsExactly(calls: seq<Call>)
    ensures AlwaysFits(calls) <==> AlwaysRoomy(calls)
  {
    hide Fits, Roomy, Served;
    if calls == [] {
      NothingServed();
    } else {
      var init, last := calls[..|calls| - 1], calls[|calls| - 1];
      RunFitsExactly(init);
      if AlwaysFits(init) {
        StepFitsExactly(After(init), last);
      }
    }
  }

  /**
  Without a limit lowered below the number going no run overfills an event, and at any
  point of it somebody going may say so again.
  */
  lemma RunNeverOverfills(calls: seq<Call>)
    requires AlwaysRoomy(calls)
    ensures Fits(After(calls))
    ensures var s := After(calls);
            forall event: Id, raw ::
              (event in s.capacities && TrimSpace(raw) != "" && TrimSpace(raw) in GoingTo(s.answers, event)) ==>
              Responded(s.answers, s.capacities, event, raw, Going).reply == Ok
  {
    RunFitsExactly(calls);
    var s := After(calls);
    assert NoneOverfull(s.answers, s.capacities);
    hide NoneOverfull, Responded, GoingTo, TrimSpace, After;
    forall event: Id, raw |
        event in s.capacities && TrimSpace(raw) != "" && TrimSpace(raw) in GoingTo(s.answers, event)
      ensures Responded(s.answers, s.capacities, event, raw, Going).reply == Ok
    {
      GoingStaysWelcome(s.answers, s.capacities, event, raw, Going);
    }
  }
}
