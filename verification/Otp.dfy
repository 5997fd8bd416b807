/**
One-time codes. Redis keeps three keys per church and phone: the code, the attempt
counter and the resend window, each with its own expiry. A call is one step.
*/
module Otp {
  import opened Options
  import opened Calendar

  const OTP_TTL: int := 300
  const MAX_ATTEMPTS: int := 5
  const RESEND_WINDOW: int := 60

  /** A digest tells codes apart and nothing else. */
  datatype Digest = Digest(code: string)

  /** A key with the instant it expires. */
  datatype Keyed<T> = Keyed(value: T, expires: Instant)

  /** The keys of one church and phone. */
  datatype Slot = Slot(code: Option<Keyed<Digest>>, attempts: Option<Keyed<nat>>, resend: Option<Instant>)

  const EMPTY := Slot(None, None, None)

  /** What a call did, with the instant it did it. */
  datatype Note =
    | Issued(at: Instant, code: string)
    | TooSoon(at: Instant)
    | NoCode(at: Instant)
    | TooManyAttempts(at: Instant)
    | Incorrect(at: Instant)
    | Accepted(at: Instant, submitted: string)

  /** Reading a key that has expired is reading nothing. */
  function Live<T>(k: Option<Keyed<T>>, now: Instant): Option<T> {
    match k
    case Some(Keyed(value, expires)) => if now < expires then Some(value) else None
    case None => None
  }

  function Issue(s: Slot, now: Instant, code: string): (Slot, Note) {
    if s.resend.Some? && now < s.resend.value then (s, TooSoon(now))
    else (Slot(Some(Keyed(Digest(code), now + OTP_TTL)), None, Some(now + RESEND_WINDOW)), Issued(now, code))
  }

  /** Increment, with an expiry set by the first increment only. */
  function Counted(attempts: Option<Keyed<nat>>, now: Instant): Keyed<nat> {
    match Live(attempts, now)
    case Some(n) => Keyed(n + 1, attempts.value.expires)
    case None => Keyed(1, now + OTP_TTL)
  }

  function Verify(s: Slot, now: Instant, submitted: string): (Slot, Note) {
    match Live(s.code, now)
    case None => (s, NoCode(now))
    case Some(stored) =>
      var attempts := Counted(s.attempts, now);
      if attempts.value > MAX_ATTEMPTS then (s.(code := None, attempts := None), TooManyAttempts(now))
      else if stored != Digest(submitted) then (s.(attempts := Some(attempts)), Incorrect(now))
      else (s.(code := None, attempts := None), Accepted(now, submitted))
  }

  // ---- the store -----------------------------------------------------------------

  function Namespace(churchId: string, phone: string): string {
    if churchId == "" then phone else churchId + ":" + phone
  }

  function SlotOf(slots: map<string, Slot>, ns: string): Slot {
    if ns in slots then slots[ns] else EMPTY
  }

  class OtpStore {
    var slots: map<string, Slot>

    constructor ()
      ensures slots == map[]
    {
      slots := map[];
    }

    method IssueCode(churchId: string, phone: string, now: Instant, code: string) returns (note: Note)
      modifies this
      ensures var ns := Namespace(churchId, phone);
              var step := Issue(SlotOf(old(slots), ns), now, code);
              slots == old(slots)[ns := step.0] && note == step.1
    {
      var ns := Namespace(churchId, phone);
      var slot := SlotOf(slots, ns);
      if slot.resend.Some? && now < slot.resend.value {
        slots := slots[ns := slot];
        return TooSoon(now);
      }
      slot := slot.(resend := Some(now + RESEND_WINDOW));
      slot := slot.(code := Some(Keyed(Digest(code), now + OTP_TTL)));
      slot := slot.(attempts := None);
      slots := slots[ns := slot];
      return Issued(now, code);
    }

    method VerifyCode(churchId: string, phone: string, now: Instant, submitted: string) returns (note: Note)
      modifies this
      ensures var ns := Namespace(churchId, phone);
              var step := Verify(SlotOf(old(slots), ns), now, submitted);
              slots == old(slots)[ns := step.0] && note == step.1
    {
      var ns := Namespace(churchId, phone);
      var slot := SlotOf(slots, ns);
      var stored := Live(slot.code, now);
      if stored.None? {
        slots := slots[ns := slot];
        return NoCode(now);
      }
      var attempts := Counted(slot.attempts, now);
      slot := slot.(attempts := Some(attempts));
      slots := slots[ns := slot];
      if attempts.value > MAX_ATTEMPTS {
        slots := slots[ns := slot.(code := None, attempts := None)];
        return TooManyAttempts(now);
      }
      if stored.value != Digest(submitted) {
        return Incorrect(now);
      }
      slots := slots[ns := slot.(code := None, attempts := None)];
      return Accepted(now, submitted);
    }
  }

  /** A phone under no church that spells out the other church and phone. */
  predicate Clash(c: string, p: string, d: string, q: string) {
    || (c == "" && d != "" && p == d + ":" + q)
    || (d == "" && c != "" && q == c + ":" + p)
  }

  /** Church ids have no colon, phones are free text: just the clashing pairs share keys. */
  lemma NamespaceSharedExactly(c: string, p: string, d: string, q: string)
    requires ':' !in c && ':' !in d
    ensures Namespace(c, p) == Namespace(d, q) <==> (c == d && p == q) || Clash(c, p, d, q)
  {
    if c != "" && d != "" && Namespace(c, p) == Namespace(d, q) {
      FirstColon(c, p);
      FirstColon(d, q);
      var s := c + ":" + p;
      assert |c| == |d|;
      assert c == s[..|c|] && d == s[..|d|];
      assert p == s[|c| + 1..] && q == s[|d| + 1..];
    }
  }

  lemma FirstColon(c: string, p: string)
    requires ':' !in c
    ensures var s := c + ":" + p;
            s[|c|] == ':' && forall i :: 0 <= i < |c| ==> s[i] != ':'
  {
    var s := c + ":" + p;
    forall i | 0 <= i < |c| ensures s[i] != ':' {
      assert s[i] == c[i];
    }
  }

  // ---- whole runs ----------------------------------------------------------------

  datatype Call = IssueCall(now: Instant, code: string) | VerifyCall(now: Instant, submitted: string)

  function Serve(s: Slot, call: Call): (Slot, Note) {
    match call
    case IssueCall(now, code) => Issue(s, now, code)
    case VerifyCall(now, submitted) => Verify(s, now, submitted)
  }

  /** Time does not run backwards. */
  predicate Chronological(calls: seq<Call>) {
    forall i, j :: 0 <= i < j < |calls| ==> calls[i].now <= calls[j].now
  }

  function SlotAfter(calls: seq<Call>): Slot {
    if calls == [] then EMPTY else Serve(SlotAfter(calls[..|calls| - 1]), calls[|calls| - 1]).0
  }

  function LogOf(calls: seq<Call>): (log: seq<Note>)
    ensures |log| == |calls|
  {
    if calls == [] then []
    else LogOf(calls[..|calls| - 1]) + [Serve(SlotAfter(calls[..|calls| - 1]), calls[|calls| - 1]).1]
  }

  /**
  What a log says since its last issued code: the code, how often it was compared, how
  often accepted, and whether it is spent, by being accepted or by too many attempts.
  */
  datatype Since = Nothing | Code(at: Instant, code: string, compared: nat, accepted: nat, spent: bool)

  function Next(before: Since, note: Note): Since {
    match note
    case Issued(at, code) => Code(at, code, 0, 0, false)
    case Incorrect(_) => if before.Code? then before.(compared := before.compared + 1) else before
    case Accepted(_, _) =>
      if before.Code? then
        before.(compared := before.compared + 1, accepted := before.accepted + 1, spent := true)
      else before
    case TooManyAttempts(_) => if before.Code? then before.(spent := true) else before
    case _ => before
  }

  function SinceIssue(log: seq<Note>): Since {
    if log == [] then Nothing else Next(SinceIssue(log[..|log| - 1]), log[|log| - 1])
  }

  /** How the keys stand to the log: the counter lives at least as long as the code it guards. */
  predicate Agrees(s: Slot, since: Since) {
    match since
    case Nothing => s == EMPTY
    case Code(at, code, compared, accepted, spent) =>
      && s.resend == Some(at + RESEND_WINDOW)
      && compared <= MAX_ATTEMPTS && accepted <= 1
      && (s.code.Some? <==> !spent)
      && (s.code.Some? ==>
            && s.code.value == Keyed(Digest(code), at + OTP_TTL)
            && accepted == 0
            && (compared == 0 ==> s.attempts == None)
            && (compared != 0 ==> s.attempts.Some?
                                  && s.attempts.value.value == compared
                                  && s.attempts.value.expires >= at + OTP_TTL))
  }

  /** What one note may say, given what came before it. */
  predicate Proper(since: Since, note: Note) {
    match note
    case Issued(at, _) => since.Code? ==> at >= since.at + 60
    case Accepted(at, submitted) =>
      since.Code? && submitted == since.code && at < since.at + 300 && since.accepted == 0 && since.compared < 5
    case Incorrect(at) => since.Code? && at < since.at + 300 && since.compared < 5 && since.accepted == 0
    case _ => true
  }

  /**
  The one note a call gets, told from the log alone. A code is issued unless one was in the
  last minute. A submitted code meets nothing when none was issued, the last is spent or five
  minutes old; it is one too many after five comparisons; otherwise it is the code or not.
  */
  function Expected(since: Since, call: Call): Note {
    match call
    case IssueCall(now, code) => if since.Code? && now < since.at + 60 then TooSoon(now) else Issued(now, code)
    case VerifyCall(now, submitted) =>
      if since.Nothing? || since.spent || since.at + 300 <= now then NoCode(now)
      else if since.compared >= 5 then TooManyAttempts(now)
      else if submitted == since.code then Accepted(now, submitted)
      else Incorrect(now)
  }

  lemma StepAgrees(s: Slot, since: Since, call: Call)
    requires Agrees(s, since)
    requires since.Code? ==> since.at <= call.now
    ensures var (t, note) := Serve(s, call);
            Agrees(t, Next(since, note)) && Proper(since, note) && note == Expected(since, call)
  {
  }

  lemma SinceSnoc(log: seq<Note>, note: Note)
    ensures SinceIssue(log + [note]) == Next(SinceIssue(log), note)
  {
    assert (log + [note])[..|log|] == log;
  }

  lemma {:induction false} RunAgrees(calls: seq<Call>)
    requires Chronological(calls)
    ensures Agrees(SlotAfter(calls), SinceIssue(LogOf(calls)))
    ensures SinceIssue(LogOf(calls)).Code? ==> calls != [] && SinceIssue(LogOf(calls)).at <= calls[|calls| - 1].now
  {
    hide Agrees, Serve, SinceIssue;
    if calls == [] {
      NothingAgrees();
    } else {
      var init, last := calls[..|calls| - 1], calls[|calls| - 1];
      RunAgrees(init);
      StepAgrees(SlotAfter(init), SinceIssue(LogOf(init)), last);
      SinceSnoc(LogOf(init), Serve(SlotAfter(init), last).1);
      NoteTime(SlotAfter(init), last);
    }
  }

  lemma NothingAgrees()
    ensures Agrees(EMPTY, SinceIssue([])) && SinceIssue([]) == Nothing
  {
  }

  lemma NoteTime(s: Slot, call: Call)
    ensures Serve(s, call).1.at == call.now
  {
  }

  lemma {:induction false} LogPrefix(calls: seq<Call>, n: nat)
    requires n <= |calls|
    ensures LogOf(calls)[..n] == LogOf(calls[..n])
    decreases |calls|
  {
    if n == |calls| {
      assert calls[..n] == calls;
    } else {
      var init := calls[..|calls| - 1];
      LogPrefix(init, n);
      assert init[..n] == calls[..n];
      assert LogOf(calls)[..n] == LogOf(init)[..n];
    }
  }

  /**
  Over every run: issued codes are at least a minute apart; a code is compared at most
  five times and accepted at most once, only while less than five minutes old, only if it
  is the one issued last, and never again after that.
  */
  lemma EveryRunIsProper(calls: seq<Call>, n: nat)
    requires Chronological(calls) && n <= |calls|
    ensures var since := SinceIssue(LogOf(calls)[..n]);
            && (since.Code? ==> since.compared <= MAX_ATTEMPTS && since.accepted <= 1)
            && (n < |calls| ==> Proper(since, LogOf(calls)[n]))
  {
    hide Serve, SinceIssue, SlotAfter, LogOf, Agrees, Proper, Next;
    var init := calls[..n];
    LogPrefix(calls, n);
    RunAgrees(init);
    AgreesBounds(SlotAfter(init), SinceIssue(LogOf(init)));
    if n < |calls| {
      LogAt(calls, n);
      StepAgrees(SlotAfter(init), SinceIssue(LogOf(init)), calls[n]);
    }
  }

  /**
  Over every run each answer is the one the log calls for, refusals included: issued, refused
  as too soon, accepted, refused as wrong, as too many or as no code, and in no other case.
  */
  lemma EveryAnswerIsExpected(calls: seq<Call>, n: nat)
    requires Chronological(calls) && n < |calls|
    ensures LogOf(calls)[n] == Expected(SinceIssue(LogOf(calls)[..n]), calls[n])
  {
    hide Serve, SinceIssue, SlotAfter, LogOf, Agrees, Proper, Next, Expected;
    LogPrefix(calls, n);
    RunAgrees(calls[..n]);
    LogAt(calls, n);
    StepAgrees(SlotAfter(calls[..n]), SinceIssue(LogOf(calls[..n])), calls[n]);
  }

  lemma AgreesBounds(s: Slot, since: Since)
    requires Agrees(s, since)
    ensures since.Code? ==> since.compared <= MAX_ATTEMPTS && since.accepted <= 1
  {
  }

  lemma LogAt(calls: seq<Call>, n: nat)
    requires n < |calls|
    ensures LogOf(calls)[n] == Serve(SlotAfter(calls[..n]), calls[n]).1
  {
    hide Serve, SlotAfter;
    LogPrefix(calls, n + 1);
    var upTo := calls[..n + 1];
    assert upTo[..n] == calls[..n];
    assert LogOf(calls)[n] == LogOf(calls)[..n + 1][n];
  }

  // ---- runs of the whole store ---------------------------------------------------

  /** One call, for one church and phone. */
  datatype StoreCall = StoreCall(churchId: string, phone: string, call: Call)

  predicate For(c: StoreCall, churchId: string, phone: string) {
    c.churchId == churchId && c.phone == phone
  }

  function StoreAfter(calls: seq<StoreCall>): map<string, Slot> {
    if calls == [] then map[]
    else
      var slots, last := StoreAfter(calls[..|calls| - 1]), calls[|calls| - 1];
      var ns := Namespace(last.churchId, last.phone);
      slots[ns := Serve(SlotOf(slots, ns), last.call).0]
  }

  /** What the store answers to the calls of one pair, in a run of calls of all pairs. */
  function NotesFor(calls: seq<StoreCall>, churchId: string, phone: string): seq<Note> {
    if calls == [] then []
    else
      var init, last := calls[..|calls| - 1], calls[|calls| - 1];
      NotesFor(init, churchId, phone)
      + if For(last, churchId, phone) then
          [Serve(SlotOf(StoreAfter(init), Namespace(churchId, phone)), last.call).1]
        else []
  }

  function CallsFor(calls: seq<StoreCall>, churchId: string, phone: string): seq<Call> {
    if calls == [] then []
    else
      var last := calls[|calls| - 1];
      CallsFor(calls[..|calls| - 1], churchId, phone) + if For(last, churchId, phone) then [last.call] else []
  }

  predicate InTime(calls: seq<StoreCall>) {
    forall i, j :: 0 <= i < j < |calls| ==> calls[i].call.now <= calls[j].call.now
  }

  // ---- one key -------------------------------------------------------------------

  predicate On(c: StoreCall, ns: string) {
    Namespace(c.churchId, c.phone) == ns
  }

  /** What the store answers to the calls on one key, whoever makes them. */
  function NotesOn(calls: seq<StoreCall>, ns: string): seq<Note> {
    if calls == [] then []
    else
      var init, last := calls[..|calls| - 1], calls[|calls| - 1];
      NotesOn(init, ns) + if On(last, ns) then [Serve(SlotOf(StoreAfter(init), ns), last.call).1] else []
  }

  function CallsOn(calls: seq<StoreCall>, ns: string): seq<Call> {
    if calls == [] then []
    else
      var last := calls[|calls| - 1];
      CallsOn(calls[..|calls| - 1], ns) + if On(last, ns) then [last.call] else []
  }

  /** Each key sees the store as if it were the only one. */
  lemma {:induction false} KeysAreSeparate(calls: seq<StoreCall>, ns: string)
    ensures SlotOf(StoreAfter(calls), ns) == SlotAfter(CallsOn(calls, ns))
    ensures NotesOn(calls, ns) == LogOf(CallsOn(calls, ns))
  {
    hide Serve, Namespace;
    if calls != [] {
      var init, last := calls[..|calls| - 1], calls[|calls| - 1];
      KeysAreSeparate(init, ns);
      var own := CallsOn(init, ns);
      if On(last, ns) {
        assert (own + [last.call])[..|own|] == own;
      } else {
        assert own + [] == own;
      }
    }
  }

  lemma {:induction false} CallsOnInTime(calls: seq<StoreCall>, ns: string)
    requires InTime(calls)
    ensures Chronological(CallsOn(calls, ns))
    ensures forall c :: c in CallsOn(calls, ns) ==> calls != [] && c.now <= calls[|calls| - 1].call.now
  {
    hide Namespace;
    if calls != [] {
      var init := calls[..|calls| - 1];
      CallsOnInTime(init, ns);
      var own := CallsOn(init, ns);
      forall i | 0 <= i < |own| ensures own[i].now <= calls[|calls| - 1].call.now {
        assert own[i] in own;
      }
    }
  }

  /** The n-th of these notes, given those before it, says nothing it may not say. */
  predicate ProperAt(notes: seq<Note>, n: nat)
    requires n <= |notes|
  {
    var since := SinceIssue(notes[..n]);
    && (since.Code? ==> since.compared <= MAX_ATTEMPTS && since.accepted <= 1)
    && (n < |notes| ==> Proper(since, notes[n]))
  }

  ghost predicate AllProper(notes: seq<Note>) {
    forall n: nat :: n <= |notes| ==> ProperAt(notes, n)
  }

  /**
  Over every run of the whole store, whoever calls, each key gets codes at least a minute
  apart, each compared at most five times and accepted at most once, only the latest and
  only within five minutes.
  */
  lemma EveryKeyIsProper(calls: seq<StoreCall>, ns: string)
    requires InTime(calls)
    ensures AllProper(NotesOn(calls, ns))
  {
    hide NotesOn, CallsOn, SinceIssue, Proper, LogOf, Chronological;
    KeysAreSeparate(calls, ns);
    CallsOnInTime(calls, ns);
    forall n: nat | n <= |NotesOn(calls, ns)| ensures ProperAt(NotesOn(calls, ns), n) {
      EveryRunIsProper(CallsOn(calls, ns), n);
    }
  }

  /** And each answer on a key is the one that key's log calls for. */
  lemma EveryKeyAnswerIsExpected(calls: seq<StoreCall>, ns: string, n: nat)
    requires InTime(calls) && n < |NotesOn(calls, ns)|
    ensures |CallsOn(calls, ns)| == |NotesOn(calls, ns)|
    ensures NotesOn(calls, ns)[n] == Expected(SinceIssue(NotesOn(calls, ns)[..n]), CallsOn(calls, ns)[n])
  {
    hide NotesOn, CallsOn, SinceIssue, Expected, LogOf, Chronological;
    KeysAreSeparate(calls, ns);
    CallsOnInTime(calls, ns);
    EveryAnswerIsExpected(CallsOn(calls, ns), n);
  }

  // ---- one church and phone ------------------------------------------------------

  /** No other pair of the run has the keys of this one. */
  predicate Unshared(calls: seq<StoreCall>, churchId: string, phone: string) {
    forall c :: c in calls && On(c, Namespace(churchId, phone)) ==> For(c, churchId, phone)
  }

  lemma {:induction false} OwnKey(calls: seq<StoreCall>, churchId: string, phone: string)
    requires Unshared(calls, churchId, phone)
    ensures CallsFor(calls, churchId, phone) == CallsOn(calls, Namespace(churchId, phone))
    ensures NotesFor(calls, churchId, phone) == NotesOn(calls, Namespace(churchId, phone))
  {
    hide Serve, Namespace;
    if calls != [] {
      var init, last := calls[..|calls| - 1], calls[|calls| - 1];
      assert last in calls && forall c :: c in init ==> c in calls;
      OwnKey(init, churchId, phone);
      assert For(last, churchId, phone) ==> On(last, Namespace(churchId, phone));
    }
  }

  /** A pair whose keys no other pair of the run has is answered as if it were alone, within all limits. */
  lemma PairsAreSeparate(calls: seq<StoreCall>, churchId: string, phone: string)
    requires Unshared(calls, churchId, phone)
    ensures NotesFor(calls, churchId, phone) == LogOf(CallsFor(calls, churchId, phone))
    ensures InTime(calls) ==> AllProper(NotesFor(calls, churchId, phone))
  {
    hide NotesOn, CallsOn, NotesFor, CallsFor, LogOf, AllProper, InTime, Unshared, Namespace;
    OwnKey(calls, churchId, phone);
    KeysAreSeparate(calls, Namespace(churchId, phone));
    if InTime(calls) {
      EveryKeyIsProper(calls, Namespace(churchId, phone));
    }
  }

  /** A run of calls of two pairs. */
  predicate OfPairs(calls: seq<StoreCall>, c: string, p: string, d: string, q: string) {
    InTime(calls) && forall x :: x in calls ==> For(x, c, p) || For(x, d, q)
  }

  ghost predicate AsIfAlone(calls: seq<StoreCall>, churchId: string, phone: string) {
    && NotesFor(calls, churchId, phone) == LogOf(CallsFor(calls, churchId, phone))
    && AllProper(NotesFor(calls, churchId, phone))
  }

  /** One pair is issued a code, the other submits it, and then the first does. */
  function SharedRun(c: string, p: string, d: string, q: string, code: string): (run: seq<StoreCall>)
    ensures |run| == 3
  {
    [StoreCall(c, p, IssueCall(1, code)), StoreCall(d, q, VerifyCall(2, code)), StoreCall(c, p, VerifyCall(3, code))]
  }

  lemma StoreSnoc(calls: seq<StoreCall>, last: StoreCall, c: string, p: string)
    ensures var ns := Namespace(last.churchId, last.phone);
            StoreAfter(calls + [last]) == StoreAfter(calls)[ns := Serve(SlotOf(StoreAfter(calls), ns), last.call).0]
    ensures NotesFor(calls + [last], c, p) == NotesFor(calls, c, p)
              + if For(last, c, p) then [Serve(SlotOf(StoreAfter(calls), Namespace(c, p)), last.call).1] else []
    ensures CallsFor(calls + [last], c, p) == CallsFor(calls, c, p) + if For(last, c, p) then [last.call] else []
  {
    assert (calls + [last])[..|calls|] == calls;
  }

  lemma NothingServed(c: string, p: string)
    ensures StoreAfter([]) == map[] && NotesFor([], c, p) == [] && CallsFor([], c, p) == []
    ensures SlotAfter([]) == EMPTY && LogOf([]) == []
  {
  }

  lemma LogSnoc(calls: seq<Call>, last: Call)
    ensures SlotAfter(calls + [last]) == Serve(SlotAfter(calls), last).0
    ensures LogOf(calls + [last]) == LogOf(calls) + [Serve(SlotAfter(calls), last).1]
  {
    assert (calls + [last])[..|calls|] == calls;
  }

  /** The slot once a code has been issued at instant 1. */
  function IssuedSlot(code: string): Slot {
    Slot(Some(Keyed(Digest(code), 1 + OTP_TTL)), None, Some(1 + RESEND_WINDOW))
  }

  /** How the three calls of the shared run meet one slot. */
  lemma SharedSteps(code: string)
    ensures Serve(EMPTY, IssueCall(1, code)) == (IssuedSlot(code), Issued(1, code))
    ensures Serve(IssuedSlot(code), VerifyCall(2, code)).0 == IssuedSlot(code).(code := None)
    ensures Serve(IssuedSlot(code).(code := None), VerifyCall(3, code)).1 == NoCode(3)
    ensures Serve(IssuedSlot(code), VerifyCall(3, code)).1 == Accepted(3, code)
  {
  }

  lemma SharedRunOfPairs(c: string, p: string, d: string, q: string, code: string)
    ensures OfPairs(SharedRun(c, p, d, q, code), c, p, d, q)
  {
  }

  /** The slot of a pair after one more call on its key. */
  lemma SlotSnoc(calls: seq<StoreCall>, last: StoreCall, c: string, p: string)
    requires On(last, Namespace(c, p))
    ensures var slot := SlotOf(StoreAfter(calls), Namespace(c, p));
            && SlotOf(StoreAfter(calls + [last]), Namespace(c, p)) == Serve(slot, last.call).0
            && NotesFor(calls + [last], c, p)
               == NotesFor(calls, c, p) + if For(last, c, p) then [Serve(slot, last.call).1] else []
    ensures CallsFor(calls + [last], c, p) == CallsFor(calls, c, p) + if For(last, c, p) then [last.call] else []
  {
    hide Namespace, StoreAfter, NotesFor, CallsFor, Serve;
    StoreSnoc(calls, last, c, p);
  }

  /** Where the pairs share keys the first finds its code gone. */
  lemma SharedNotes(c: string, p: string, d: string, q: string, code: string)
    requires !(c == d && p == q) && Namespace(c, p) == Namespace(d, q)
    ensures NotesFor(SharedRun(c, p, d, q, code), c, p) == [Issued(1, code), NoCode(3)]
    ensures CallsFor(SharedRun(c, p, d, q, code), c, p) == [IssueCall(1, code), VerifyCall(3, code)]
  {
    var run := SharedRun(c, p, d, q, code);
    var one, two := [run[0]], [run[0], run[1]];
    assert [] + [run[0]] == one && one + [run[1]] == two && two + [run[2]] == run;
    assert SlotOf(map[], Namespace(c, p)) == EMPTY;
    NothingServed(c, p);
    hide Namespace, StoreAfter, NotesFor, CallsFor, Serve, SlotOf, IssuedSlot;
    SharedSteps(code);
    SlotSnoc([], run[0], c, p);
    SlotSnoc(one, run[1], c, p);
    SlotSnoc(two, run[2], c, p);
  }

  /** Alone it would have been accepted. */
  lemma AloneLog(code: string)
    ensures LogOf([IssueCall(1, code), VerifyCall(3, code)]) == [Issued(1, code), Accepted(3, code)]
  {
    var own := [IssueCall(1, code)];
    assert [] + own == own && own + [VerifyCall(3, code)] == [IssueCall(1, code), VerifyCall(3, code)];
    NothingServed("", "");
    hide SlotAfter, LogOf, Serve, IssuedSlot;
    SharedSteps(code);
    LogSnoc([], IssueCall(1, code));
    LogSnoc(own, VerifyCall(3, code));
  }

  /** The run that tells clashing pairs apart: NoCode where the pair alone would have been accepted. */
  lemma SharedRunDiffers(c: string, p: string, d: string, q: string, code: string)
    requires !(c == d && p == q) && Namespace(c, p) == Namespace(d, q)
    ensures var run := SharedRun(c, p, d, q, code);
            && OfPairs(run, c, p, d, q) && !AsIfAlone(run, c, p)
            && NotesFor(run, c, p) == [Issued(1, code), NoCode(3)]
            && LogOf(CallsFor(run, c, p)) == [Issued(1, code), Accepted(3, code)]
  {
    hide Namespace, OfPairs, NotesFor, CallsFor, LogOf, SharedRun, AllProper;
    SharedRunOfPairs(c, p, d, q, code);
    SharedNotes(c, p, d, q, code);
    AloneLog(code);
    assert [Issued(1, code), NoCode(3)][1] != [Issued(1, code), Accepted(3, code)][1];
  }

  /**
  Two different pairs are kept apart, each answered as if alone and within its own limits
  over every run of calls of the two, if and only if they do not clash.
  */
  lemma PairsSeparateExactly(c: string, p: string, d: string, q: string)
    requires ':' !in c && ':' !in d && !(c == d && p == q)
    ensures (forall calls :: OfPairs(calls, c, p, d, q) ==> AsIfAlone(calls, c, p)) <==> !Clash(c, p, d, q)
  {
    hide Namespace, NotesFor, CallsFor, LogOf, AllProper;
    NamespaceSharedExactly(c, p, d, q);
    if Clash(c, p, d, q) {
      SharedRunDiffers(c, p, d, q, "123456");
    } else {
      forall calls | OfPairs(calls, c, p, d, q) ensures AsIfAlone(calls, c, p) {
        PairsAreSeparate(calls, c, p);
      }
    }
  }
}
