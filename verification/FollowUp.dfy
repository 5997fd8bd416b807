/**
Follow-up tasks and their escalation. The functions are the single database writes;
the service's methods read, decide and write as one step each. The interleaving of
those reads and writes is the subject of `FollowUpProtocol`.
*/
module FollowUp {
  import opened Options
  import opened Sets
  import opened Calendar
  import opened Text

  type TaskId = nat

  datatype Stage = FirstTimer | NewConvert | Baptised | Member | Leader | Dormant

  datatype Status = Open | Escalated | Done | Unreachable | Cancelled

  predicate StillOpen(s: Status) {
    s == Open || s == Escalated
  }

  datatype Task = Task(
    memberId: string, stage: Stage, assignee: string, dueAt: Instant, status: Status,
    escalatedAt: Option<Instant>, escalatedTo: Option<string>, firstTouchedAt: Option<Instant>,
    closedAt: Option<Instant>, outcome: string)

  datatype Transition = Transition(origin: Option<Stage>, goal: Stage, at: Instant, actor: string)

  datatype Journey = Journey(stage: Stage, enteredStageAt: Instant, history: seq<Transition>)

  datatype Fault = MemberRequired | StageInvalid | NoOwner | TaskNotFound | AlreadyClosed | OutcomeRequired

  datatype Reply<T> = Ok(value: T) | Refused(fault: Fault)

  // ---- the vocabulary ------------------------------------------------------------

  function StageNamed(s: string): Option<Stage> {
    if s == "first_timer" then Some(FirstTimer)
    else if s == "new_convert" then Some(NewConvert)
    else if s == "baptised" then Some(Baptised)
    else if s == "member" then Some(Member)
    else if s == "leader" then Some(Leader)
    else if s == "dormant" then Some(Dormant)
    else None
  }

  function StatusNamed(s: string): Option<Status> {
    if s == "open" then Some(Open)
    else if s == "escalated" then Some(Escalated)
    else if s == "done" then Some(Done)
    else if s == "unreachable" then Some(Unreachable)
    else if s == "cancelled" then Some(Cancelled)
    else None
  }

  /** The closing status a form asks for; left out, it is done. */
  function ClosingStatus(s: string): Option<Status> {
    var named := if s == "" then Some(Done) else StatusNamed(s);
    if named.Some? && StillOpen(named.value) then None else named
  }

  /** Hours allowed for the follow-up a stage requires; members and leaders need none. */
  function SlaHours(s: Stage): Option<int> {
    match s
    case FirstTimer => Some(48)
    case NewConvert => Some(72)
    case Baptised => Some(168)
    case Dormant => Some(168)
    case _ => None
  }

  function StageText(s: Stage): string {
    match s
    case FirstTimer => "first_timer"
    case NewConvert => "new_convert"
    case Baptised => "baptised"
    case Member => "member"
    case Leader => "leader"
    case Dormant => "dormant"
  }

  function StatusText(s: Status): string {
    match s
    case Open => "open"
    case Escalated => "escalated"
    case Done => "done"
    case Unreachable => "unreachable"
    case Cancelled => "cancelled"
  }

  /** Reading a name undoes writing it, and nothing else is a name; a task is closed as done unless told otherwise. */
  lemma NamesExactly(s: string)
    ensures forall stage :: StageNamed(s) == Some(stage) <==> s == StageText(stage)
    ensures forall status :: StatusNamed(s) == Some(status) <==> s == StatusText(status)
    ensures forall status :: ClosingStatus(s) == Some(status) <==>
              (s == "" && status == Done) || (s == StatusText(status) && status != Open && status != Escalated)
  {
  }

  /** Two, three and seven days for the stages somebody must be followed up at, nothing for the others. */
  lemma Deadlines()
    ensures SlaHours(FirstTimer) == Some(48) && SlaHours(NewConvert) == Some(72)
    ensures SlaHours(Baptised) == Some(168) && SlaHours(Dormant) == Some(168)
    ensures SlaHours(Member) == None && SlaHours(Leader) == None
  {
  }

  /** What the escalation query selects. */
  predicate Overdue(t: Task, now: Instant) {
    t.status == Open && t.dueAt < now && t.firstTouchedAt.None?
  }

  function OverdueIds(tasks: map<TaskId, Task>, now: Instant): set<TaskId> {
    set id | id in tasks && Overdue(tasks[id], now)
  }

  // ---- single writes -------------------------------------------------------------

  function NewTask(memberId: string, stage: Stage, assignee: string, dueAt: Instant): Task {
    Task(memberId, stage, assignee, dueAt, Open, None, None, None, None, "")
  }

  function Touched(t: Task, now: Instant): Task {
    t.(firstTouchedAt := Some(now))
  }

  /** `untouched` is what the closing call read, not necessarily what is stored by now. */
  function Closed(t: Task, untouched: bool, status: Status, outcome: string, now: Instant): Task {
    t.(status := status, outcome := outcome, closedAt := Some(now),
       firstTouchedAt := if untouched then Some(now) else t.firstTouchedAt)
  }

  /** The escalating write; `read` is the assignee the sweep read. */
  function EscalatedTo(t: Task, read: string, supervisor: string, now: Instant): Task {
    var up := t.(status := Escalated, escalatedAt := Some(now));
    if supervisor != "" && supervisor != read then up.(escalatedTo := Some(supervisor), assignee := supervisor) else up
  }

  predicate MayWork(t: Task, actor: string, canManage: bool) {
    canManage || (actor != "" && t.assignee == actor)
  }

  function JourneyOf(journeys: map<string, Journey>, memberId: string): Option<Journey> {
    if memberId in journeys then Some(journeys[memberId]) else None
  }

  function MoveJourney(j: Option<Journey>, stage: Stage, at: Instant, actor: string): Journey {
    match j
    case None => Journey(stage, at, [Transition(None, stage, at, actor)])
    case Some(known) =>
      if known.stage == stage then known
      else Journey(stage, at, known.history + [Transition(Some(known.stage), stage, at, actor)])
  }

  // ---- what every write keeps ----------------------------------------------------

  /** Every task has an owner; a closed one says what happened, when, and that somebody acted. */
  predicate TaskInv(t: Task) {
    && t.assignee != ""
    && (t.status == Open ==> t.escalatedAt.None?)
    && (t.status == Escalated ==> t.escalatedAt.Some?)
    && (t.escalatedTo.Some? ==> t.escalatedAt.Some?)
    && (!StillOpen(t.status) ==> t.outcome != "" && t.closedAt.Some? && t.firstTouchedAt.Some?)
  }

  /** The history tells every move in order, ends where the member is, and has no move to the same stage. */
  predicate JourneyInv(j: Journey) {
    && j.history != []
    && j.history[0].origin.None?
    && (forall i :: 0 < i < |j.history| ==>
         j.history[i].origin == Some(j.history[i - 1].goal) && j.history[i].goal != j.history[i - 1].goal)
    && j.history[|j.history| - 1].goal == j.stage
    && j.history[|j.history| - 1].at == j.enteredStageAt
  }

  lemma MoveKeepsJourney(j: Option<Journey>, stage: Stage, at: Instant, actor: string)
    requires j.Some? ==> JourneyInv(j.value)
    ensures JourneyInv(MoveJourney(j, stage, at, actor))
    ensures j.Some? ==> j.value.history <= MoveJourney(j, stage, at, actor).history
    ensures MoveJourney(j, stage, at, actor).stage == stage
    ensures j.Some? && j.value.stage == stage ==> MoveJourney(j, stage, at, actor) == j.value
    ensures j.None? ==> MoveJourney(j, stage, at, actor).history == [Transition(None, stage, at, actor)]
    ensures j.Some? && j.value.stage != stage ==>
              MoveJourney(j, stage, at, actor).history
              == j.value.history + [Transition(Some(j.value.stage), stage, at, actor)]
  {
  }

  lemma NewTaskKeeps(memberId: string, stage: Stage, assignee: string, dueAt: Instant)
    requires assignee != ""
    ensures TaskInv(NewTask(memberId, stage, assignee, dueAt))
  {
  }

  // ---- the sweep -----------------------------------------------------------------

  const MAX_PER_SWEEP: nat := 100

  /** Who to escalate to: nobody, or the answers of an org chart, some of which fail. */
  datatype Escalator = InPlace | Chart(supervisors: map<string, string>, failing: set<string>)

  function SupervisorFor(up: Escalator, assignee: string): Option<string> {
    match up
    case InPlace => Some("")
    case Chart(supervisors, failing) =>
      if assignee in failing then None
      else if assignee in supervisors then Some(supervisors[assignee])
      else Some("")
  }

  datatype Sweep = Sweep(tasks: map<TaskId, Task>, escalated: nat, reassigned: nat)

  /** What a sweep makes of one task it found. */
  function SweptTask(t: Task, up: Escalator, now: Instant): Task {
    match SupervisorFor(up, t.assignee)
    case None => t
    case Some(supervisor) => EscalatedTo(t, t.assignee, supervisor, now)
  }

  function SweepOne(s: Sweep, id: TaskId, up: Escalator, now: Instant): Sweep {
    if id !in s.tasks || s.tasks[id].status != Open || SupervisorFor(up, s.tasks[id].assignee).None? then s
    else
      var t := s.tasks[id];
      Sweep(s.tasks[id := SweptTask(t, up, now)], s.escalated + 1,
            s.reassigned + (if SupervisorFor(up, t.assignee).value in {"", t.assignee} then 0 else 1))
  }

  function SweepAll(tasks: map<TaskId, Task>, due: seq<TaskId>, up: Escalator, now: Instant): Sweep {
    if due == [] then Sweep(tasks, 0, 0)
    else SweepOne(SweepAll(tasks, due[..|due| - 1], up, now), due[|due| - 1], up, now)
  }

  function DueAt(tasks: map<TaskId, Task>, id: TaskId): Instant {
    if id in tasks then tasks[id].dueAt else 0
  }

  predicate NoRepeats(due: seq<TaskId>) {
    forall i, j :: 0 <= i < j < |due| ==> due[i] != due[j]
  }

  predicate SoonestFirst(tasks: map<TaskId, Task>, due: seq<TaskId>) {
    forall i, j :: 0 <= i < j < |due| ==> DueAt(tasks, due[i]) <= DueAt(tasks, due[j])
  }

  function DueSet(due: seq<TaskId>): set<TaskId> {
    set id | id in due
  }

  predicate NoneSooner(tasks: map<TaskId, Task>, due: seq<TaskId>, left: set<TaskId>) {
    forall d, id :: d in due && id in left ==> DueAt(tasks, d) <= DueAt(tasks, id)
  }

  /** What the bounded, sorted query may answer: the earliest hundred overdue tasks, equal deadlines in any order. */
  predicate IsDueList(tasks: map<TaskId, Task>, now: Instant, due: seq<TaskId>) {
    var all := OverdueIds(tasks, now);
    && NoRepeats(due) && DueSet(due) <= all
    && SoonestFirst(tasks, due) && NoneSooner(tasks, due, all - DueSet(due))
    && |due| == (if |all| < 100 then |all| else 100)
  }

  /** Who is on the list: only open, untouched and late tasks, the latest deadlines left out if there are too many. */
  lemma DueListMeaning(tasks: map<TaskId, Task>, now: Instant, due: seq<TaskId>)
    requires IsDueList(tasks, now, due)
    ensures |due| <= 100
    ensures forall id :: id in due ==>
              id in tasks && tasks[id].status == Open && tasks[id].dueAt < now && tasks[id].firstTouchedAt.None?
    ensures forall id ::
              (id in tasks && tasks[id].status == Open && tasks[id].dueAt < now && tasks[id].firstTouchedAt.None?) ==>
              id in due || (|due| == 100 && forall d :: d in due ==> tasks[d].dueAt <= tasks[id].dueAt)
  {
    DueSize(due);
    assert forall id :: id in due <==> id in DueSet(due);
    assert forall id :: id in OverdueIds(tasks, now) <==>
      id in tasks && tasks[id].status == Open && tasks[id].dueAt < now && tasks[id].firstTouchedAt.None?;
    hide OverdueIds, NoRepeats, SoonestFirst, DueSet;
    if |due| < 100 {
      SameSize(DueSet(due), OverdueIds(tasks, now));
    }
    forall id, d | id in OverdueIds(tasks, now) && id !in due && d in due ensures tasks[d].dueAt <= tasks[id].dueAt {
      assert id in OverdueIds(tasks, now) - DueSet(due);
      assert DueAt(tasks, d) <= DueAt(tasks, id);
    }
  }

  datatype EscalationResult = EscalationResult(examined: nat, escalated: nat, reassigned: nat)

  method EarliestOf(ids: set<TaskId>, tasks: map<TaskId, Task>) returns (best: TaskId)
    requires ids != {}
    ensures best in ids && forall id :: id in ids ==> DueAt(tasks, best) <= DueAt(tasks, id)
  {
    best :| best in ids;
    var rest := ids - {best};
    while rest != {}
      invariant best in ids && rest <= ids
      invariant forall id :: id in ids - rest ==> DueAt(tasks, best) <= DueAt(tasks, id)
      decreases rest
    {
      var id :| id in rest;
      if DueAt(tasks, id) < DueAt(tasks, best) {
        best := id;
      }
      rest := rest - {id};
    }
  }

  lemma ListNext(tasks: map<TaskId, Task>, due: seq<TaskId>, left: set<TaskId>, id: TaskId)
    requires NoRepeats(due) && SoonestFirst(tasks, due) && NoneSooner(tasks, due, left) && DueSet(due) !! left
    requires id in left && forall x :: x in left ==> DueAt(tasks, id) <= DueAt(tasks, x)
    ensures NoRepeats(due + [id]) && SoonestFirst(tasks, due + [id]) && NoneSooner(tasks, due + [id], left - {id})
    ensures DueSet(due + [id]) == DueSet(due) + {id}
  {
    hide DueAt;
    assert forall d :: d in due ==> d in DueSet(due);
  }

  method FindOverdue(tasks: map<TaskId, Task>, now: Instant) returns (due: seq<TaskId>)
    ensures IsDueList(tasks, now, due)
  {
    var all := OverdueIds(tasks, now);
    hide OverdueIds, NoRepeats, SoonestFirst, NoneSooner, DueAt;
    var left := all;
    due := [];
    EmptyList(tasks, left);
    while left != {} && |due| < MAX_PER_SWEEP
      invariant left == all - DueSet(due) && DueSet(due) <= all && |due| + |left| == |all| && |due| <= MAX_PER_SWEEP
      invariant NoRepeats(due) && SoonestFirst(tasks, due) && NoneSooner(tasks, due, left)
    {
      var id := EarliestOf(left, tasks);
      ListNext(tasks, due, left, id);
      due := due + [id];
      left := left - {id};
    }
  }

  lemma EmptyList(tasks: map<TaskId, Task>, left: set<TaskId>)
    ensures NoRepeats([]) && SoonestFirst(tasks, []) && NoneSooner(tasks, [], left) && DueSet([]) == {}
  {
  }

  // ---- the service ---------------------------------------------------------------

  datatype RecordInput = RecordInput(memberId: string, stage: string, assignee: string, actor: string, at: Instant)

  class FollowUpService {
    var tasks: map<TaskId, Task>
    var journeys: map<string, Journey>

    predicate Valid()
      reads this
    {
      && (forall id :: id in tasks ==> TaskInv(tasks[id]))
      && (forall m :: m in journeys ==> JourneyInv(journeys[m]))
    }

    constructor ()
      ensures Valid() && tasks == map[] && journeys == map[]
    {
      tasks, journeys := map[], map[];
    }

    /** Places a member at a stage and, where the stage asks for one, creates the follow-up task `newId`. */
    method Record(input: RecordInput, now: Instant, newId: TaskId) returns (r: Reply<Option<TaskId>>)
      requires Valid() && newId !in tasks
      modifies this
      ensures Valid()
      ensures var stage := if input.stage == "" then Some(FirstTimer) else StageNamed(input.stage);
              var at := if input.at == 0 then now else input.at;
              var owner := if TrimSpace(input.assignee) != "" then TrimSpace(input.assignee)
                           else TrimSpace(input.actor);
              if TrimSpace(input.memberId) == "" then
                r == Refused(MemberRequired) && tasks == old(tasks) && journeys == old(journeys)
              else if stage.None? then
                r == Refused(StageInvalid) && tasks == old(tasks) && journeys == old(journeys)
              else
                && journeys == old(journeys)[input.memberId :=
                     MoveJourney(JourneyOf(old(journeys), input.memberId), stage.value, at, input.actor)]
                && if SlaHours(stage.value).None? then r == Ok(None) && tasks == old(tasks)
                   else if owner == "" then r == Refused(NoOwner) && tasks == old(tasks)
                   else r == Ok(Some(newId)) && tasks == old(tasks)[newId :=
                          Task(input.memberId, stage.value, owner, at + 3600 * SlaHours(stage.value).value, Open,
                               None, None, None, None, "")]
    {
      hide TrimSpace, TaskInv, JourneyInv, MoveJourney, StageNamed;
      if TrimSpace(input.memberId) == "" {
        return Refused(MemberRequired);
      }
      var named := if input.stage == "" then Some(FirstTimer) else StageNamed(input.stage);
      if named.None? {
        return Refused(StageInvalid);
      }
      var stage, at := named.value, if input.at == 0 then now else input.at;
      var existing := JourneyOf(journeys, input.memberId);
      MoveKeepsJourney(existing, stage, at, input.actor);
      journeys := journeys[input.memberId := MoveJourney(existing, stage, at, input.actor)];
      var hours := SlaHours(stage);
      if hours.None? {
        return Ok(None);
      }
      var assignee := TrimSpace(input.assignee);
      if assignee == "" {
        assignee := TrimSpace(input.actor);
      }
      if assignee == "" {
        return Refused(NoOwner);
      }
      NewTaskKeeps(input.memberId, stage, assignee, at + 3600 * hours.value);
      tasks := tasks[newId := NewTask(input.memberId, stage, assignee, at + 3600 * hours.value)];
      return Ok(Some(newId));
    }

    method Touch(id: TaskId, actor: string, canManage: bool, now: Instant) returns (r: Reply<Task>)
      requires Valid()
      modifies this`tasks
      ensures Valid()
      ensures if id !in old(tasks) || !(canManage || (actor != "" && actor == old(tasks)[id].assignee)) then
                r == Refused(TaskNotFound) && tasks == old(tasks)
              else if !StillOpen(old(tasks)[id].status) then
                r == Refused(AlreadyClosed) && tasks == old(tasks)
              else
                && id in tasks && r == Ok(tasks[id])
                && tasks == if old(tasks)[id].firstTouchedAt.Some? then old(tasks)
                            else old(tasks)[id := old(tasks)[id].(firstTouchedAt := Some(now))]
    {
      if id !in tasks {
        return Refused(TaskNotFound);
      }
      var task := tasks[id];
      if !MayWork(task, actor, canManage) {
        return Refused(TaskNotFound);
      }
      if !StillOpen(task.status) {
        return Refused(AlreadyClosed);
      }
      if task.firstTouchedAt.Some? {
        return Ok(task);
      }
      tasks := tasks[id := Touched(task, now)];
      return Ok(tasks[id]);
    }

    /** An unknown status and one that is still open are refused alike. */
    method Close(id: TaskId, status: string, outcome: string, actor: string, canManage: bool, now: Instant)
        returns (r: Reply<Task>)
      requires Valid()
      modifies this`tasks
      ensures Valid()
      ensures if ClosingStatus(status).None? then r == Refused(AlreadyClosed) && tasks == old(tasks)
              else if TrimSpace(outcome) == "" then r == Refused(OutcomeRequired) && tasks == old(tasks)
              else if id !in old(tasks) || !(canManage || (actor != "" && actor == old(tasks)[id].assignee)) then
                r == Refused(TaskNotFound) && tasks == old(tasks)
              else if !StillOpen(old(tasks)[id].status) then
                r == Refused(AlreadyClosed) && tasks == old(tasks)
              else
                && id in tasks && r == Ok(tasks[id])
                && tasks == old(tasks)[id :=
                     old(tasks)[id].(
                       status := ClosingStatus(status).value, outcome := TrimSpace(outcome), closedAt := Some(now),
                       firstTouchedAt := if old(tasks)[id].firstTouchedAt.None? then Some(now)
                                         else old(tasks)[id].firstTouchedAt)]
    {
      hide TrimSpace, StatusNamed;
      var named := if status == "" then Some(Done) else StatusNamed(status);
      if named.None? || StillOpen(named.value) {
        return Refused(AlreadyClosed);
      }
      var said := TrimSpace(outcome);
      if said == "" {
        return Refused(OutcomeRequired);
      }
      if id !in tasks {
        return Refused(TaskNotFound);
      }
      var task := tasks[id];
      if !MayWork(task, actor, canManage) {
        return Refused(TaskNotFound);
      }
      if !StillOpen(task.status) {
        return Refused(AlreadyClosed);
      }
      tasks := tasks[id := Closed(task, task.firstTouchedAt.None?, named.value, said, now)];
      return Ok(tasks[id]);
    }

    method Reassign(id: TaskId, assignee: string) returns (r: Reply<Task>)
      requires Valid()
      modifies this`tasks
      ensures Valid()
      ensures if TrimSpace(assignee) == "" then r == Refused(NoOwner) && tasks == old(tasks)
              else if id !in old(tasks) then r == Refused(TaskNotFound) && tasks == old(tasks)
              else if !StillOpen(old(tasks)[id].status) then r == Refused(AlreadyClosed) && tasks == old(tasks)
              else id in tasks && r == Ok(tasks[id]) && tasks == old(tasks)[id := old(tasks)[id].(assignee := assignee)]
    {
      if TrimSpace(assignee) == "" {
        return Refused(NoOwner);
      }
      if id !in tasks {
        return Refused(TaskNotFound);
      }
      if !StillOpen(tasks[id].status) {
        return Refused(AlreadyClosed);
      }
      tasks := tasks[id := tasks[id].(assignee := assignee)];
      return Ok(tasks[id]);
    }

    /** One undisturbed sweep; `due` is what its query answered. */
    method EscalateOverdue(up: Escalator, now: Instant) returns (out: EscalationResult, ghost due: seq<TaskId>)
      requires Valid()
      modifies this`tasks
      ensures Valid()
      ensures IsDueList(old(tasks), now, due)
      ensures var sweep := SweepAll(old(tasks), due, up, now);
              tasks == sweep.tasks && out == EscalationResult(|due|, sweep.escalated, sweep.reassigned)
    {
      hide TaskInv, JourneyInv, EscalatedTo, SupervisorFor, OverdueIds, NoneSooner, SoonestFirst;
      var found := FindOverdue(tasks, now);
      var read := tasks;
      due := found;
      out := EscalationResult(|found|, 0, 0);
      for i := 0 to |found|
        invariant Sweep(tasks, out.escalated, out.reassigned) == SweepAll(read, found[..i], up, now)
        invariant out.examined == |found|
      {
        assert found[..i + 1][..i] == found[..i];
        FoundTask(read, found, i, up, now);
        var id, task := found[i], read[found[i]];
        var supervisor := SupervisorFor(up, task.assignee);
        if supervisor.None? {
          continue;
        }
        if id !in tasks || tasks[id].status != Open {
          continue;
        }
        tasks := tasks[id := EscalatedTo(tasks[id], task.assignee, supervisor.value, now)];
        out := out.(escalated := out.escalated + 1);
        if supervisor.value != "" && supervisor.value != task.assignee {
          out := out.(reassigned := out.reassigned + 1);
        }
      }
      assert found[..|found|] == found;
      SweepKeepsTasks(old(tasks), found, up, now);
    }
  }

  // ---- what a sweep does ---------------------------------------------------------

  lemma {:induction false} SweepKeepsTasks(tasks: map<TaskId, Task>, due: seq<TaskId>, up: Escalator, now: Instant)
    requires forall id :: id in tasks ==> TaskInv(tasks[id])
    ensures var s := SweepAll(tasks, due, up, now);
            s.tasks.Keys == tasks.Keys && forall id :: id in s.tasks ==> TaskInv(s.tasks[id])
  {
    if due != [] {
      SweepKeepsTasks(tasks, due[..|due| - 1], up, now);
      var s, id := SweepAll(tasks, due[..|due| - 1], up, now), due[|due| - 1];
      if id in s.tasks && s.tasks[id].status == Open {
        SweptKeepsTask(s.tasks[id], up, now);
      }
    }
  }

  lemma SweptKeepsTask(t: Task, up: Escalator, now: Instant)
    requires TaskInv(t) && t.status == Open
    ensures TaskInv(SweptTask(t, up, now))
  {
  }

  lemma DueSetSnoc(due: seq<TaskId>, id: TaskId)
    ensures DueSet(due + [id]) == DueSet(due) + {id}
  {
  }

  /** A sweep makes of each task it found what one escalation makes of it, and touches no other. */
  lemma {:induction false} SweepMeaning(tasks: map<TaskId, Task>, due: seq<TaskId>, up: Escalator, now: Instant)
    requires NoRepeats(due) && DueSet(due) <= OverdueIds(tasks, now)
    ensures var s := SweepAll(tasks, due, up, now);
            && s.tasks.Keys == tasks.Keys
            && (forall id :: id in tasks ==>
                 s.tasks[id] == if id in DueSet(due) then SweptTask(tasks[id], up, now) else tasks[id])
            && s.reassigned <= s.escalated <= |due|
  {
    hide SupervisorFor, EscalatedTo;
    if due != [] {
      var init, last := due[..|due| - 1], due[|due| - 1];
      assert due == init + [last];
      DueSetSnoc(init, last);
      assert last !in DueSet(init);
      SweepMeaning(tasks, init, up, now);
      assert last in OverdueIds(tasks, now);
    }
  }

  /** When the sweep comes to a task it found, the task is still as it was read. */
  lemma FoundTask(tasks: map<TaskId, Task>, due: seq<TaskId>, i: nat, up: Escalator, now: Instant)
    requires IsDueList(tasks, now, due) && i < |due|
    ensures due[i] in tasks
    ensures var s := SweepAll(tasks, due[..i], up, now);
            due[i] in s.tasks && s.tasks[due[i]] == tasks[due[i]]
  {
    hide SweepAll, NoneSooner, SoonestFirst;
    assert due[i] in DueSet(due);
    assert DueSet(due[..i]) <= DueSet(due);
    SweepMeaning(tasks, due[..i], up, now);
  }

  predicate AllAnswer(tasks: map<TaskId, Task>, due: seq<TaskId>, up: Escalator) {
    forall id :: id in due && id in tasks ==> SupervisorFor(up, tasks[id].assignee).Some?
  }

  lemma NewestIsNew(due: seq<TaskId>)
    requires NoRepeats(due) && due != []
    ensures NoRepeats(due[..|due| - 1]) && due[|due| - 1] !in DueSet(due[..|due| - 1])
    ensures DueSet(due) == DueSet(due[..|due| - 1]) + {due[|due| - 1]}
  {
    assert due == due[..|due| - 1] + [due[|due| - 1]];
    DueSetSnoc(due[..|due| - 1], due[|due| - 1]);
  }

  lemma OverdueIsOpen(tasks: map<TaskId, Task>, now: Instant, id: TaskId)
    requires id in OverdueIds(tasks, now)
    ensures id in tasks && tasks[id].status == Open
  {
  }

  /** The sweep meets the last task it found as it was read. */
  lemma LastFound(tasks: map<TaskId, Task>, due: seq<TaskId>, up: Escalator, now: Instant)
    requires NoRepeats(due) && DueSet(due) <= OverdueIds(tasks, now) && due != []
    ensures var init, last := due[..|due| - 1], due[|due| - 1];
            var s := SweepAll(tasks, init, up, now);
            && NoRepeats(init) && DueSet(init) <= OverdueIds(tasks, now)
            && last in s.tasks && last in tasks && s.tasks[last] == tasks[last] && tasks[last].status == Open
            && SweepAll(tasks, due, up, now) == SweepOne(s, last, up, now)
  {
    hide NoRepeats, DueSet, OverdueIds, SweepOne;
    var init, last := due[..|due| - 1], due[|due| - 1];
    NewestIsNew(due);
    OverdueIsOpen(tasks, now, last);
    SweepMeaning(tasks, init, up, now);
  }

  lemma OneMoreCounted(s: Sweep, id: TaskId, up: Escalator, now: Instant)
    requires id in s.tasks && s.tasks[id].status == Open && SupervisorFor(up, s.tasks[id].assignee).Some?
    ensures SweepOne(s, id, up, now).escalated == s.escalated + 1
  {
    hide SupervisorFor, SweptTask;
  }

  /** With no failing lookup, every task found is escalated and counted. */
  lemma {:induction false} SweepCounts(tasks: map<TaskId, Task>, due: seq<TaskId>, up: Escalator, now: Instant)
    requires NoRepeats(due) && DueSet(due) <= OverdueIds(tasks, now) && AllAnswer(tasks, due, up)
    ensures SweepAll(tasks, due, up, now).escalated == |due|
  {
    if due != [] {
      hide NoRepeats, DueSet, OverdueIds, SweepOne, SupervisorFor, SweepAll;
      var init, last := due[..|due| - 1], due[|due| - 1];
      LastFound(tasks, due, up, now);
      assert forall id :: id in init ==> id in due;
      SweepCounts(tasks, init, up, now);
      OneMoreCounted(SweepAll(tasks, init, up, now), last, up, now);
    }
  }

  lemma {:induction false} DueSize(due: seq<TaskId>)
    requires NoRepeats(due)
    ensures |DueSet(due)| == |due|
  {
    if due != [] {
      var init, last := due[..|due| - 1], due[|due| - 1];
      assert due == init + [last];
      DueSize(init);
      DueSetSnoc(init, last);
      assert last !in DueSet(init);
    }
  }

  /** The overdue list after a sweep is the one before, less the tasks it found. */
  lemma SweepClears(tasks: map<TaskId, Task>, due: seq<TaskId>, up: Escalator, now: Instant)
    requires NoRepeats(due) && DueSet(due) <= OverdueIds(tasks, now) && AllAnswer(tasks, due, up)
    ensures OverdueIds(SweepAll(tasks, due, up, now).tasks, now) == OverdueIds(tasks, now) - DueSet(due)
  {
    hide SupervisorFor, SweepAll;
    SweepMeaning(tasks, due, up, now);
    forall id | id in tasks && id in DueSet(due) ensures SweptTask(tasks[id], up, now).status == Escalated {
      assert id in due;
    }
  }

  /**
  With no failing lookup a sweep takes exactly the tasks it found off the overdue list,
  so the list shrinks by a hundred, or to nothing; and it takes the earliest deadlines.
  */
  lemma SweepProgress(tasks: map<TaskId, Task>, due: seq<TaskId>, up: Escalator, now: Instant)
    requires IsDueList(tasks, now, due) && AllAnswer(tasks, due, up)
    ensures var next := SweepAll(tasks, due, up, now);
            && next.escalated == |due|
            && OverdueIds(next.tasks, now) == OverdueIds(tasks, now) - DueSet(due)
            && |OverdueIds(next.tasks, now)| == (if |OverdueIds(tasks, now)| <= MAX_PER_SWEEP then 0
                                                 else |OverdueIds(tasks, now)| - MAX_PER_SWEEP)
            && NoneSooner(tasks, due, OverdueIds(next.tasks, now))
  {
    hide SupervisorFor, SweepAll, OverdueIds, NoneSooner, SoonestFirst, NoRepeats, DueSet, AllAnswer;
    SweepCounts(tasks, due, up, now);
    SweepClears(tasks, due, up, now);
    DueSize(due);
    assert |OverdueIds(tasks, now) - DueSet(due)| == |OverdueIds(tasks, now)| - |DueSet(due)|;
  }

  /** Undisturbed sweeps one after another, each with what its query answered. */
  predicate Sweeps(
    tasks: map<TaskId, Task>, dues: seq<seq<TaskId>>, up: Escalator, now: Instant, last: map<TaskId, Task>)
    decreases |dues|
  {
    if dues == [] then last == tasks
    else IsDueList(tasks, now, dues[0]) && Sweeps(SweepAll(tasks, dues[0], up, now).tasks, dues[1..], up, now, last)
  }

  /** Without an escalator repeated sweeps drain any backlog, a hundred tasks at a time. */
  lemma {:induction false} SweepsDrain(
    tasks: map<TaskId, Task>, dues: seq<seq<TaskId>>, now: Instant, last: map<TaskId, Task>)
    requires Sweeps(tasks, dues, InPlace, now, last)
    ensures var backlog, swept := |OverdueIds(tasks, now)|, |dues| * MAX_PER_SWEEP;
            |OverdueIds(last, now)| == if backlog <= swept then 0 else backlog - swept
    decreases |dues|
  {
    if dues != [] {
      assert AllAnswer(tasks, dues[0], InPlace);
      hide IsDueList, OverdueIds, SweepAll, AllAnswer;
      SweepProgress(tasks, dues[0], InPlace, now);
      SweepsDrain(SweepAll(tasks, dues[0], InPlace, now).tasks, dues[1..], now, last);
    }
  }

  // ---- sweeps whose lookups may fail ---------------------------------------------

  /** The org chart answers for the task's owner. */
  predicate Answers(tasks: map<TaskId, Task>, up: Escalator, id: TaskId) {
    id in tasks && SupervisorFor(up, tasks[id].assignee).Some?
  }

  /** The overdue tasks due no later than one of them: those whose lookups fail, and the others. */
  function StuckUpTo(tasks: map<TaskId, Task>, up: Escalator, now: Instant, id: TaskId): set<TaskId> {
    set x | x in OverdueIds(tasks, now) && !Answers(tasks, up, x) && DueAt(tasks, x) <= DueAt(tasks, id)
  }

  function MovingUpTo(tasks: map<TaskId, Task>, up: Escalator, now: Instant, id: TaskId): set<TaskId> {
    set x | x in OverdueIds(tasks, now) && Answers(tasks, up, x) && DueAt(tasks, x) <= DueAt(tasks, id)
  }

  /** A sweep takes off the overdue list just the tasks it found and got an answer for; the rest stay as they are. */
  lemma SweepLeaves(tasks: map<TaskId, Task>, due: seq<TaskId>, up: Escalator, now: Instant)
    requires NoRepeats(due) && DueSet(due) <= OverdueIds(tasks, now)
    ensures var next := SweepAll(tasks, due, up, now).tasks;
            && next.Keys == tasks.Keys
            && (forall x :: x in OverdueIds(next, now)
                  <==> x in OverdueIds(tasks, now) && !(x in DueSet(due) && Answers(tasks, up, x)))
            && (forall x :: x in OverdueIds(next, now) ==> next[x] == tasks[x])
            && (forall x :: DueAt(next, x) == DueAt(tasks, x))
  {
    hide SupervisorFor, SweepAll, DueSet, NoRepeats;
    SweepMeaning(tasks, due, up, now);
  }

  lemma SweepKeepsStuck(tasks: map<TaskId, Task>, due: seq<TaskId>, up: Escalator, now: Instant, id: TaskId)
    requires NoRepeats(due) && DueSet(due) <= OverdueIds(tasks, now)
    ensures var next := SweepAll(tasks, due, up, now).tasks;
            && StuckUpTo(next, up, now, id) == StuckUpTo(tasks, up, now, id)
            && MovingUpTo(next, up, now, id) == MovingUpTo(tasks, up, now, id) - DueSet(due)
  {
    hide SupervisorFor, SweepAll, DueSet, NoRepeats, OverdueIds, DueAt;
    SweepLeaves(tasks, due, up, now);
    OverdueAreStored(tasks, now);
    OverdueAreStored(SweepAll(tasks, due, up, now).tasks, now);
  }

  lemma OverdueAreStored(tasks: map<TaskId, Task>, now: Instant)
    ensures OverdueIds(tasks, now) <= tasks.Keys
  {
  }

  /** A sweep that passes a task by is full of tasks due no later. */
  lemma PassedBy(tasks: map<TaskId, Task>, due: seq<TaskId>, up: Escalator, now: Instant, id: TaskId)
    requires IsDueList(tasks, now, due) && id in OverdueIds(tasks, now) && id !in DueSet(due)
    requires |StuckUpTo(tasks, up, now, id)| < MAX_PER_SWEEP
    ensures |MovingUpTo(tasks, up, now, id) - DueSet(due)| < |MovingUpTo(tasks, up, now, id)|
  {
    hide OverdueIds, SoonestFirst, NoRepeats, DueAt, Answers;
    var found, stuck, moving := DueSet(due), StuckUpTo(tasks, up, now, id), MovingUpTo(tasks, up, now, id);
    DueSize(due);
    assert forall d :: d in found ==> d in due;
    assert found <= stuck + moving;
    if found * moving == {} {
      assert found <= stuck;
      SubsetSize(found, stuck);
      if |due| == |OverdueIds(tasks, now)| {
        SameSize(found, OverdueIds(tasks, now));
      }
    }
    var x :| x in found * moving;
    assert x !in moving - found && moving - found <= moving;
    SubsetSize(moving - found, moving - {x});
  }

  /** After n or more undisturbed sweeps, whatever their queries answered, the task is escalated. */
  ghost predicate EscalatedWithin(tasks: map<TaskId, Task>, up: Escalator, now: Instant, id: TaskId, n: nat) {
    forall dues, last: map<TaskId, Task> :: |dues| >= n && Sweeps(tasks, dues, up, now, last) ==>
      id in last && last[id].status == Escalated
  }

  lemma {:induction false} EscalatedStays(
    tasks: map<TaskId, Task>, dues: seq<seq<TaskId>>, up: Escalator, now: Instant, last: map<TaskId, Task>, id: TaskId)
    requires Sweeps(tasks, dues, up, now, last) && id in tasks && tasks[id].status == Escalated
    ensures id in last && last[id].status == Escalated
    decreases |dues|
  {
    if dues != [] {
      var next := SweepAll(tasks, dues[0], up, now).tasks;
      assert id in next && next[id] == tasks[id] by {
        SweepMeaning(tasks, dues[0], up, now);
      }
      hide SweepAll, IsDueList;
      EscalatedStays(next, dues[1..], up, now, last, id);
    }
  }

  /** With fewer than a hundred failing tasks in front of it, a task's turn comes. */
  lemma {:induction false} TurnComes(
    tasks: map<TaskId, Task>, dues: seq<seq<TaskId>>, up: Escalator, now: Instant, last: map<TaskId, Task>, id: TaskId)
    requires Sweeps(tasks, dues, up, now, last) && id in OverdueIds(tasks, now) && Answers(tasks, up, id)
    requires |StuckUpTo(tasks, up, now, id)| < MAX_PER_SWEEP && |dues| >= |MovingUpTo(tasks, up, now, id)|
    ensures id in last && last[id].status == Escalated
    decreases |dues|
  {
    assert id in MovingUpTo(tasks, up, now, id);
    assert |MovingUpTo(tasks, up, now, id)| > 0;
    var next := SweepAll(tasks, dues[0], up, now).tasks;
    if id in DueSet(dues[0]) {
      FoundIsEscalated(tasks, dues[0], up, now, id);
      hide SweepAll, IsDueList;
      EscalatedStays(next, dues[1..], up, now, last, id);
    } else {
      PassedBy(tasks, dues[0], up, now, id);
      SweepKeepsStuck(tasks, dues[0], up, now, id);
      SweepLeaves(tasks, dues[0], up, now);
      hide SweepAll, IsDueList, OverdueIds, StuckUpTo, MovingUpTo;
      TurnComes(next, dues[1..], up, now, last, id);
    }
  }

  lemma FoundIsEscalated(tasks: map<TaskId, Task>, due: seq<TaskId>, up: Escalator, now: Instant, id: TaskId)
    requires NoRepeats(due) && DueSet(due) <= OverdueIds(tasks, now) && id in DueSet(due) && Answers(tasks, up, id)
    ensures var next := SweepAll(tasks, due, up, now).tasks; id in next && next[id].status == Escalated
  {
    SweepMeaning(tasks, due, up, now);
  }

  // ---- a task whose turn never comes ---------------------------------------------

  lemma EarliestExists(ids: set<TaskId>, tasks: map<TaskId, Task>) returns (best: TaskId)
    requires ids != {}
    ensures best in ids && forall id :: id in ids ==> DueAt(tasks, best) <= DueAt(tasks, id)
    decreases ids
  {
    best :| best in ids;
    if ids != {best} {
      assert ids - {best} != {};
      var other := EarliestExists(ids - {best}, tasks);
      if DueAt(tasks, other) < DueAt(tasks, best) {
        best := other;
      }
    }
  }

  /** With a hundred others due no later, the query may answer without a task. */
  lemma AvoidingList(tasks: map<TaskId, Task>, now: Instant, id: TaskId, others: set<TaskId>) returns (due: seq<TaskId>)
    requires id in OverdueIds(tasks, now) && others <= OverdueIds(tasks, now) && id !in others
    requires |others| >= MAX_PER_SWEEP && forall x :: x in others ==> DueAt(tasks, x) <= DueAt(tasks, id)
    ensures IsDueList(tasks, now, due) && id !in DueSet(due)
  {
    var all := OverdueIds(tasks, now);
    hide OverdueIds, NoRepeats, SoonestFirst, NoneSooner, DueAt, DueSet;
    var left := all;
    due := [];
    EmptyList(tasks, left);
    while |due| < MAX_PER_SWEEP
      invariant left == all - DueSet(due) && DueSet(due) <= all && |due| + |left| == |all| && |due| <= MAX_PER_SWEEP
      invariant NoRepeats(due) && SoonestFirst(tasks, due) && NoneSooner(tasks, due, left) && id in left
      decreases MAX_PER_SWEEP - |due|
    {
      DueSize(due);
      if others <= DueSet(due) {
        SubsetSize(others, DueSet(due));
      }
      var x :| x in others && x !in DueSet(due);
      assert x in left - {id};
      var next := EarliestExists(left - {id}, tasks);
      assert forall y :: y in left ==> DueAt(tasks, next) <= DueAt(tasks, y);
      ListNext(tasks, due, left, next);
      due := due + [next];
      left := left - {next};
    }
    SubsetSize(others, all);
  }

  /** A hundred failing tasks in front of it can keep a task waiting for any number of sweeps. */
  lemma {:induction false} TurnNeverComes(tasks: map<TaskId, Task>, up: Escalator, now: Instant, id: TaskId, n: nat)
      returns (dues: seq<seq<TaskId>>, last: map<TaskId, Task>)
    requires id in OverdueIds(tasks, now) && Answers(tasks, up, id)
    requires |StuckUpTo(tasks, up, now, id)| >= MAX_PER_SWEEP
    ensures |dues| == n && Sweeps(tasks, dues, up, now, last) && id in last && last[id].status == Open
    decreases n
  {
    if n == 0 {
      dues, last := [], tasks;
    } else {
      var due := AvoidingList(tasks, now, id, StuckUpTo(tasks, up, now, id));
      SweepKeepsStuck(tasks, due, up, now, id);
      SweepLeaves(tasks, due, up, now);
      var next := SweepAll(tasks, due, up, now).tasks;
      hide SweepAll, IsDueList, OverdueIds, StuckUpTo;
      dues, last := TurnNeverComes(next, up, now, id, n - 1);
      assert ([due] + dues)[1..] == dues;
      dues := [due] + dues;
    }
  }

  /**
  Which tasks repeated sweeps reach: an overdue task the org chart answers for is escalated
  within some number of sweeps, whatever order the queries give equal deadlines, if and only
  if fewer than a hundred overdue tasks with failing lookups are due no later.
  */
  lemma EscalatedInTheEndExactly(tasks: map<TaskId, Task>, up: Escalator, now: Instant, id: TaskId)
    requires id in OverdueIds(tasks, now) && Answers(tasks, up, id)
    ensures (exists n: nat :: EscalatedWithin(tasks, up, now, id, n))
            <==> |StuckUpTo(tasks, up, now, id)| < MAX_PER_SWEEP
  {
    hide OverdueIds, Answers, StuckUpTo, MovingUpTo, Sweeps;
    if |StuckUpTo(tasks, up, now, id)| < MAX_PER_SWEEP {
      var n := |MovingUpTo(tasks, up, now, id)|;
      forall dues, last: map<TaskId, Task> | |dues| >= n && Sweeps(tasks, dues, up, now, last)
        ensures id in last && last[id].status == Escalated
      {
        TurnComes(tasks, dues, up, now, last, id);
      }
      assert EscalatedWithin(tasks, up, now, id, n);
    } else {
      forall n: nat ensures !EscalatedWithin(tasks, up, now, id, n) {
        var dues, last := TurnNeverComes(tasks, up, now, id, n);
      }
    }
  }

  /**
  What becomes of a task the sweep found: with a supervisor other than its owner it is
  handed over; without one it is escalated where it is; with no answer it is left alone.
  */
  lemma SweepHandsOver(tasks: map<TaskId, Task>, due: seq<TaskId>, up: Escalator, now: Instant, id: TaskId)
    requires IsDueList(tasks, now, due) && id in due
    ensures id in tasks && id in SweepAll(tasks, due, up, now).tasks
    ensures var t, u := tasks[id], SweepAll(tasks, due, up, now).tasks[id];
            var raised := t.(status := Escalated, escalatedAt := Some(now));
            match up
            case InPlace => u == raised
            case Chart(supervisors, failing) =>
              if t.assignee in failing then u == t
              else if t.assignee in supervisors && supervisors[t.assignee] !in {"", t.assignee} then
                u == raised.(escalatedTo := Some(supervisors[t.assignee]), assignee := supervisors[t.assignee])
              else u == raised
  {
    assert id in DueSet(due);
    SweepMeaning(tasks, due, up, now);
    hide SweepAll, NoneSooner, SoonestFirst;
  }

  /** The tasks of a list the org chart answers for, and those of them it gives to somebody else. */
  function Raised(tasks: map<TaskId, Task>, due: seq<TaskId>, up: Escalator): set<TaskId> {
    set id | id in due && Answers(tasks, up, id)
  }

  function Handed(tasks: map<TaskId, Task>, due: seq<TaskId>, up: Escalator): set<TaskId> {
    set id | id in due && HandsOver(tasks, up, id)
  }

  lemma RaisedSnoc(tasks: map<TaskId, Task>, init: seq<TaskId>, last: TaskId, up: Escalator)
    requires last !in init
    ensures |Raised(tasks, init + [last], up)|
            == |Raised(tasks, init, up)| + if Answers(tasks, up, last) then 1 else 0
  {
    hide Answers;
    var r := Raised(tasks, init, up);
    assert Raised(tasks, init + [last], up) == if Answers(tasks, up, last) then r + {last} else r;
  }

  /** The answer is a supervisor who is not the owner. */
  predicate HandsOver(tasks: map<TaskId, Task>, up: Escalator, id: TaskId) {
    Answers(tasks, up, id) && SupervisorFor(up, tasks[id].assignee).value !in {"", tasks[id].assignee}
  }

  lemma HandedSnoc(tasks: map<TaskId, Task>, init: seq<TaskId>, last: TaskId, up: Escalator)
    requires last !in init
    ensures |Handed(tasks, init + [last], up)|
            == |Handed(tasks, init, up)| + if HandsOver(tasks, up, last) then 1 else 0
  {
    hide HandsOver;
    var h := Handed(tasks, init, up);
    assert Handed(tasks, init + [last], up) == if HandsOver(tasks, up, last) then h + {last} else h;
  }

  lemma OneMoreReported(s: Sweep, tasks: map<TaskId, Task>, id: TaskId, up: Escalator, now: Instant)
    requires id in s.tasks && id in tasks && s.tasks[id] == tasks[id] && tasks[id].status == Open
    ensures SweepOne(s, id, up, now).escalated == s.escalated + if Answers(tasks, up, id) then 1 else 0
    ensures SweepOne(s, id, up, now).reassigned == s.reassigned + if HandsOver(tasks, up, id) then 1 else 0
  {
    hide SupervisorFor, SweptTask;
  }

  /** The sweep reports the number of tasks it escalated, and of those it handed over. */
  lemma {:induction false} SweepReports(tasks: map<TaskId, Task>, due: seq<TaskId>, up: Escalator, now: Instant)
    requires NoRepeats(due) && DueSet(due) <= OverdueIds(tasks, now)
    ensures SweepAll(tasks, due, up, now).escalated == |Raised(tasks, due, up)|
    ensures SweepAll(tasks, due, up, now).reassigned == |Handed(tasks, due, up)|
  {
    if due == [] {
      assert Raised(tasks, due, up) == {} && Handed(tasks, due, up) == {};
    } else {
      var init, last := due[..|due| - 1], due[|due| - 1];
      NewestIsNew(due);
      assert last !in init;
      hide NoRepeats, DueSet, OverdueIds, SupervisorFor, SweepAll, SweptTask, SweepOne, Raised, Handed;
      assert due == init + [last];
      LastFound(tasks, due, up, now);
      SweepReports(tasks, init, up, now);
      RaisedSnoc(tasks, init, last, up);
      HandedSnoc(tasks, init, last, up);
      OneMoreReported(SweepAll(tasks, init, up, now), tasks, last, up, now);
    }
  }

  /** An undisturbed sweep never escalates a task somebody has touched, or one not yet due. */
  lemma SweepSparesTouched(tasks: map<TaskId, Task>, due: seq<TaskId>, up: Escalator, now: Instant, id: TaskId)
    requires IsDueList(tasks, now, due)
    requires id in tasks && (tasks[id].firstTouchedAt.Some? || tasks[id].dueAt >= now || !StillOpen(tasks[id].status))
    ensures id in SweepAll(tasks, due, up, now).tasks && SweepAll(tasks, due, up, now).tasks[id] == tasks[id]
  {
    hide SweepAll, NoneSooner, SoonestFirst, SupervisorFor;
    SweepMeaning(tasks, due, up, now);
    assert id !in OverdueIds(tasks, now);
  }
}
