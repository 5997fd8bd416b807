/**
Sweepers and volunteers acting on shared tasks at the same time. Every operation is a
read that decides and a later write; a sweep is one read and then one conditional write
for each task it read. Between any two of these steps anybody else may act.
*/
module FollowUpProtocol {
  import opened Options
  import opened Calendar
  import opened Text
  import opened FollowUp

  /** An operation that has read and not yet finished writing. */
  datatype Op =
    | Touching(id: TaskId)
    | Closing(id: TaskId, untouched: bool, status: Status, outcome: string)
    | Reassigning(id: TaskId, assignee: string)
    | Sweeping(due: seq<TaskId>, owners: seq<string>, now: Instant, escalated: nat)
    | Ended(escalated: nat)

  datatype State = State(tasks: map<TaskId, Task>, ops: seq<Op>)

  datatype Action =
    | Create(id: TaskId, memberId: string, stage: Stage, assignee: string, dueAt: Instant)
    | ReadTouch(id: TaskId, actor: string, canManage: bool)
    | ReadClose(id: TaskId, actor: string, canManage: bool, status: Status, outcome: string)
    | ReadReassign(id: TaskId, assignee: string)
    | ReadSweep(due: seq<TaskId>, now: Instant)
    | Write(op: nat, now: Instant)
    | SweepWrite(op: nat, supervisor: Option<string>)
    | SweepEnd(op: nat)

  predicate Enabled(s: State, a: Action) {
    match a
    case Create(id, _, _, assignee, _) => id !in s.tasks && assignee != ""
    case ReadTouch(id, actor, canManage) =>
      && id in s.tasks && MayWork(s.tasks[id], actor, canManage) && StillOpen(s.tasks[id].status)
      && s.tasks[id].firstTouchedAt.None?
    case ReadClose(id, actor, canManage, status, outcome) =>
      !StillOpen(status) && TrimSpace(outcome) != ""
      && id in s.tasks && MayWork(s.tasks[id], actor, canManage) && StillOpen(s.tasks[id].status)
    case ReadReassign(id, assignee) => TrimSpace(assignee) != "" && id in s.tasks && StillOpen(s.tasks[id].status)
    case ReadSweep(due, now) => IsDueList(s.tasks, now, due)
    case Write(i, _) => i < |s.ops| && (s.ops[i].Touching? || s.ops[i].Closing? || s.ops[i].Reassigning?)
    case SweepWrite(i, _) => i < |s.ops| && s.ops[i].Sweeping? && s.ops[i].due != [] && s.ops[i].owners != []
    case SweepEnd(i) => i < |s.ops| && s.ops[i].Sweeping? && s.ops[i].due == []
  }

  function Owners(tasks: map<TaskId, Task>, due: seq<TaskId>): (owners: seq<string>)
    ensures |owners| == |due|
  {
    seq(|due|, i requires 0 <= i < |due| => if due[i] in tasks then tasks[due[i]].assignee else "")
  }

  function Put(s: State, id: TaskId, t: Task, i: nat, op: Op): State
    requires i < |s.ops|
  {
    State(s.tasks[id := t], s.ops[i := op])
  }

  /** The effect of a write that addresses a task by id alone. */
  function Written(t: Task, op: Op, now: Instant): Task {
    match op
    case Touching(_) => Touched(t, now)
    case Closing(_, untouched, status, outcome) => Closed(t, untouched, status, outcome, now)
    case Reassigning(_, assignee) => t.(assignee := assignee)
    case _ => t
  }

  function Apply(s: State, a: Action): State
    requires Enabled(s, a)
  {
    match a
    case Create(id, memberId, stage, assignee, dueAt) =>
      s.(tasks := s.tasks[id := NewTask(memberId, stage, assignee, dueAt)])
    case ReadTouch(id, _, _) => s.(ops := s.ops + [Touching(id)])
    case ReadClose(id, _, _, status, outcome) =>
      s.(ops := s.ops + [Closing(id, s.tasks[id].firstTouchedAt.None?, status, TrimSpace(outcome))])
    case ReadReassign(id, assignee) => s.(ops := s.ops + [Reassigning(id, assignee)])
    case ReadSweep(due, now) => s.(ops := s.ops + [Sweeping(due, Owners(s.tasks, due), now, 0)])
    case Write(i, now) =>
      var id := s.ops[i].id;
      if id in s.tasks then Put(s, id, Written(s.tasks[id], s.ops[i], now), i, Ended(0))
      else s.(ops := s.ops[i := Ended(0)])
    case SweepWrite(i, supervisor) =>
      var op := s.ops[i];
      var id := op.due[0];
      var rest := op.(due := op.due[1..], owners := op.owners[1..]);
      if supervisor.None? || id !in s.tasks || s.tasks[id].status != Open then s.(ops := s.ops[i := rest])
      else Put(s, id, EscalatedTo(s.tasks[id], op.owners[0], supervisor.value, op.now), i,
        rest.(escalated := op.escalated + 1))
    case SweepEnd(i) => s.(ops := s.ops[i := Ended(s.ops[i].escalated)])
  }

  const EMPTY := State(map[], [])

  function After(s: State, run: seq<Action>): Option<State> {
    if run == [] then Some(s)
    else
      match After(s, run[..|run| - 1])
      case None => None
      case Some(t) => if Enabled(t, run[|run| - 1]) then Some(Apply(t, run[|run| - 1])) else None
  }

  lemma AfterSnoc(s: State, run: seq<Action>, a: Action)
    ensures After(s, run + [a]) ==
            match After(s, run)
            case None => None
            case Some(t) => if Enabled(t, a) then Some(Apply(t, a)) else None
  {
    assert (run + [a])[..|run|] == run;
  }

  // ---- what every step keeps -----------------------------------------------------

  predicate OpInv(tasks: map<TaskId, Task>, op: Op) {
    match op
    case Closing(id, untouched, status, outcome) =>
      !StillOpen(status) && outcome != "" && id in tasks && (untouched || tasks[id].firstTouchedAt.Some?)
    case Reassigning(id, assignee) => assignee != ""
    case _ => true
  }

  function Reported(ops: seq<Op>): nat {
    if ops == [] then 0
    else
      var last := ops[|ops| - 1];
      Reported(ops[..|ops| - 1]) + (if last.Sweeping? || last.Ended? then last.escalated else 0)
  }

  function EscalatedIds(tasks: map<TaskId, Task>): set<TaskId> {
    set id | id in tasks && tasks[id].escalatedAt.Some?
  }

  predicate TasksInv(tasks: map<TaskId, Task>) {
    forall id :: id in tasks ==> TaskInv(tasks[id])
  }

  predicate OpsInv(tasks: map<TaskId, Task>, ops: seq<Op>) {
    forall i :: 0 <= i < |ops| ==> OpInv(tasks, ops[i])
  }

  predicate Inv(s: State) {
    TasksInv(s.tasks) && OpsInv(s.tasks, s.ops) && Reported(s.ops) == |EscalatedIds(s.tasks)|
  }

  /** Open, then escalated, then closed: a task only ever moves forward. */
  function Rank(s: Status): nat {
    match s
    case Open => 0
    case Escalated => 1
    case _ => 2
  }

  /** How one step may change a task. */
  predicate Forward(before: Task, after: Task) {
    && Rank(before.status) <= Rank(after.status)
    && (before.escalatedAt.Some? ==> after.escalatedAt == before.escalatedAt)
    && (before.firstTouchedAt.Some? ==> after.firstTouchedAt.Some?)
  }

  function ReportOf(op: Op): nat {
    if op.Sweeping? || op.Ended? then op.escalated else 0
  }

  lemma {:induction false} ReportedUpdate(ops: seq<Op>, i: nat, op: Op)
    requires i < |ops|
    ensures Reported(ops[i := op]) == Reported(ops) - ReportOf(ops[i]) + ReportOf(op)
  {
    var n := |ops| - 1;
    if i < n {
      assert ops[i := op][..n] == ops[..n][i := op];
      ReportedUpdate(ops[..n], i, op);
    } else {
      assert ops[i := op][..n] == ops[..n];
    }
  }

  lemma ReportedSnoc(ops: seq<Op>, op: Op)
    ensures Reported(ops + [op]) == Reported(ops) + ReportOf(op)
  {
    assert (ops + [op])[..|ops|] == ops;
  }

  /** A task may change under an operation in flight as long as a touch is never undone. */
  lemma OpsSurvive(tasks: map<TaskId, Task>, ops: seq<Op>, id: TaskId, t: Task)
    requires OpsInv(tasks, ops)
    requires id in tasks ==> Forward(tasks[id], t)
    ensures OpsInv(tasks[id := t], ops)
  {
    forall i | 0 <= i < |ops| ensures OpInv(tasks[id := t], ops[i]) {
      assert OpInv(tasks, ops[i]);
    }
  }

  lemma EscalatedAfterPut(tasks: map<TaskId, Task>, id: TaskId, t: Task)
    ensures EscalatedIds(tasks[id := t]) ==
            if t.escalatedAt.Some? then EscalatedIds(tasks) + {id} else EscalatedIds(tasks) - {id}
  {
  }

  /** Writing one task keeps the invariant when the report changes as the escalations do. */
  lemma PutKeepsInv(s: State, id: TaskId, t: Task, i: nat, op: Op)
    requires Inv(s) && i < |s.ops| && id in s.tasks
    requires TaskInv(t) && Forward(s.tasks[id], t) && OpInv(s.tasks, op) && !op.Closing?
    requires ReportOf(op) - ReportOf(s.ops[i])
             == (if t.escalatedAt.Some? && s.tasks[id].escalatedAt.None? then 1 else 0)
    requires t.escalatedAt.None? ==> s.tasks[id].escalatedAt.None?
    ensures Inv(Put(s, id, t, i, op))
  {
    hide TaskInv, Reported, EscalatedIds;
    OpsSurvive(s.tasks, s.ops, id, t);
    ReportedUpdate(s.ops, i, op);
    EscalatedAfterPut(s.tasks, id, t);
    EscalatedMembership(s.tasks, id);
  }

  lemma EscalatedMembership(tasks: map<TaskId, Task>, id: TaskId)
    requires id in tasks
    ensures id in EscalatedIds(tasks) <==> tasks[id].escalatedAt.Some?
    ensures |EscalatedIds(tasks) + {id}| == |EscalatedIds(tasks)| + (if id in EscalatedIds(tasks) then 0 else 1)
    ensures id in EscalatedIds(tasks) ==> EscalatedIds(tasks) + {id} == EscalatedIds(tasks)
    ensures id !in EscalatedIds(tasks) ==> EscalatedIds(tasks) - {id} == EscalatedIds(tasks)
  {
    var s := EscalatedIds(tasks);
    if id in s {
      assert s + {id} == s;
    } else {
      assert |s + {id}| == |s| + 1;
      assert s - {id} == s;
    }
  }

  /** The three unconditional writes: each is safe whatever happened since its read. */
  lemma WriteKeepsInv(s: State, i: nat, now: Instant)
    requires Inv(s) && Enabled(s, Write(i, now))
    ensures Inv(Apply(s, Write(i, now)))
    ensures s.ops[i].id in s.tasks ==> Forward(s.tasks[s.ops[i].id], Written(s.tasks[s.ops[i].id], s.ops[i], now))
  {
    var op := s.ops[i];
    assert OpInv(s.tasks, op);
    if op.id in s.tasks {
      var t := s.tasks[op.id];
      assert TaskInv(t);
      WrittenKeepsTask(s.tasks, op, now);
      hide TaskInv, OpInv;
      assert OpInv(s.tasks, Ended(0)) by { EndedIsFine(s.tasks, 0); }
      PutKeepsInv(s, op.id, Written(t, op, now), i, Ended(0));
    } else {
      ReportedUpdate(s.ops, i, Ended(0));
    }
  }

  lemma EndedIsFine(tasks: map<TaskId, Task>, n: nat)
    ensures OpInv(tasks, Ended(n))
  {
  }

  lemma WrittenKeepsTask(tasks: map<TaskId, Task>, op: Op, now: Instant)
    requires op.Touching? || op.Closing? || op.Reassigning?
    requires op.id in tasks && TaskInv(tasks[op.id]) && OpInv(tasks, op)
    ensures var t, w := tasks[op.id], Written(tasks[op.id], op, now);
            TaskInv(w) && Forward(t, w) && w.escalatedAt == t.escalatedAt
  {
  }

  lemma EscalatingKeepsTask(t: Task, read: string, supervisor: string, now: Instant)
    requires TaskInv(t) && t.status == Open
    ensures var u := EscalatedTo(t, read, supervisor, now);
            TaskInv(u) && Forward(t, u) && u.escalatedAt.Some? && t.escalatedAt.None?
  {
  }

  lemma SweepingIsFine(tasks: map<TaskId, Task>, op: Op)
    requires op.Sweeping?
    ensures OpInv(tasks, op) && ReportOf(op) == op.escalated
  {
  }

  lemma OpenTask(s: State, id: TaskId)
    requires Inv(s) && id in s.tasks
    ensures TaskInv(s.tasks[id])
  {
  }

  lemma PassingKeepsInv(s: State, i: nat, rest: Op)
    requires Inv(s) && i < |s.ops| && s.ops[i].Sweeping? && rest.Sweeping? && rest.escalated == s.ops[i].escalated
    ensures Inv(s.(ops := s.ops[i := rest]))
  {
    hide TaskInv;
    ReportedUpdate(s.ops, i, rest);
  }

  /** The escalating write is conditional on the status alone, so it counts every task once. */
  lemma SweepWriteKeepsInv(s: State, i: nat, supervisor: Option<string>)
    requires Inv(s) && Enabled(s, SweepWrite(i, supervisor))
    ensures Inv(Apply(s, SweepWrite(i, supervisor)))
  {
    hide Inv, TaskInv, EscalatedTo, OpInv, ReportOf, Forward, Put;
    var op := s.ops[i];
    var id := op.due[0];
    var rest := op.(due := op.due[1..], owners := op.owners[1..]);
    if supervisor.None? || id !in s.tasks || s.tasks[id].status != Open {
      PassingKeepsInv(s, i, rest);
    } else {
      var t := s.tasks[id];
      var more := rest.(escalated := op.escalated + 1);
      OpenTask(s, id);
      EscalatingKeepsTask(t, op.owners[0], supervisor.value, op.now);
      SweepingIsFine(s.tasks, more);
      SweepingIsFine(s.tasks, op);
      PutKeepsInv(s, id, EscalatedTo(t, op.owners[0], supervisor.value, op.now), i, more);
    }
  }

  lemma CreateKeepsInv(s: State, id: TaskId, t: Task)
    requires Inv(s) && id !in s.tasks && TaskInv(t) && t.escalatedAt.None?
    ensures Inv(s.(tasks := s.tasks[id := t]))
  {
    hide TaskInv, Reported;
    OpsSurvive(s.tasks, s.ops, id, t);
    EscalatedAfterPut(s.tasks, id, t);
    assert EscalatedIds(s.tasks) - {id} == EscalatedIds(s.tasks);
  }

  lemma StepKeepsInv(s: State, a: Action)
    requires Inv(s) && Enabled(s, a)
    ensures Inv(Apply(s, a))
  {
    match a
    case Create(id, memberId, stage, assignee, dueAt) =>
      CreateKeepsInv(s, id, NewTask(memberId, stage, assignee, dueAt));
    case Write(i, now) => WriteKeepsInv(s, i, now);
    case SweepWrite(i, supervisor) => SweepWriteKeepsInv(s, i, supervisor);
    case SweepEnd(i) => ReportedUpdate(s.ops, i, Ended(s.ops[i].escalated));
    case _ => ReadKeepsInv(s, a);
  }

  lemma ReadKeepsInv(s: State, a: Action)
    requires Inv(s) && Enabled(s, a)
    requires a.ReadTouch? || a.ReadClose? || a.ReadReassign? || a.ReadSweep?
    ensures Inv(Apply(s, a))
  {
    hide TrimSpace, IsDueList, Reported, TaskInv;
    var op := Apply(s, a).ops[|s.ops|];
    ReportedSnoc(s.ops, op);
    if a.ReadReassign? {
      BlankIsBlank(a.assignee);
    }
  }

  lemma BlankIsBlank(s: string)
    requires TrimSpace(s) != ""
    ensures s != ""
  {
  }

  lemma StepMovesForward(s: State, a: Action, id: TaskId)
    requires Inv(s) && Enabled(s, a) && id in s.tasks
    ensures id in Apply(s, a).tasks && Forward(s.tasks[id], Apply(s, a).tasks[id])
  {
    hide TrimSpace, IsDueList, Reported;
    if a.Write? {
      assert OpInv(s.tasks, s.ops[a.op]);
    }
    assert TaskInv(s.tasks[id]);
  }

  // ---- what a whole run means ----------------------------------------------------

  lemma {:induction false} RunKeepsInv(run: seq<Action>)
    ensures After(EMPTY, run).Some? ==> Inv(After(EMPTY, run).value)
  {
    hide Enabled, Apply;
    if run == [] {
      EmptyInv();
    } else {
      RunKeepsInv(run[..|run| - 1]);
      var m := After(EMPTY, run[..|run| - 1]);
      if m.Some? && Enabled(m.value, run[|run| - 1]) {
        StepKeepsInv(m.value, run[|run| - 1]);
      }
    }
  }

  lemma EmptyInv()
    ensures Inv(EMPTY)
  {
    assert EscalatedIds(map[]) == {};
  }

  /**
  Whatever the interleaving: every task has an owner and every closed one an outcome, a
  closing time and a first touch; and all sweeps together report exactly as many
  escalations as there are tasks that were ever escalated.
  */
  lemma EscalationIsCountedOnce(run: seq<Action>)
    requires After(EMPTY, run).Some?
    ensures var t := After(EMPTY, run).value;
            && (forall id :: id in t.tasks ==> t.tasks[id].assignee != "")
            && (forall id :: id in t.tasks && t.tasks[id].status !in {Open, Escalated} ==>
                  t.tasks[id].outcome != "" && t.tasks[id].closedAt.Some? && t.tasks[id].firstTouchedAt.Some?)
            && (forall id :: id in t.tasks && t.tasks[id].status == Escalated ==> t.tasks[id].escalatedAt.Some?)
            && Reported(t.ops) == |EscalatedIds(t.tasks)|
  {
    RunKeepsInv(run);
  }

  /**
  Along any run a task only moves forward: it leaves the open state at most once, never
  returns from closed, and keeps the moment of its one escalation.
  */
  lemma {:induction false} TasksMoveForward(run: seq<Action>, n: nat, id: TaskId)
    requires n <= |run| && After(EMPTY, run).Some?
    ensures After(EMPTY, run[..n]).Some?
    ensures var s := After(EMPTY, run[..n]).value;
            id in s.tasks ==>
              id in After(EMPTY, run).value.tasks && Forward(s.tasks[id], After(EMPTY, run).value.tasks[id])
    decreases |run|
  {
    hide Apply, Enabled;
    if n == |run| {
      assert run[..n] == run;
    } else {
      var last := |run| - 1;
      assert run[..last][..n] == run[..n];
      TasksMoveForward(run[..last], n, id);
      RunKeepsInv(run[..last]);
      var m := After(EMPTY, run[..last]).value;
      var s := After(EMPTY, run[..n]).value;
      if id in s.tasks {
        StepMovesForward(m, run[last], id);
      }
    }
  }

  // ---- what an escalation goes back to -------------------------------------------

  /** Step m of the run is the read of sweep i, and it found the task open, untouched and past its deadline. */
  predicate DueRead(run: seq<Action>, m: nat, i: nat, id: TaskId, now: Instant) {
    && m < |run| && run[m].ReadSweep? && run[m].now == now && id in run[m].due
    && var s := After(EMPTY, run[..m]);
       s.Some? && |s.value.ops| == i && id in s.value.tasks && Overdue(s.value.tasks[id], now)
  }

  /** Step k of the run is the write of a touch of the task. */
  predicate TouchWrite(run: seq<Action>, k: nat, id: TaskId) {
    && k < |run| && run[k].Write?
    && var s := After(EMPTY, run[..k]);
       s.Some? && run[k].op < |s.value.ops| && s.value.ops[run[k].op] == Touching(id)
  }

  lemma DueReadLater(run: seq<Action>, n: nat, m: nat, i: nat, id: TaskId, now: Instant)
    requires n <= |run| && DueRead(run[..n], m, i, id, now)
    ensures m < n && DueRead(run, m, i, id, now)
  {
    assert run[..n][..m] == run[..m];
  }

  lemma ListedIsOverdue(tasks: map<TaskId, Task>, now: Instant, due: seq<TaskId>, id: TaskId)
    requires IsDueList(tasks, now, due) && id in due
    ensures id in tasks && Overdue(tasks[id], now)
  {
    assert id in DueSet(due);
  }

  /** A step leaves a sweep's list as it is, takes the first task off it, or starts the sweep. */
  lemma StepOnSweep(s: State, a: Action, i: nat)
    requires Enabled(s, a) && i < |Apply(s, a).ops| && Apply(s, a).ops[i].Sweeping?
    ensures var op := Apply(s, a).ops[i];
            if i < |s.ops| then
              s.ops[i].Sweeping? && s.ops[i].now == op.now && forall id :: id in op.due ==> id in s.ops[i].due
            else i == |s.ops| && a == ReadSweep(op.due, op.now)
  {
    hide TrimSpace, MayWork, IsDueList, Owners, EscalatedTo, Written;
  }

  /** Every task on a sweep's list was due when that sweep read. */
  lemma {:induction false} SweepsHoldDue(run: seq<Action>, i: nat, id: TaskId) returns (m: nat)
    requires After(EMPTY, run).Some?
    requires var ops := After(EMPTY, run).value.ops; i < |ops| && ops[i].Sweeping? && id in ops[i].due
    ensures DueRead(run, m, i, id, After(EMPTY, run).value.ops[i].now)
  {
    hide Apply, Enabled, Overdue, IsDueList, DueRead;
    var n := |run| - 1;
    var init, a := run[..n], run[n];
    var s := After(EMPTY, init).value;
    var op := After(EMPTY, run).value.ops[i];
    StepOnSweep(s, a, i);
    if i < |s.ops| {
      m := SweepsHoldDue(init, i, id);
      DueReadLater(run, n, m, i, id, op.now);
    } else {
      ReadFindsDue(run, id);
      m := n;
    }
  }

  lemma ReadFindsDue(run: seq<Action>, id: TaskId)
    requires run != [] && After(EMPTY, run).Some?
    requires run[|run| - 1].ReadSweep? && id in run[|run| - 1].due
    ensures After(EMPTY, run[..|run| - 1]).Some?
    ensures DueRead(run, |run| - 1, |After(EMPTY, run[..|run| - 1]).value.ops|, id, run[|run| - 1].now)
  {
    var n := |run| - 1;
    hide After, Overdue, IsDueList;
    AfterSnoc(EMPTY, run[..n], run[n]);
    assert run == run[..n] + [run[n]];
    ListedIsOverdue(After(EMPTY, run[..n]).value.tasks, run[n].now, run[n].due, id);
  }

  lemma OnlySweepsEscalate(s: State, a: Action, id: TaskId)
    requires Inv(s) && Enabled(s, a) && id in s.tasks
    requires s.tasks[id].escalatedAt.None? && id in Apply(s, a).tasks && Apply(s, a).tasks[id].escalatedAt.Some?
    ensures a.SweepWrite? && id == s.ops[a.op].due[0]
    ensures Apply(s, a).tasks[id].escalatedAt == Some(s.ops[a.op].now)
  {
    hide TrimSpace, MayWork, IsDueList, Owners, Inv;
  }

  /**
  Whatever happens in between, an escalation goes back to a read of its own sweep at which
  the task was open, untouched and past its deadline: a touch before that read spares it.
  */
  lemma EscalationWasDue(run: seq<Action>, n: nat, id: TaskId) returns (m: nat)
    requires n < |run| && After(EMPTY, run[..n]).Some? && After(EMPTY, run[..n + 1]).Some?
    requires var s, t := After(EMPTY, run[..n]).value, After(EMPTY, run[..n + 1]).value;
             id in s.tasks && id in t.tasks && s.tasks[id].escalatedAt.None? && t.tasks[id].escalatedAt.Some?
    ensures var t := After(EMPTY, run[..n + 1]).value;
            run[n].SweepWrite? && m < n && DueRead(run, m, run[n].op, id, t.tasks[id].escalatedAt.value)
  {
    hide After, Apply, Enabled, DueRead, Inv;
    var s := After(EMPTY, run[..n]).value;
    assert run[..n + 1] == run[..n] + [run[n]];
    AfterSnoc(EMPTY, run[..n], run[n]);
    RunKeepsInv(run[..n]);
    OnlySweepsEscalate(s, run[n], id);
    SweepIsPresent(s, run[n]);
    m := SweepsHoldDue(run[..n], run[n].op, id);
    DueReadLater(run, n, m, run[n].op, id, s.ops[run[n].op].now);
  }

  lemma SweepIsPresent(s: State, a: Action)
    requires Enabled(s, a) && a.SweepWrite?
    ensures a.op < |s.ops| && s.ops[a.op].Sweeping? && s.ops[a.op].due != [] && s.ops[a.op].due[0] in s.ops[a.op].due
  {
  }

  // ---- when exactly a touched task escalates -------------------------------------

  /** Only the writes of a touch and of a close touch a task, and a close leaves it closed. */
  lemma StepTouches(s: State, a: Action, id: TaskId)
    requires Inv(s) && Enabled(s, a) && id in s.tasks && s.tasks[id].firstTouchedAt.None?
    requires id in Apply(s, a).tasks && Apply(s, a).tasks[id].firstTouchedAt.Some?
             && Apply(s, a).tasks[id].status == Open
    ensures a.Write? && a.op < |s.ops| && s.ops[a.op] == Touching(id)
  {
    hide TrimSpace, MayWork, IsDueList, Owners, TaskInv, Reported, EscalatedIds;
    if a.Write? {
      assert OpInv(s.tasks, s.ops[a.op]);
    }
  }

  lemma TouchTakes(s: State, a: Action, id: TaskId)
    requires Enabled(s, a) && a.Write? && s.ops[a.op] == Touching(id) && id in s.tasks
    ensures id in Apply(s, a).tasks && Apply(s, a).tasks[id].firstTouchedAt.Some?
  {
  }

  /** One more step of a run, as far as one task goes. */
  lemma TaskStep(run: seq<Action>, n: nat, id: TaskId)
    requires n < |run| && After(EMPTY, run[..n + 1]).Some?
    ensures After(EMPTY, run[..n]).Some?
    ensures var s, t := After(EMPTY, run[..n]).value, After(EMPTY, run[..n + 1]).value;
            Inv(s) && Enabled(s, run[n]) && t == Apply(s, run[n])
            && (id in s.tasks ==> id in t.tasks && Forward(s.tasks[id], t.tasks[id]))
  {
    hide After, Apply, Enabled, Inv, Forward;
    assert run[..n + 1] == run[..n] + [run[n]];
    AfterSnoc(EMPTY, run[..n], run[n]);
    RunKeepsInv(run[..n]);
    if id in After(EMPTY, run[..n]).value.tasks {
      StepMovesForward(After(EMPTY, run[..n]).value, run[n], id);
    }
  }

  lemma OpenBefore(before: Task, after: Task)
    requires Forward(before, after) && after.status == Open
    ensures before.status == Open
  {
  }

  /** An open task that was untouched and now is not has been touched by a touch in between. */
  lemma {:induction false} TouchIsWritten(run: seq<Action>, m: nat, n: nat, id: TaskId) returns (k: nat)
    requires m <= n <= |run| && After(EMPTY, run[..m]).Some? && After(EMPTY, run[..n]).Some?
    requires var s, t := After(EMPTY, run[..m]).value, After(EMPTY, run[..n]).value;
             && id in s.tasks && s.tasks[id].firstTouchedAt.None?
             && id in t.tasks && t.tasks[id].firstTouchedAt.Some? && t.tasks[id].status == Open
    ensures m <= k < n && TouchWrite(run, k, id)
    decreases n
  {
    hide After, Apply, Enabled, Inv, Forward;
    TaskStep(run, n - 1, id);
    TaskKept(run, m, n - 1, id);
    var s, t := After(EMPTY, run[..n - 1]).value, After(EMPTY, run[..n]).value;
    if s.tasks[id].firstTouchedAt.None? {
      StepTouches(s, run[n - 1], id);
      k := n - 1;
    } else {
      OpenBefore(s.tasks[id], t.tasks[id]);
      k := TouchIsWritten(run, m, n - 1, id);
    }
  }

  /** A task is kept, and so is its touch. */
  lemma TaskKept(run: seq<Action>, m: nat, n: nat, id: TaskId)
    requires m <= n <= |run| && After(EMPTY, run[..m]).Some? && After(EMPTY, run[..n]).Some?
    requires id in After(EMPTY, run[..m]).value.tasks
    ensures var s, t := After(EMPTY, run[..m]).value, After(EMPTY, run[..n]).value;
            id in t.tasks && (s.tasks[id].firstTouchedAt.Some? ==> t.tasks[id].firstTouchedAt.Some?)
  {
    hide After;
    assert run[..n][..m] == run[..m];
    TasksMoveForward(run[..n], m, id);
  }

  /** A touch written to a task is still there later. */
  lemma TouchLasts(run: seq<Action>, m: nat, k: nat, n: nat, id: TaskId)
    requires m <= k < n <= |run| && TouchWrite(run, k, id)
    requires After(EMPTY, run[..m]).Some? && After(EMPTY, run[..n]).Some? && id in After(EMPTY, run[..m]).value.tasks
    ensures id in After(EMPTY, run[..n]).value.tasks && After(EMPTY, run[..n]).value.tasks[id].firstTouchedAt.Some?
  {
    hide After, Apply, Enabled, Inv, Forward;
    TaskKept(run, m, k, id);
    PrefixRuns(run, k + 1, n);
    TaskStep(run, k, id);
    TouchTakes(After(EMPTY, run[..k]).value, run[k], id);
    TaskKept(run, k + 1, n, id);
  }

  lemma PrefixRuns(run: seq<Action>, k: nat, n: nat)
    requires k <= n <= |run| && After(EMPTY, run[..n]).Some?
    ensures After(EMPTY, run[..k]).Some?
  {
    hide After;
    assert run[..n][..k] == run[..k];
    TasksMoveForward(run[..n], k, 0);
  }

  /**
  A sweep's write to a task still open escalates it whether or not it bears a touch, and it
  bears one if and only if some touch was written between that sweep's read and this write.
  */
  lemma TouchedEscalationExactly(run: seq<Action>, n: nat, id: TaskId) returns (m: nat)
    requires n < |run| && After(EMPTY, run[..n]).Some? && After(EMPTY, run[..n + 1]).Some?
    requires run[n].SweepWrite? && run[n].supervisor.Some?
    requires var s := After(EMPTY, run[..n]).value;
             Enabled(s, run[n]) && id == s.ops[run[n].op].due[0] && id in s.tasks && s.tasks[id].status == Open
    ensures m < n && DueRead(run, m, run[n].op, id, After(EMPTY, run[..n]).value.ops[run[n].op].now)
    ensures var s, t := After(EMPTY, run[..n]).value, After(EMPTY, run[..n + 1]).value;
            && id in t.tasks && t.tasks[id].status == Escalated
            && t.tasks[id].firstTouchedAt == s.tasks[id].firstTouchedAt
            && (s.tasks[id].firstTouchedAt.Some? <==> exists k: nat :: m < k < n && TouchWrite(run, k, id))
  {
    hide After, Apply, Inv, Forward, DueRead, TouchWrite;
    var s := After(EMPTY, run[..n]).value;
    TaskStep(run, n, id);
    SweepWriteEscalates(s, run[n], id);
    SweepIsPresent(s, run[n]);
    hide Enabled;
    m := SweepsHoldDue(run[..n], run[n].op, id);
    DueReadLater(run, n, m, run[n].op, id, s.ops[run[n].op].now);
    ReadWasUntouched(run, m, run[n].op, id, s.ops[run[n].op].now);
    if s.tasks[id].firstTouchedAt.Some? {
      var k := TouchIsWritten(run, m, n, id);
      ReadIsNoWrite(run, m, k, run[n].op, id, s.ops[run[n].op].now);
    }
    if k: nat :| m < k < n && TouchWrite(run, k, id) {
      TouchLasts(run, m, k, n, id);
    }
  }

  lemma SweepWriteEscalates(s: State, a: Action, id: TaskId)
    requires Enabled(s, a) && a.SweepWrite? && a.supervisor.Some?
    requires id == s.ops[a.op].due[0] && id in s.tasks && s.tasks[id].status == Open
    ensures var t := Apply(s, a);
            id in t.tasks && t.tasks[id].status == Escalated && t.tasks[id].firstTouchedAt == s.tasks[id].firstTouchedAt
  {
  }

  lemma ReadWasUntouched(run: seq<Action>, m: nat, i: nat, id: TaskId, now: Instant)
    requires DueRead(run, m, i, id, now)
    ensures m < |run| && After(EMPTY, run[..m]).Some?
    ensures var s := After(EMPTY, run[..m]).value; id in s.tasks && s.tasks[id].firstTouchedAt.None?
  {
    hide After;
  }

  lemma ReadIsNoWrite(run: seq<Action>, m: nat, k: nat, i: nat, id: TaskId, now: Instant)
    requires DueRead(run, m, i, id, now) && TouchWrite(run, k, id)
    ensures m != k
  {
    hide After;
  }

  // ---- late writes ---------------------------------------------------------------

  /** Step m of the run is the read that opened operation j. */
  predicate Opened(run: seq<Action>, m: nat, j: nat, op: Op) {
    && m < |run|
    && var s := After(EMPTY, run[..m]);
       && s.Some? && Enabled(s.value, run[m]) && |s.value.ops| == j
       && Apply(s.value, run[m]).ops == s.value.ops + [op]
  }

  lemma OpenedLater(run: seq<Action>, n: nat, m: nat, j: nat, op: Op)
    requires n <= |run| && Opened(run[..n], m, j, op)
    ensures m < n && Opened(run, m, j, op)
  {
    assert run[..n][..m] == run[..m];
  }

  /** A step leaves a pending touch or close as it is, or opens it. */
  lemma StepOnWriter(s: State, a: Action, j: nat)
    requires Enabled(s, a) && j < |Apply(s, a).ops| && (Apply(s, a).ops[j].Touching? || Apply(s, a).ops[j].Closing?)
    ensures if j < |s.ops| then s.ops[j] == Apply(s, a).ops[j]
            else j == |s.ops| && Apply(s, a).ops == s.ops + [Apply(s, a).ops[j]]
  {
    hide TrimSpace, MayWork, IsDueList, Owners, EscalatedTo, Written;
  }

  lemma {:induction false} WriterWasOpened(run: seq<Action>, j: nat) returns (m: nat)
    requires After(EMPTY, run).Some?
    requires var ops := After(EMPTY, run).value.ops; j < |ops| && (ops[j].Touching? || ops[j].Closing?)
    ensures Opened(run, m, j, After(EMPTY, run).value.ops[j])
  {
    hide Apply, Enabled;
    var n := |run| - 1;
    var init, a := run[..n], run[n];
    var s := After(EMPTY, init).value;
    var op := After(EMPTY, run).value.ops[j];
    StepOnWriter(s, a, j);
    if j < |s.ops| {
      m := WriterWasOpened(init, j);
      OpenedLater(run, n, m, j, op);
    } else {
      m := n;
    }
  }

  /** What a touch or a close had read when it was opened, by a step that writes nothing. */
  lemma OpenedHasRead(run: seq<Action>, m: nat, j: nat, op: Op)
    requires Opened(run, m, j, op) && (op.Touching? || op.Closing?)
    ensures !run[m].Write? && After(EMPTY, run[..m]).Some?
    ensures var s := After(EMPTY, run[..m]).value;
            && op.id in s.tasks && StillOpen(s.tasks[op.id].status)
            && (op.Touching? || op.untouched ==> s.tasks[op.id].firstTouchedAt.None?)
  {
    hide After, TrimSpace, MayWork, IsDueList, Owners, EscalatedTo, Written;
    var s := After(EMPTY, run[..m]).value;
    assert Apply(s, run[m]).ops[j] == op;
  }

  /** Step k of the run writes a close of the task, and here a touch or a close. */
  predicate CloseWrite(run: seq<Action>, k: nat, id: TaskId) {
    && k < |run| && run[k].Write?
    && var s := After(EMPTY, run[..k]);
       s.Some? && run[k].op < |s.value.ops| && s.value.ops[run[k].op].Closing? && s.value.ops[run[k].op].id == id
  }

  predicate AnyTouchWrite(run: seq<Action>, k: nat, id: TaskId) {
    TouchWrite(run, k, id) || CloseWrite(run, k, id)
  }

  /** The step of a run as the writes see it. */
  lemma StepBreaks(s: State, a: Action, id: TaskId)
    requires Inv(s) && Enabled(s, a) && id in s.tasks && id in Apply(s, a).tasks
    ensures var before, after := s.tasks[id], Apply(s, a).tasks[id];
            && (before.firstTouchedAt != after.firstTouchedAt ==>
                  a.Write? && (s.ops[a.op] == Touching(id) || (s.ops[a.op].Closing? && s.ops[a.op].id == id)))
            && (StillOpen(before.status) && !StillOpen(after.status) ==>
                  a.Write? && s.ops[a.op].Closing? && s.ops[a.op].id == id)
  {
    hide TrimSpace, MayWork, IsDueList, Owners, TaskInv, Reported, EscalatedIds;
  }

  /** A task untouched at one point and touched at a later one has been touched in between. */
  lemma {:induction false} AnyTouchIsWritten(run: seq<Action>, m: nat, n: nat, id: TaskId) returns (k: nat)
    requires m <= n <= |run| && After(EMPTY, run[..m]).Some? && After(EMPTY, run[..n]).Some?
    requires var s, t := After(EMPTY, run[..m]).value, After(EMPTY, run[..n]).value;
             && id in s.tasks && s.tasks[id].firstTouchedAt.None?
             && id in t.tasks && t.tasks[id].firstTouchedAt.Some?
    ensures m <= k < n && AnyTouchWrite(run, k, id)
    decreases n
  {
    hide After, Apply, Enabled, Inv, Forward;
    TaskStep(run, n - 1, id);
    TaskKept(run, m, n - 1, id);
    var s := After(EMPTY, run[..n - 1]).value;
    if s.tasks[id].firstTouchedAt.None? {
      StepBreaks(s, run[n - 1], id);
      WriteHasOp(s, run[n - 1]);
      k := n - 1;
    } else {
      k := AnyTouchIsWritten(run, m, n - 1, id);
    }
  }

  lemma WriteHasOp(s: State, a: Action)
    requires Enabled(s, a)
    ensures a.Write? ==> a.op < |s.ops|
  {
  }

  /** A task open at one point and closed at a later one has been closed in between. */
  lemma {:induction false} CloseIsWritten(run: seq<Action>, m: nat, n: nat, id: TaskId) returns (k: nat)
    requires m <= n <= |run| && After(EMPTY, run[..m]).Some? && After(EMPTY, run[..n]).Some?
    requires var s, t := After(EMPTY, run[..m]).value, After(EMPTY, run[..n]).value;
             && id in s.tasks && StillOpen(s.tasks[id].status)
             && id in t.tasks && !StillOpen(t.tasks[id].status)
    ensures m <= k < n && CloseWrite(run, k, id)
    decreases n
  {
    hide After, Apply, Enabled, Inv, Forward;
    TaskStep(run, n - 1, id);
    TaskKept(run, m, n - 1, id);
    var s := After(EMPTY, run[..n - 1]).value;
    if StillOpen(s.tasks[id].status) {
      StepBreaks(s, run[n - 1], id);
      WriteHasOp(s, run[n - 1]);
      k := n - 1;
    } else {
      k := CloseIsWritten(run, m, n - 1, id);
    }
  }

  lemma CloseTakes(s: State, a: Action, id: TaskId)
    requires Inv(s) && Enabled(s, a) && a.Write? && s.ops[a.op].Closing? && s.ops[a.op].id == id && id in s.tasks
    ensures id in Apply(s, a).tasks
    ensures var t := Apply(s, a).tasks[id]; !StillOpen(t.status) && t.firstTouchedAt.Some?
  {
    hide TrimSpace, MayWork, IsDueList, TaskInv, Reported, EscalatedIds;
    assert OpInv(s.tasks, s.ops[a.op]);
  }

  lemma ClosedStays(before: Task, after: Task)
    requires Forward(before, after) && !StillOpen(before.status)
    ensures !StillOpen(after.status)
  {
  }

  /** A close written to a task is still there later, and the task is touched. */
  lemma CloseLasts(run: seq<Action>, m: nat, k: nat, n: nat, id: TaskId)
    requires m <= k < n <= |run| && CloseWrite(run, k, id)
    requires After(EMPTY, run[..m]).Some? && After(EMPTY, run[..n]).Some? && id in After(EMPTY, run[..m]).value.tasks
    ensures id in After(EMPTY, run[..n]).value.tasks
    ensures var t := After(EMPTY, run[..n]).value.tasks[id]; !StillOpen(t.status) && t.firstTouchedAt.Some?
  {
    hide After, Apply, Enabled, Inv, Forward;
    TaskKept(run, m, k, id);
    PrefixRuns(run, k + 1, n);
    TaskStep(run, k, id);
    CloseTakes(After(EMPTY, run[..k]).value, run[k], id);
    TaskKept(run, k + 1, n, id);
    assert run[..n][..k + 1] == run[..k + 1];
    TasksMoveForward(run[..n], k + 1, id);
    ClosedStays(After(EMPTY, run[..k + 1]).value.tasks[id], After(EMPTY, run[..n]).value.tasks[id]);
  }

  lemma AnyTouchLasts(run: seq<Action>, m: nat, k: nat, n: nat, id: TaskId)
    requires m <= k < n <= |run| && AnyTouchWrite(run, k, id)
    requires After(EMPTY, run[..m]).Some? && After(EMPTY, run[..n]).Some? && id in After(EMPTY, run[..m]).value.tasks
    ensures id in After(EMPTY, run[..n]).value.tasks && After(EMPTY, run[..n]).value.tasks[id].firstTouchedAt.Some?
  {
    hide After;
    if TouchWrite(run, k, id) {
      TouchLasts(run, m, k, n, id);
    } else {
      CloseLasts(run, m, k, n, id);
    }
  }

  lemma WritesAreWrites(run: seq<Action>, k: nat, id: TaskId)
    requires AnyTouchWrite(run, k, id)
    ensures k < |run| && run[k].Write?
  {
    hide After;
  }

  /** What a touch, and a close that read the task untouched, do to the first touch. */
  lemma LateTouchTakes(s: State, a: Action, id: TaskId)
    requires Enabled(s, a) && a.Write? && id in s.tasks
    requires s.ops[a.op] == Touching(id) || (s.ops[a.op].Closing? && s.ops[a.op].id == id && s.ops[a.op].untouched)
    ensures id in Apply(s, a).tasks && Apply(s, a).tasks[id].firstTouchedAt == Some(a.now)
  {
  }

  /**
  A touch, or a close that read the task untouched, stamps the task at its write; it thereby
  replaces an earlier first touch if and only if somebody else's touch or close of the task
  was written between its own read and its write.
  */
  lemma FirstTouchMovedExactly(run: seq<Action>, n: nat, id: TaskId) returns (m: nat)
    requires n < |run| && After(EMPTY, run[..n]).Some? && After(EMPTY, run[..n + 1]).Some? && run[n].Write?
    requires var s := After(EMPTY, run[..n]).value;
             && run[n].op < |s.ops|
             && var op := s.ops[run[n].op]; op == Touching(id) || (op.Closing? && op.id == id && op.untouched)
    ensures m < n && Opened(run, m, run[n].op, After(EMPTY, run[..n]).value.ops[run[n].op])
    ensures var s, t := After(EMPTY, run[..n]).value, After(EMPTY, run[..n + 1]).value;
            && id in s.tasks && id in t.tasks && t.tasks[id].firstTouchedAt == Some(run[n].now)
            && (s.tasks[id].firstTouchedAt.Some? <==> exists k: nat :: m < k < n && AnyTouchWrite(run, k, id))
  {
    hide After, Apply, Enabled, Inv, Forward, Opened, AnyTouchWrite;
    var s := After(EMPTY, run[..n]).value;
    TaskStep(run, n, id);
    m := WriterWasOpened(run[..n], run[n].op);
    OpenedLater(run, n, m, run[n].op, s.ops[run[n].op]);
    OpenedHasRead(run, m, run[n].op, s.ops[run[n].op]);
    TaskKept(run, m, n, id);
    LateTouchTakes(s, run[n], id);
    if s.tasks[id].firstTouchedAt.Some? {
      var k := AnyTouchIsWritten(run, m, n, id);
      WritesAreWrites(run, k, id);
      assert m < k;
    }
    if k: nat :| m < k < n && AnyTouchWrite(run, k, id) {
      AnyTouchLasts(run, m, k, n, id);
    }
  }

  lemma LateCloseTakes(s: State, a: Action, id: TaskId)
    requires Enabled(s, a) && a.Write? && s.ops[a.op].Closing? && s.ops[a.op].id == id && id in s.tasks
    ensures id in Apply(s, a).tasks
    ensures var t := Apply(s, a).tasks[id]; t.outcome == s.ops[a.op].outcome && t.status == s.ops[a.op].status
  {
  }

  /**
  A close writes its outcome whatever the task has become; it thereby replaces another
  outcome if and only if another close of the task was written between its read and its write.
  */
  lemma OutcomeReplacedExactly(run: seq<Action>, n: nat, id: TaskId) returns (m: nat)
    requires n < |run| && After(EMPTY, run[..n]).Some? && After(EMPTY, run[..n + 1]).Some? && run[n].Write?
    requires var s := After(EMPTY, run[..n]).value;
             run[n].op < |s.ops| && s.ops[run[n].op].Closing? && s.ops[run[n].op].id == id
    ensures m < n && Opened(run, m, run[n].op, After(EMPTY, run[..n]).value.ops[run[n].op])
    ensures var s, t := After(EMPTY, run[..n]).value, After(EMPTY, run[..n + 1]).value;
            var op := s.ops[run[n].op];
            && id in s.tasks && id in t.tasks && t.tasks[id].outcome == op.outcome && t.tasks[id].status == op.status
            && (!StillOpen(s.tasks[id].status) <==> exists k: nat :: m < k < n && CloseWrite(run, k, id))
  {
    hide After, Apply, Enabled, Inv, Forward, Opened, CloseWrite;
    var s := After(EMPTY, run[..n]).value;
    TaskStep(run, n, id);
    m := WriterWasOpened(run[..n], run[n].op);
    OpenedLater(run, n, m, run[n].op, s.ops[run[n].op]);
    OpenedHasRead(run, m, run[n].op, s.ops[run[n].op]);
    TaskKept(run, m, n, id);
    LateCloseTakes(s, run[n], id);
    if !StillOpen(s.tasks[id].status) {
      var k := CloseIsWritten(run, m, n, id);
      WritesAreWrites(run, k, id);
      assert m < k;
    }
    if k: nat :| m < k < n && CloseWrite(run, k, id) {
      CloseLasts(run, m, k, n, id);
    }
  }

  /** Nothing else ever moves a first touch: along any other step it stands. */
  lemma FirstTouchStands(run: seq<Action>, n: nat, id: TaskId)
    requires n < |run| && After(EMPTY, run[..n]).Some? && After(EMPTY, run[..n + 1]).Some?
    requires id in After(EMPTY, run[..n]).value.tasks && !AnyTouchWrite(run, n, id)
    ensures id in After(EMPTY, run[..n + 1]).value.tasks
    ensures After(EMPTY, run[..n + 1]).value.tasks[id].firstTouchedAt
            == After(EMPTY, run[..n]).value.tasks[id].firstTouchedAt
  {
    hide After, Apply, Enabled, Inv, Forward;
    TaskStep(run, n, id);
    StepBreaks(After(EMPTY, run[..n]).value, run[n], id);
    WriteHasOp(After(EMPTY, run[..n]).value, run[n]);
  }

  // ---- a touched task that escalates ---------------------------------------------

  const VISITOR := "visitor"
  const AMA := "ama"

  const RACE: seq<Action> := [
    Create(1, VISITOR, FirstTimer, AMA, 10), ReadSweep([1], 20),
    ReadTouch(1, AMA, false), Write(1, 21), SweepWrite(0, Some(""))]

  function RaceTask(k: nat): Task {
    Task(VISITOR, FirstTimer, AMA, 10, if k >= 5 then Escalated else Open, if k >= 5 then Some(20) else None, None,
         if k >= 4 then Some(21) else None, None, "")
  }

  /** The state after k steps of the race. */
  function RaceState(k: nat): State {
    State(if k == 0 then map[] else map[1 := RaceTask(k)],
          (if k >= 5 then [Sweeping([], [], 20, 1)] else if k >= 2 then [Sweeping([1], [AMA], 20, 0)] else [])
          + (if k >= 4 then [Ended(0)] else if k == 3 then [Touching(1)] else []))
  }

  lemma RaceDue()
    ensures IsDueList(RaceState(1).tasks, 20, [1])
    ensures Owners(RaceState(1).tasks, [1]) == [AMA]
  {
    assert OverdueIds(RaceState(1).tasks, 20) == {1};
    assert DueSet([1]) == {1};
    assert Owners(RaceState(1).tasks, [1])[0] == AMA;
  }

  predicate RaceSteps(k: nat)
    requires k < 5
  {
    Enabled(RaceState(k), RACE[k]) && Apply(RaceState(k), RACE[k]) == RaceState(k + 1)
  }

  lemma RaceBegins()
    ensures RaceSteps(0) && RaceSteps(1)
  {
    RaceDue();
    hide IsDueList, Owners, TrimSpace;
    assert RaceState(0).tasks[1 := NewTask(VISITOR, FirstTimer, AMA, 10)] == RaceState(1).tasks;
    assert RaceState(1).ops + [Sweeping([1], [AMA], 20, 0)] == RaceState(2).ops;
  }

  lemma RaceTouches()
    ensures RaceSteps(2) && RaceSteps(3)
  {
    hide IsDueList, Owners, TrimSpace;
    assert RaceState(2).ops + [Touching(1)] == RaceState(3).ops;
    assert RaceState(3).tasks[1 := Touched(RaceTask(3), 21)] == RaceState(4).tasks;
    assert RaceState(3).ops[1 := Ended(0)] == RaceState(4).ops;
  }

  lemma RaceEscalates()
    ensures RaceSteps(4)
  {
    hide IsDueList, Owners, TrimSpace;
    var s, next := RaceState(4), RaceState(5);
    assert s.tasks[1 := EscalatedTo(RaceTask(4), AMA, "", 20)] == next.tasks;
    assert s.ops[0].due[1..] == [] && s.ops[0].owners[1..] == [];
    assert s.ops[0 := Sweeping([], [], 20, 1)] == next.ops;
  }

  lemma RaceStep(k: nat)
    requires k < 5
    ensures RaceSteps(k)
  {
    hide RaceSteps;
    RaceBegins();
    RaceTouches();
    RaceEscalates();
  }

  lemma {:induction false} RaceReaches(k: nat)
    requires k <= 5
    ensures After(EMPTY, RACE[..k]) == Some(RaceState(k))
  {
    if k == 0 {
      assert RACE[..0] == [];
      assert RaceState(0).ops == [];
    } else {
      RaceReaches(k - 1);
      RaceStep(k - 1);
      var init, a := RACE[..k - 1], RACE[k - 1];
      assert RACE[..k] == init + [a];
      hide After, Enabled, Apply, RaceState, RACE;
      AfterSnoc(EMPTY, init, a);
    }
  }

  /**
  The escalating write looks at the status only, so a touch between a sweep's read and
  its write does not stop the escalation: sparing touched tasks needs an undisturbed sweep.
  */
  lemma TouchedTaskMayEscalate()
    ensures After(EMPTY, RACE).Some?
    ensures var t := After(EMPTY, RACE).value.tasks;
            1 in t && t[1].firstTouchedAt == Some(21) && t[1].status == Escalated && t[1].escalatedAt == Some(20)
  {
    RaceReaches(5);
    assert RACE[..5] == RACE;
  }
}
