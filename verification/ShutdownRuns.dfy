/** The Manager's shutdown handlers and the tasks they spawn, interleaved in any order.  Each handler, and each section
    of a task that holds the execution lock, is one step. */
module ShutdownRuns {
  import opened Common
  import opened ShutdownPlan
  import opened ShutdownExecution
  import Text

  datatype Record = Record(
    executionId: string,
    shutdownId: string, requestId: string,
    requestedBy: string, state: RunState,
    currentStep: Option<nat>, results: seq<StepResult>,
    failures: seq<Failure>, advice: Advice)

  /** Where a spawned task is: before its first section, about to announce or to carry out step `k`, or finished. */
  datatype Stage = Starting | Announcing(k: nat) | Performing(k: nat) | Finished

  datatype Task = Task(
    plan: Plan,
    requestId: string, executionId: string,
    stage: Stage, ordinaryFailure: bool,
    attempts: seq<Attempt>)

  datatype Manager = Manager(plan: Option<Plan>, execution: Option<Record>, fence: Option<string>, tasks: seq<Task>)

  datatype ApiError = Disabled | BadRequest | UnknownPlan | Blocked | AlreadyActive

  datatype ExecuteRequest = ExecuteRequest(planId: string, requestId: string, confirmation: string)

  type Reply = Result<Record, ApiError>

  const CONFIRMATION := "EXECUTE_MANAGER_PROVIDER_SHUTDOWN"

  // ----- specification of the handlers

  predicate IsActive(state: RunState) {
    state == Accepted || state == Running
  }

  predicate IsReplay(m: Manager, plan: Plan, requestId: string) {
    m.execution.Some? && m.execution.value.shutdownId == plan.shutdownId && m.execution.value.requestId == requestId
  }

  function NewRecord(plan: Plan, requestId: string, executionId: string): Record {
    Record(executionId, plan.shutdownId, requestId, plan.requestedBy, Accepted, None, [], [], StopFabricThenManager)
  }

  function Accept(m: Manager, plan: Plan, requestId: string, executionId: string): Manager {
    m.(execution := Some(NewRecord(plan, requestId, executionId)), fence := Some(plan.shutdownId),
       tasks := m.tasks + [Task(plan, requestId, executionId, Starting, false, [])])
  }

  function Executed(m: Manager, enabled: bool, request: ExecuteRequest, executionId: string): (Manager, Reply) {
    var requestId := Text.Trim(request.requestId);
    if !enabled then (m, Err(Disabled))
    else if requestId == "" || request.confirmation != CONFIRMATION then (m, Err(BadRequest))
    else if m.plan.None? || m.plan.value.shutdownId != request.planId then (m, Err(UnknownPlan))
    else if m.plan.value.blockers != {} then (m, Err(Blocked))
    else if IsReplay(m, m.plan.value, requestId) then (m, Ok(m.execution.value))
    else if m.execution.Some? && IsActive(m.execution.value.state) then (m, Err(AlreadyActive))
    else (Accept(m, m.plan.value, requestId, executionId), Ok(NewRecord(m.plan.value, requestId, executionId)))
  }

  // ----- specification of the sections of a task

  function Began(r: Record): Record {
    r.(state := Running)
  }

  function Announced(r: Record, step: Step): Record {
    r.(currentStep := Some(step.order))
  }

  function Performed(r: Record, step: Step, ok: Outcomes): Record {
    var result := ResultOf(step, ok);
    var noted := r.(failures := r.failures + FailuresOf(result), results := r.results + [result]);
    if Blocks(step, ok)
    then noted.(state := BlockedSafetySupportRetained, currentStep := None, advice := StopNothing)
    else noted
  }

  function Ended(r: Record, ordinaryFailure: bool): Record {
    r.(state := if ordinaryFailure then PartialFailureAwaitingSupervisor else AwaitingSupervisor, currentStep := None)
  }

  /** The section a task runs next, on its record and on itself. */
  function Advanced(t: Task, r: Record, ok: Outcomes): (Task, Record) {
    var steps := t.plan.steps;
    match t.stage
    case Starting => (t.(stage := Announcing(0)), Began(r))
    case Announcing(k) =>
      if k < |steps| then (t.(stage := Performing(k)), Announced(r, steps[k]))
      else (t.(stage := Finished), Ended(r, t.ordinaryFailure))
    case Performing(k) =>
      if k < |steps| then
        (t.(stage := if Blocks(steps[k], ok) then Finished else Announcing(k + 1),
            ordinaryFailure := t.ordinaryFailure || (Fails(steps[k], ok) && !Blocks(steps[k], ok)),
            attempts := t.attempts + AttemptsOf(steps[k])),
         Performed(r, steps[k], ok))
      else (t, r)
    case Finished => (t, r)
  }

  /** A task touches the stored record only while the record is its own. */
  function Moved(m: Manager, i: nat, ok: Outcomes): Manager
    requires i < |m.tasks|
  {
    var t := m.tasks[i];
    if m.execution.Some? && m.execution.value.executionId == t.executionId then
      var (after, record) := Advanced(t, m.execution.value, ok);
      m.(tasks := m.tasks[i := after], execution := Some(record))
    else
      m.(tasks := m.tasks[i := Advanced(t, NewRecord(t.plan, t.requestId, t.executionId), ok).0])
  }

  // ----- the handlers

  class ShutdownManager {
    var plan: Option<Plan>
    var execution: Option<Record>
    var fence: Option<string>
    var tasks: seq<Task>

    constructor ()
      ensures View() == EMPTY
    {
      plan, execution, fence, tasks := None, None, None, [];
    }

    function View(): Manager
      reads this
    {
      Manager(plan, execution, fence, tasks)
    }

    /** `execute_shutdown_plan`; `executionId` is the freshly drawn identifier. */
    method Execute(enabled: bool, request: ExecuteRequest, executionId: string) returns (reply: Reply)
      modifies this
      ensures (View(), reply) == Executed(old(View()), enabled, request, executionId)
    {
      if !enabled {
        return Err(Disabled);
      }
      var requestId := Text.Trim(request.requestId);
      if requestId == "" {
        return Err(BadRequest);
      }
      if request.confirmation != CONFIRMATION {
        return Err(BadRequest);
      }
      if plan.None? || plan.value.shutdownId != request.planId {
        return Err(UnknownPlan);
      }
      var stored := plan.value;
      if stored.blockers != {} {
        return Err(Blocked);
      }
      if execution.Some? {
        var existing := execution.value;
        if existing.shutdownId == stored.shutdownId && existing.requestId == requestId {
          return Ok(existing);
        }
        if existing.state == Accepted || existing.state == Running {
          return Err(AlreadyActive);
        }
      }
      var record := NewRecord(stored, requestId, executionId);
      fence := Some(stored.shutdownId);
      execution := Some(record);
      tasks := tasks + [Task(stored, requestId, executionId, Starting, false, [])];
      return Ok(record);
    }
  }

  // ----- runs

  datatype Event =
    | CreatePlan(plan: Plan)
    | Execute(enabled: bool, request: ExecuteRequest, executionId: string)
    | Advance(i: nat)

  const EMPTY := Manager(None, None, None, [])

  /** `world` says how each attempt of each execution turns out. */
  type World = string -> Outcomes

  function After(m: Manager, e: Event, world: World): Manager {
    match e
    case CreatePlan(plan) => m.(plan := Some(plan))
    case Execute(enabled, request, executionId) => Executed(m, enabled, request, executionId).0
    case Advance(i) => if i < |m.tasks| then Moved(m, i, world(m.tasks[i].executionId)) else m
  }

  function Run(events: seq<Event>, world: World): Manager {
    if events == [] then EMPTY else After(Run(events[..|events| - 1], world), events[|events| - 1], world)
  }

  /** Execution identifiers are drawn fresh. */
  ghost predicate IsFresh(m: Manager, e: Event) {
    e.Execute? ==> forall i :: 0 <= i < |m.tasks| ==> m.tasks[i].executionId != e.executionId
  }

  ghost predicate FreshRun(events: seq<Event>, world: World) {
    forall i :: 0 <= i < |events| ==> IsFresh(Run(events[..i], world), events[i])
  }

  // ----- the invariant

  /** Steps before `k` are done and none of them blocked. */
  ghost predicate DoneUpTo(t: Task, r: Record, k: nat, ok: Outcomes) {
    var steps := t.plan.steps;
    && k <= |steps| && r.state == Running && r.advice == StopFabricThenManager
    && t.attempts == AttemptsUpTo(steps, k) && r.results == ResultsUpTo(steps, k, ok)
    && r.failures == FailuresUpTo(steps, k, ok)
    && (forall j :: 0 <= j < k ==> !Blocks(steps[j], ok))
    && t.ordinaryFailure == exists j :: 0 <= j < k && Fails(steps[j], ok)
  }

  /** The record of a whole run, as `Execution.Run` leaves it. */
  ghost predicate IsComplete(t: Task, r: Record, ok: Outcomes) {
    var steps := t.plan.steps;
    var n := Reached(steps, ok);
    && t.attempts == AttemptsUpTo(steps, n) && r.results == ResultsUpTo(steps, n, ok)
    && r.failures == FailuresUpTo(steps, n, ok)
    && r.state == FinalState(steps, ok) && r.currentStep == None
    && r.advice == if r.state == BlockedSafetySupportRetained then StopNothing else StopFabricThenManager
  }

  ghost predicate InStep(t: Task, r: Record, ok: Outcomes) {
    match t.stage
    case Starting => r == NewRecord(t.plan, t.requestId, t.executionId) && t.attempts == [] && !t.ordinaryFailure
    case Announcing(k) => DoneUpTo(t, r, k, ok)
    case Performing(k) => k < |t.plan.steps| && DoneUpTo(t, r, k, ok) && r.currentStep == Some(t.plan.steps[k].order)
    case Finished => IsComplete(t, r, ok)
  }

  ghost predicate Matches(t: Task, r: Record, ok: Outcomes) {
    && r.executionId == t.executionId && r.shutdownId == t.plan.shutdownId && r.requestId == t.requestId
    && InStep(t, r, ok)
  }

  /** An earlier task has run to its end. */
  ghost predicate IsPast(t: Task, ok: Outcomes) {
    t.stage == Finished && t.attempts == AttemptsUpTo(t.plan.steps, Reached(t.plan.steps, ok))
  }

  /** The two tasks carry out the same request. */
  predicate SameRequest(a: Task, b: Task) {
    a.plan.shutdownId == b.plan.shutdownId && a.requestId == b.requestId
  }

  ghost predicate Good(m: Manager, world: World) {
    var n := |m.tasks|;
    && (forall i, j :: 0 <= i < j < n ==> m.tasks[i].executionId != m.tasks[j].executionId)
    && (forall i :: 0 <= i < n ==> m.tasks[i].plan.blockers == {})
    && (forall i :: 0 <= i < n - 1 ==> IsPast(m.tasks[i], world(m.tasks[i].executionId)))
    && (forall i :: 0 <= i < n - 1 ==> !SameRequest(m.tasks[i], m.tasks[i + 1]))
    && (if n == 0 then m.execution == None && m.fence == None
        else
          var last := m.tasks[n - 1];
          && m.execution.Some? && Matches(last, m.execution.value, world(last.executionId))
          && m.fence == Some(last.plan.shutdownId))
  }

  lemma AdvanceMatches(t: Task, r: Record, ok: Outcomes)
    requires Matches(t, r, ok)
    ensures Matches(Advanced(t, r, ok).0, Advanced(t, r, ok).1, ok)
    ensures t.stage == Finished ==> Advanced(t, r, ok) == (t, r)
  {
    hide AttemptsUpTo, ResultsUpTo, FailuresUpTo, Reached, FinalState, Blocks, Fails, AttemptsOf, ResultOf, FailuresOf;
    var steps := t.plan.steps;
    match t.stage {
      case Starting => NothingYet(steps, ok);
      case Announcing(k) =>
        if k == |steps| {
          Completed(steps, ok);
        }
      case Performing(k) =>
        OneMore(steps, k, ok);
        if Blocks(steps[k], ok) {
          BlockedAt(steps, k, ok);
        }
      case Finished =>
    }
  }

  lemma MovedIsGood(m: Manager, i: nat, world: World)
    requires Good(m, world) && i < |m.tasks|
    ensures Good(Moved(m, i, world(m.tasks[i].executionId)), world)
  {
    hide Matches, IsPast, Advanced;
    var n := |m.tasks|;
    var ok := world(m.tasks[i].executionId);
    if i == n - 1 {
      MatchesKeepsId(m.tasks[i], m.execution.value, ok);
      AdvanceMatches(m.tasks[i], m.execution.value, ok);
      AdvancedIsSame(m.tasks[i], m.execution.value, ok);
    } else {
      PastIsIdle(m, i, world);
      assert m.tasks[i := m.tasks[i]] == m.tasks;
    }
  }

  lemma MatchesKeepsId(t: Task, r: Record, ok: Outcomes)
    requires Matches(t, r, ok)
    ensures r.executionId == t.executionId
  {
    hide InStep;
  }

  // A finished task does not move, and the record is not its own.
  lemma PastIsIdle(m: Manager, i: nat, world: World)
    requires Good(m, world) && i < |m.tasks| - 1
    ensures Moved(m, i, world(m.tasks[i].executionId)) == m.(tasks := m.tasks[i := m.tasks[i]])
  {
    hide InStep, SameRequest, AttemptsUpTo, Reached;
    assert m.tasks[i].executionId != m.tasks[|m.tasks| - 1].executionId;
  }

  lemma AdvancedIsSame(t: Task, r: Record, ok: Outcomes)
    ensures var after := Advanced(t, r, ok).0;
      after.executionId == t.executionId && after.plan == t.plan && after.requestId == t.requestId
  {
    hide AttemptsOf, Blocks, Fails, Performed;
  }

  lemma ExecutedIsGood(m: Manager, enabled: bool, request: ExecuteRequest, executionId: string, world: World)
    requires Good(m, world) && IsFresh(m, Execute(enabled, request, executionId))
    ensures Good(Executed(m, enabled, request, executionId).0, world)
  {
    hide Good, Accept, Text.Trim;
    if Executed(m, enabled, request, executionId).0 != m {
      AcceptIsGood(m, m.plan.value, Text.Trim(request.requestId), executionId, world);
    }
  }

  lemma AcceptIsGood(m: Manager, plan: Plan, requestId: string, executionId: string, world: World)
    requires Good(m, world) && plan.blockers == {}
    requires forall i :: 0 <= i < |m.tasks| ==> m.tasks[i].executionId != executionId
    requires m.execution.Some? ==> !IsActive(m.execution.value.state) && !IsReplay(m, plan, requestId)
    ensures Good(Accept(m, plan, requestId, executionId), world)
  {
    hide IsPast, Matches, NewRecord, IsActive, SameRequest;
    if |m.tasks| > 0 {
      InactiveIsPast(m.tasks[|m.tasks| - 1], m.execution.value, world(m.tasks[|m.tasks| - 1].executionId));
      NotAReplay(m, plan, requestId, executionId, world);
    }
    NewMatches(plan, requestId, executionId, world(executionId));
  }

  lemma NotAReplay(m: Manager, plan: Plan, requestId: string, executionId: string, world: World)
    requires Good(m, world) && m.tasks != [] && !IsReplay(m, plan, requestId)
    ensures !SameRequest(m.tasks[|m.tasks| - 1], Task(plan, requestId, executionId, Starting, false, []))
  {
    hide IsPast, InStep;
  }

  lemma NewMatches(plan: Plan, requestId: string, executionId: string, ok: Outcomes)
    ensures Matches(Task(plan, requestId, executionId, Starting, false, []), NewRecord(plan, requestId, executionId),
                    ok)
  {
  }

  lemma InactiveIsPast(t: Task, r: Record, ok: Outcomes)
    requires Matches(t, r, ok) && !IsActive(r.state)
    ensures IsPast(t, ok)
  {
  }

  lemma EmptyIsGood(world: World)
    ensures Good(EMPTY, world)
  {
  }

  /** In every reachable state all tasks but the last have run to their end, and the record agrees with the last. */
  lemma {:induction false} EveryRunIsGood(events: seq<Event>, world: World)
    requires FreshRun(events, world)
    ensures Good(Run(events, world), world)
  {
    if events == [] {
      EmptyIsGood(world);
    } else {
      var n := |events| - 1;
      forall i | 0 <= i < n
        ensures IsFresh(Run(events[..n][..i], world), events[..n][i])
      {
        assert events[..n][..i] == events[..i];
      }
      EveryRunIsGood(events[..n], world);
      StepIsGood(Run(events[..n], world), events[n], world);
    }
  }

  lemma StepIsGood(m: Manager, e: Event, world: World)
    requires Good(m, world) && IsFresh(m, e)
    ensures Good(After(m, e, world), world)
  {
    hide Good, Executed, Moved, IsFresh;
    match e
    case CreatePlan(plan) => PlanIsGood(m, plan, world);
    case Execute(enabled, request, executionId) => ExecutedIsGood(m, enabled, request, executionId, world);
    case Advance(i) =>
      if i < |m.tasks| {
        MovedIsGood(m, i, world);
      }
  }

  lemma PlanIsGood(m: Manager, plan: Plan, world: World)
    requires Good(m, world)
    ensures Good(m.(plan := Some(plan)), world)
  {
    hide IsPast, Matches, SameRequest;
  }

  // ----- what follows in every reachable state

  /** No two shutdown sequences are ever under way at once, and none runs on a plan that has blockers. */
  lemma OneSequenceAtATime(events: seq<Event>, world: World, i: nat, j: nat)
    requires FreshRun(events, world)
    requires var m := Run(events, world); i < j < |m.tasks|
    ensures var m := Run(events, world);
      m.tasks[i].stage == Finished && m.tasks[i].plan.blockers == {} && m.tasks[j].plan.blockers == {}
  {
    EveryRunIsGood(events, world);
    hide Run, Matches, AttemptsUpTo, Reached;
  }

  /** A record that is no longer active tells the whole run of its plan. */
  lemma EndedRecordIsComplete(events: seq<Event>, world: World)
    requires FreshRun(events, world)
    requires var m := Run(events, world); m.execution.Some? && !IsActive(m.execution.value.state)
    ensures var m := Run(events, world);
      && m.tasks != []
      && var t := m.tasks[|m.tasks| - 1];
         t.executionId == m.execution.value.executionId && IsComplete(t, m.execution.value, world(t.executionId))
  {
    EveryRunIsGood(events, world);
    hide *;
    GoodEnded(Run(events, world), world);
  }

  lemma GoodEnded(m: Manager, world: World)
    requires Good(m, world) && m.execution.Some? && !IsActive(m.execution.value.state)
    ensures m.tasks != []
    ensures var t := m.tasks[|m.tasks| - 1];
      t.executionId == m.execution.value.executionId && IsComplete(t, m.execution.value, world(t.executionId))
  {
    hide IsComplete, IsPast, AttemptsUpTo, ResultsUpTo, FailuresUpTo, Blocks, Fails;
  }

  lemma {:induction false} AttemptsArePrefix(steps: seq<Step>, k: nat, n: nat)
    requires k <= n <= |steps|
    ensures AttemptsUpTo(steps, k) <= AttemptsUpTo(steps, n)
  {
    hide AttemptsOf;
    if k < n {
      AttemptsArePrefix(steps, k, n - 1);
    }
  }

  /** At every moment, what a task has requested so far is a prefix of the run of its plan. */
  lemma RequestedIsPrefix(t: Task, r: Record, ok: Outcomes)
    requires Matches(t, r, ok)
    ensures t.attempts <= AttemptsUpTo(t.plan.steps, Reached(t.plan.steps, ok))
  {
    hide AttemptsUpTo, ResultsUpTo, FailuresUpTo, Blocks, Fails, FinalState;
    var steps := t.plan.steps;
    var n := Reached(steps, ok);
    NothingYet(steps, ok);
    if t.stage.Announcing? || t.stage.Performing? {
      ReachedStops(steps, 0, ok);
      AttemptsArePrefix(steps, t.stage.k, n);
    }
  }

  /** In every reachable state, and so also if the Manager dies in the middle, no execution has stopped a provider that
      holds the arm before all that move it confirmed their stop and all that hold it confirmed their safe state. */
  lemma SupportIsWithdrawnLast(events: seq<Event>, world: World, i: nat, configs: Configs, reports: Reports,
                               running: set<string>, k: nat)
    requires FreshRun(events, world)
    requires var m := Run(events, world);
      && i < |m.tasks| && IsPlanFor(m.tasks[i].plan, configs, reports, running) && k < |m.tasks[i].attempts|
      && m.tasks[i].attempts[k].kind == Stop && HoldsArm(reports, m.tasks[i].attempts[k].id)
    ensures var t := Run(events, world).tasks[i];
      var ok := world(t.executionId);
      && (forall p :: p in configs && MovesArm(reports, p) && !HoldsArm(reports, p) ==>
            Attempt(2, Stop, p) in t.attempts[..k] && ok(2, p))
      && (forall b :: b in configs && HoldsArm(reports, b) ==>
            Attempt(3, ConfirmSafe, b) in t.attempts[..k] && ok(3, b))
  {
    EveryRunIsGood(events, world);
    hide *;
    var m := Run(events, world);
    var t := m.tasks[i];
    var ok := world(t.executionId);
    var all := AttemptsUpTo(t.plan.steps, Reached(t.plan.steps, ok));
    TaskIsPrefix(m, i, world);
    assert all[..k] == t.attempts[..k];
    BasicStopsLast(t.plan, configs, reports, running, ok, k);
  }

  lemma TaskIsPrefix(m: Manager, i: nat, world: World)
    requires Good(m, world) && i < |m.tasks|
    ensures var t := m.tasks[i];
      t.attempts <= AttemptsUpTo(t.plan.steps, Reached(t.plan.steps, world(t.executionId)))
  {
    hide Matches, AttemptsUpTo, Reached;
    if i == |m.tasks| - 1 {
      RequestedIsPrefix(m.tasks[i], m.execution.value, world(m.tasks[i].executionId));
    }
  }

  /** While a sequence is under way no request starts another, and its own request only reads the record. */
  lemma ActiveAdmitsNothing(m: Manager, enabled: bool, request: ExecuteRequest, executionId: string)
    requires m.execution.Some? && IsActive(m.execution.value.state)
    ensures Executed(m, enabled, request, executionId).0 == m
  {
  }

  /** The fence, once set, is never lifted. */
  lemma FenceStays(m: Manager, e: Event, world: World)
    requires m.fence.Some?
    ensures After(m, e, world).fence.Some?
  {
    hide Advanced;
  }

  // ----- what a request is told

  /** A sequence is under way. */
  ghost predicate IsAtWork(m: Manager) {
    exists i :: 0 <= i < |m.tasks| && m.tasks[i].stage != Finished
  }

  ghost predicate IsIdOf(id: string, request: ExecuteRequest) {
    Text.IsTrimmed(id) && Text.IsPadded(request.requestId, id)
  }

  /** The last sequence was for this request. */
  ghost predicate IsForLast(m: Manager, request: ExecuteRequest) {
    && m.tasks != []
    && m.tasks[|m.tasks| - 1].plan.shutdownId == request.planId && IsIdOf(m.tasks[|m.tasks| - 1].requestId, request)
  }

  predicate IsForThePlan(m: Manager, request: ExecuteRequest) {
    m.plan.Some? && m.plan.value.shutdownId == request.planId
  }

  predicate IsConfirmed(request: ExecuteRequest) {
    !Text.IsBlank(request.requestId) && request.confirmation == "EXECUTE_MANAGER_PROVIDER_SHUTDOWN"
  }

  /** A sequence has been started for the request, and so far nothing else has happened. */
  ghost predicate HasBegun(m: Manager, request: ExecuteRequest, executionId: string, after: Manager, r: Record) {
    && m.plan.Some? && after.plan == m.plan && after.execution == Some(r) && after.fence == Some(request.planId)
    && IsIdOf(r.requestId, request)
    && after.tasks == m.tasks + [Task(m.plan.value, r.requestId, executionId, Starting, false, [])]
    && r.state == Accepted && r.results == [] && r.failures == [] && r.currentStep.None?
    && r.advice == StopFabricThenManager
    && r.executionId == executionId && r.shutdownId == request.planId && r.requestedBy == m.plan.value.requestedBy
  }

  /** The answer is true, and only a sequence begun changes anything. */
  ghost predicate IsTold(m: Manager, enabled: bool, request: ExecuteRequest, executionId: string, after: Manager,
                         reply: Reply)
  {
    match reply
    case Ok(record) =>
      && enabled && IsConfirmed(request) && IsForThePlan(m, request) && m.plan.value.blockers == {}
      && if IsForLast(m, request) then after == m && m.execution == Some(record)
         else !IsAtWork(m) && HasBegun(m, request, executionId, after, record)
    case Err(error) =>
      && after == m
      && match error
         case Disabled => !enabled
         case BadRequest => !IsConfirmed(request)
         case UnknownPlan => !IsForThePlan(m, request)
         case Blocked => IsForThePlan(m, request) && m.plan.value.blockers != {}
         case AlreadyActive => IsAtWork(m) && !IsForLast(m, request)
  }

  lemma AtWorkIff(m: Manager, world: World)
    requires Good(m, world)
    ensures IsAtWork(m) <==> m.execution.Some? && IsActive(m.execution.value.state)
  {
    hide AttemptsUpTo, ResultsUpTo, FailuresUpTo, Reached, Blocks, Fails, SameRequest;
    if m.tasks != [] {
      var last := m.tasks[|m.tasks| - 1];
      assert Matches(last, m.execution.value, world(last.executionId));
    }
  }

  lemma ForLastIff(m: Manager, request: ExecuteRequest, world: World)
    requires Good(m, world) && IsForThePlan(m, request)
    ensures IsForLast(m, request) <==> IsReplay(m, m.plan.value, Text.Trim(request.requestId))
  {
    hide IsPast, InStep, SameRequest, Text.Trim, Text.IsTrimmed, Text.IsPadded;
    if m.tasks != [] {
      var last := m.tasks[|m.tasks| - 1];
      assert Matches(last, m.execution.value, world(last.executionId));
      Text.TrimmedIff(request.requestId, last.requestId);
    }
  }

  /** Whatever was done before, a request is told the truth: it begins a sequence exactly when execution is enabled, it
      is confirmed and names the plan stored, which has no blockers, no sequence is under way, and the last was not for
      the same request; for the same request it is shown the record; otherwise it is refused for a reason that holds. */
  lemma RequestIsTold(events: seq<Event>, world: World, enabled: bool, request: ExecuteRequest, executionId: string)
    requires FreshRun(events, world)
    ensures var m := Run(events, world);
      var (after, reply) := Executed(m, enabled, request, executionId);
      IsTold(m, enabled, request, executionId, after, reply)
  {
    hide *;
    EveryRunIsGood(events, world);
    GoodIsTold(Run(events, world), world, enabled, request, executionId);
  }

  lemma GoodIsTold(m: Manager, world: World, enabled: bool, request: ExecuteRequest, executionId: string)
    requires Good(m, world)
    ensures var (after, reply) := Executed(m, enabled, request, executionId);
      IsTold(m, enabled, request, executionId, after, reply)
  {
    hide Good, IsAtWork, IsForLast, IsActive, IsReplay, Text.Trim, Text.IsTrimmed, Text.IsPadded, Text.IsBlank;
    AtWorkIff(m, world);
    Text.BlankIff(request.requestId);
    Text.TrimmedIff(request.requestId, Text.Trim(request.requestId));
    if IsForThePlan(m, request) {
      ForLastIff(m, request, world);
      ReplayHasRecord(m, m.plan.value, Text.Trim(request.requestId));
    }
  }

  lemma ReplayHasRecord(m: Manager, plan: Plan, requestId: string)
    ensures IsReplay(m, plan, requestId) ==> m.execution.Some?
  {
  }

  // ----- the same request again

  /** The request passes the gates of the plan stored. */
  predicate IsAdmissible(m: Manager, request: ExecuteRequest) {
    && Text.Trim(request.requestId) != "" && request.confirmation == CONFIRMATION
    && m.plan.Some? && m.plan.value.shutdownId == request.planId && m.plan.value.blockers == {}
  }

  predicate CarriesOut(t: Task, request: ExecuteRequest) {
    t.plan.shutdownId == request.planId && t.requestId == Text.Trim(request.requestId)
  }

  /** A request that passes the gates starts a sequence exactly when the stored record is neither its own nor active. */
  lemma StartsIff(m: Manager, request: ExecuteRequest, executionId: string)
    requires IsAdmissible(m, request)
    ensures |Executed(m, true, request, executionId).0.tasks| > |m.tasks| <==>
      !IsReplay(m, m.plan.value, Text.Trim(request.requestId))
          && (m.execution.Some? ==> !IsActive(m.execution.value.state))
  {
    hide Text.Trim;
  }

  /** Only the latest execution is remembered.  In every run, let task `i` be the last to have carried out a request:
      the request starts a sequence once more exactly when another request was accepted after task `i` and nothing is
      under way. */
  lemma CarriedOutAgainIff(events: seq<Event>, world: World, request: ExecuteRequest, executionId: string, i: nat)
    requires FreshRun(events, world) && IsAdmissible(Run(events, world), request)
    requires var m := Run(events, world);
      && i < |m.tasks| && CarriesOut(m.tasks[i], request)
      && forall j :: i < j < |m.tasks| ==> !CarriesOut(m.tasks[j], request)
    ensures var m := Run(events, world);
      var after := Executed(m, true, request, executionId).0;
      m.execution.Some? &&
      (|after.tasks| > |m.tasks| <==> i + 1 < |m.tasks| && !IsActive(m.execution.value.state))
  {
    hide *;
    EveryRunIsGood(events, world);
    AgainIff(Run(events, world), world, request, executionId, i);
  }

  lemma AgainIff(m: Manager, world: World, request: ExecuteRequest, executionId: string, i: nat)
    requires Good(m, world) && IsAdmissible(m, request) && i < |m.tasks| && CarriesOut(m.tasks[i], request)
    requires forall j :: i < j < |m.tasks| ==> !CarriesOut(m.tasks[j], request)
    ensures m.execution.Some?
    ensures |Executed(m, true, request, executionId).0.tasks| > |m.tasks| <==>
            i + 1 < |m.tasks| && !IsActive(m.execution.value.state)
  {
    hide Text.Trim, IsPast, InStep, SameRequest, Executed;
    StartsIff(m, request, executionId);
    var last := m.tasks[|m.tasks| - 1];
    assert Matches(last, m.execution.value, world(last.executionId));
  }

  /** In every run, between two sequences that carry out the same request there is one that carries out another. */
  lemma RepeatedAfterAnother(events: seq<Event>, world: World, i: nat, j: nat)
    requires FreshRun(events, world)
    requires var m := Run(events, world); i < j < |m.tasks| && SameRequest(m.tasks[i], m.tasks[j])
    ensures var m := Run(events, world);
      i + 1 < j && !SameRequest(m.tasks[i], m.tasks[i + 1])
  {
    hide *;
    EveryRunIsGood(events, world);
    AnotherBetween(Run(events, world), world, i, j);
  }

  lemma AnotherBetween(m: Manager, world: World, i: nat, j: nat)
    requires Good(m, world) && i < j < |m.tasks| && SameRequest(m.tasks[i], m.tasks[j])
    ensures i + 1 < j && !SameRequest(m.tasks[i], m.tasks[i + 1])
  {
    hide IsPast, Matches, SameRequest;
  }

  // ----- and such a run exists

  lemma RunGrows(events: seq<Event>, e: Event, world: World)
    requires FreshRun(events, world) && IsFresh(Run(events, world), e)
    ensures Run(events + [e], world) == After(Run(events, world), e, world) && FreshRun(events + [e], world)
  {
    hide IsFresh, After;
    var n, more := |events|, events + [e];
    assert more[..n] == events;
    forall i | 0 <= i < |more|
      ensures IsFresh(Run(more[..i], world), more[i])
    {
      assert i < n ==> more[..i] == events[..i];
    }
  }

  /** The sections a task has still to run. */
  function Remaining(t: Task): int {
    match t.stage
    case Starting => 2 * |t.plan.steps| + 2
    case Announcing(k) => 2 * (|t.plan.steps| - k) + 1
    case Performing(k) => 2 * (|t.plan.steps| - k)
    case Finished => 0
  }

  lemma AdvanceGoesOn(t: Task, r: Record, ok: Outcomes)
    requires Matches(t, r, ok) && t.stage != Finished
    ensures 0 <= Remaining(Advanced(t, r, ok).0) < Remaining(t)
  {
    hide Performed, ResultsUpTo, FailuresUpTo, AttemptsUpTo;
  }

  lemma FinishedIsInactive(t: Task, r: Record, ok: Outcomes)
    requires Matches(t, r, ok) && t.stage == Finished
    ensures !IsActive(r.state)
  {
    hide ResultsUpTo, FailuresUpTo, AttemptsUpTo, Reached;
  }

  /** The state differs from an earlier one in how far the last task has come. */
  ghost predicate IsLater(m: Manager, later: Manager) {
    && later.plan == m.plan && |later.tasks| == |m.tasks| > 0 && later.execution.Some?
    && (forall i :: 0 <= i < |m.tasks| ==>
          SameRequest(later.tasks[i], m.tasks[i]) && later.tasks[i].executionId == m.tasks[i].executionId)
  }

  lemma AdvanceIsLater(m: Manager, world: World)
    requires Good(m, world) && m.tasks != []
    ensures var later := After(m, Advance(|m.tasks| - 1), world);
      && IsLater(m, later)
      && (m.tasks[|m.tasks| - 1].stage != Finished ==>
          0 <= Remaining(later.tasks[|m.tasks| - 1]) < Remaining(m.tasks[|m.tasks| - 1]))
  {
    hide InStep, Advanced, IsPast;
    var t := m.tasks[|m.tasks| - 1];
    AdvancedIsSame(t, m.execution.value, world(t.executionId));
    if t.stage != Finished {
      AdvanceGoesOn(t, m.execution.value, world(t.executionId));
    }
  }

  /** Every run can be continued to the end of the sequence under way. */
  lemma {:induction false} Finish(events: seq<Event>, world: World) returns (longer: seq<Event>)
    requires FreshRun(events, world) && Run(events, world).tasks != []
    ensures FreshRun(longer, world) && IsLater(Run(events, world), Run(longer, world))
    ensures !IsActive(Run(longer, world).execution.value.state)
    decreases var tasks := Run(events, world).tasks; Remaining(tasks[|tasks| - 1])
  {
    hide Run, FreshRun, After, IsActive, Matches, IsPast, Remaining, SameRequest;
    EveryRunIsGood(events, world);
    var m := Run(events, world);
    var last := m.tasks[|m.tasks| - 1];
    if last.stage == Finished {
      longer := events;
      FinishedIsInactive(last, m.execution.value, world(last.executionId));
      SameRequestItself(m);
    } else {
      RunGrows(events, Advance(|m.tasks| - 1), world);
      AdvanceIsLater(m, world);
      longer := Finish(events + [Advance(|m.tasks| - 1)], world);
      LaterIsTransitive(m, Run(events + [Advance(|m.tasks| - 1)], world), Run(longer, world));
    }
  }

  lemma SameRequestItself(m: Manager)
    ensures forall i :: 0 <= i < |m.tasks| ==> SameRequest(m.tasks[i], m.tasks[i])
  {
  }

  lemma LaterIsTransitive(a: Manager, b: Manager, c: Manager)
    requires IsLater(a, b) && IsLater(b, c)
    ensures IsLater(a, c)
  {
  }

  /** The state is at rest: no sequence is under way. */
  predicate IsAtRest(m: Manager) {
    m.execution.Some? ==> !IsActive(m.execution.value.state)
  }

  /** From a run at rest, a request that is not a replay runs to its end. */
  lemma CarryOut(events: seq<Event>, world: World, request: ExecuteRequest, executionId: string)
    returns (longer: seq<Event>)
    requires FreshRun(events, world) && IsAtRest(Run(events, world)) && IsAdmissible(Run(events, world), request)
    requires !IsReplay(Run(events, world), Run(events, world).plan.value, Text.Trim(request.requestId))
    requires forall i :: 0 <= i < |Run(events, world).tasks| ==> Run(events, world).tasks[i].executionId != executionId
    ensures FreshRun(longer, world)
    ensures var m, after := Run(events, world), Run(longer, world);
      && after.plan == m.plan && IsAtRest(after) && |after.tasks| == |m.tasks| + 1
      && (forall i :: 0 <= i < |m.tasks| ==>
            SameRequest(after.tasks[i], m.tasks[i]) && after.tasks[i].executionId == m.tasks[i].executionId)
      && CarriesOut(after.tasks[|m.tasks|], request) && after.tasks[|m.tasks|].executionId == executionId
  {
    hide Run, FreshRun, Text.Trim, IsActive;
    var m := Run(events, world);
    var e := Execute(true, request, executionId);
    RunGrows(events, e, world);
    longer := Finish(events + [e], world);
  }

  /** Three sequences on one plan: for a request, for another, and for the first again. */
  predicate IsThereAndBack(tasks: seq<Task>, plan: Plan) {
    && |tasks| == 3 && SameRequest(tasks[0], tasks[2]) && !SameRequest(tasks[0], tasks[1])
    && forall i :: 0 <= i < 3 ==> tasks[i].plan.shutdownId == plan.shutdownId
  }

  /** One plan, two requests: every plan without blockers has a run that carries out the first, then the second, then
      the first again. */
  lemma FirstThenOtherThenFirst(plan: Plan, world: World, a: string, b: string)
    requires plan.blockers == {} && Text.Trim(a) != "" && Text.Trim(b) != "" && Text.Trim(a) != Text.Trim(b)
    ensures exists events :: FreshRun(events, world) && IsThereAndBack(Run(events, world).tasks, plan)
  {
    hide FreshRun, Text.Trim, IsActive;
    var first := ExecuteRequest(plan.shutdownId, a, CONFIRMATION);
    var other := ExecuteRequest(plan.shutdownId, b, CONFIRMATION);
    StartIsFresh(plan, world);
    hide Run;
    var once := CarryOut([CreatePlan(plan)], world, first, "1");
    LastIsRecorded(once, world);
    var twice := CarryOut(once, world, other, "2");
    LastIsRecorded(twice, world);
    var thrice := CarryOut(twice, world, first, "3");
  }

  lemma StartIsFresh(plan: Plan, world: World)
    ensures FreshRun([CreatePlan(plan)], world)
    ensures Run([CreatePlan(plan)], world) == Manager(Some(plan), None, None, [])
  {
    assert [CreatePlan(plan)][..0] == [];
  }

  lemma LastIsRecorded(events: seq<Event>, world: World)
    requires FreshRun(events, world) && Run(events, world).tasks != []
    ensures var m := Run(events, world);
      m.execution.Some? && m.execution.value.requestId == m.tasks[|m.tasks| - 1].requestId
  {
    hide Run, FreshRun, InStep, IsPast, SameRequest;
    EveryRunIsGood(events, world);
  }
}
