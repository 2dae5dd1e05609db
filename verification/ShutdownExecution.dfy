/** Execution of a shutdown plan: what each step attempts, when the sequence stops, and how it ends. */
module ShutdownExecution {
  import opened Common
  import opened ShutdownPlan
  import StringOrder

  /** How the attempt on a provider in the step with the given number turns out.  A step tries a provider once. */
  type Outcomes = (nat, string) -> bool

  datatype Kind = Stop | ConfirmSafe

  datatype Attempt = Attempt(order: nat, kind: Kind, id: string)

  datatype ProviderResult = ProviderResult(id: string, confirmed: bool)

  datatype StepResult = StepResult(order: nat, action: Action, confirmed: bool, providers: seq<ProviderResult>)

  datatype Failure = ProviderFailure(action: Action, id: string) | StepFailure(action: Action)

  datatype RunState =
    | Accepted
    | Running
    | BlockedSafetySupportRetained
    | PartialFailureAwaitingSupervisor
    | AwaitingSupervisor

  datatype Advice = StopFabricThenManager | StopNothing

  // ----- one step

  predicate TriesProviders(action: Action) {
    action.RelinquishMotion? || action.ConfirmBasicSafe? || action.StopOrdinary? || action.StopBasic?
  }

  function KindOf(action: Action): Kind {
    if action.ConfirmBasicSafe? then ConfirmSafe else Stop
  }

  function AttemptsOf(step: Step): seq<Attempt> {
    if TriesProviders(step.action)
    then seq(|step.providerIds|, i requires 0 <= i < |step.providerIds| =>
               Attempt(step.order, KindOf(step.action), step.providerIds[i]))
    else []
  }

  predicate AllConfirmed(step: Step, ok: Outcomes) {
    forall id :: id in step.providerIds ==> ok(step.order, id)
  }

  predicate Fails(step: Step, ok: Outcomes) {
    step.action.Unsupported? || (TriesProviders(step.action) && !AllConfirmed(step, ok))
  }

  /** A failed step stops the sequence, except the ordinary stop. */
  predicate Blocks(step: Step, ok: Outcomes) {
    Fails(step, ok) && !step.action.StopOrdinary?
  }

  function ProviderResults(step: Step, ok: Outcomes): seq<ProviderResult> {
    seq(|step.providerIds|, i requires 0 <= i < |step.providerIds| =>
          ProviderResult(step.providerIds[i], ok(step.order, step.providerIds[i])))
  }

  function ResultOf(step: Step, ok: Outcomes): StepResult {
    StepResult(step.order, step.action, !Fails(step, ok),
               if TriesProviders(step.action) then ProviderResults(step, ok) else [])
  }

  function ProviderFailures(action: Action, providers: seq<ProviderResult>): seq<Failure> {
    if providers == [] then []
    else
      var n := |providers| - 1;
      ProviderFailures(action, providers[..n])
      + if providers[n].confirmed then [] else [ProviderFailure(action, providers[n].id)]
  }

  function FailuresOf(result: StepResult): seq<Failure> {
    ProviderFailures(result.action, result.providers)
    + if result.action.Unsupported? then [StepFailure(result.action)] else []
  }

  // ----- the sequence

  /** The number of steps carried out: up to and including the first that blocks. */
  function ReachedFrom(steps: seq<Step>, k: nat, ok: Outcomes): (r: nat)
    requires k <= |steps|
    ensures k <= r <= |steps|
    decreases |steps| - k
  {
    if k == |steps| then k else if Blocks(steps[k], ok) then k + 1 else ReachedFrom(steps, k + 1, ok)
  }

  function Reached(steps: seq<Step>, ok: Outcomes): (r: nat)
    ensures r <= |steps|
  {
    ReachedFrom(steps, 0, ok)
  }

  function AttemptsUpTo(steps: seq<Step>, n: nat): seq<Attempt>
    requires n <= |steps|
  {
    if n == 0 then [] else AttemptsUpTo(steps, n - 1) + AttemptsOf(steps[n - 1])
  }

  function ResultsUpTo(steps: seq<Step>, n: nat, ok: Outcomes): seq<StepResult>
    requires n <= |steps|
  {
    seq(n, i requires 0 <= i < n => ResultOf(steps[i], ok))
  }

  function FailuresUpTo(steps: seq<Step>, n: nat, ok: Outcomes): seq<Failure>
    requires n <= |steps|
  {
    if n == 0 then [] else FailuresUpTo(steps, n - 1, ok) + FailuresOf(ResultOf(steps[n - 1], ok))
  }

  function FinalState(steps: seq<Step>, ok: Outcomes): RunState {
    if exists s :: s in steps && Blocks(s, ok) then BlockedSafetySupportRetained
    else if exists s :: s in steps && Fails(s, ok) then PartialFailureAwaitingSupervisor
    else AwaitingSupervisor
  }

  /** The first blocking step, if any, is the last one reached. */
  lemma {:induction false} ReachedFromIs(steps: seq<Step>, k: nat, r: nat, ok: Outcomes)
    requires k <= r <= |steps| && (k < |steps| ==> k < r)
    requires forall j :: k <= j < r - 1 ==> !Blocks(steps[j], ok)
    requires k < r ==> r == |steps| || Blocks(steps[r - 1], ok)
    ensures ReachedFrom(steps, k, ok) == r
    decreases r - k
  {
    if k < r && !Blocks(steps[k], ok) {
      ReachedFromIs(steps, k + 1, r, ok);
    }
  }

  lemma {:induction false} ReachedStops(steps: seq<Step>, k: nat, ok: Outcomes)
    requires k <= |steps|
    ensures var r := ReachedFrom(steps, k, ok);
      && (forall j :: k <= j < r - 1 ==> !Blocks(steps[j], ok))
      && (k < |steps| ==> k < r)
      && (r < |steps| ==> Blocks(steps[r - 1], ok))
    decreases |steps| - k
  {
    if k < |steps| && !Blocks(steps[k], ok) {
      ReachedStops(steps, k + 1, ok);
    }
  }

  class Execution {
    var state: RunState
    var currentStep: Option<nat>
    var results: seq<StepResult>
    var failures: seq<Failure>
    var advice: Advice
    /** Every request sent to a provider, in order. */
    var attempts: seq<Attempt>

    constructor ()
      ensures state == Accepted && currentStep == None && results == [] && failures == []
      ensures advice == StopFabricThenManager && attempts == []
    {
      state, currentStep, results, failures, advice, attempts := Accepted, None, [], [], StopFabricThenManager, [];
    }

    /** `execute_shutdown_step` */
    method ExecuteStep(step: Step, ok: Outcomes) returns (result: StepResult, safetyBlocked: bool, hadFailure: bool)
      modifies this`attempts
      ensures attempts == old(attempts) + AttemptsOf(step)
      ensures result == ResultOf(step, ok) && safetyBlocked == Blocks(step, ok) && hadFailure == Fails(step, ok)
    {
      safetyBlocked, hadFailure := false, false;
      var providers := [];
      match step.action {
        case FenceAuthority | StopFabric | StopManagerLast =>
        case RelinquishMotion | StopOrdinary | StopBasic | ConfirmBasicSafe =>
          providers, hadFailure := TryProviders(step, ok);
          safetyBlocked := hadFailure && step.action != StopOrdinary;
        case Unsupported(_) =>
          hadFailure, safetyBlocked := true, true;
      }
      result := StepResult(step.order, step.action, !hadFailure, providers);
    }

    /** The loop of a step over its providers: each is tried, also after one has failed. */
    method TryProviders(step: Step, ok: Outcomes) returns (providers: seq<ProviderResult>, hadFailure: bool)
      requires TriesProviders(step.action)
      modifies this`attempts
      ensures attempts == old(attempts) + AttemptsOf(step)
      ensures providers == ProviderResults(step, ok) && hadFailure == !AllConfirmed(step, ok)
    {
      providers, hadFailure := [], false;
      ghost var before := attempts;
      for i := 0 to |step.providerIds|
        invariant attempts == before + AttemptsOf(step)[..i]
        invariant providers == ProviderResults(step, ok)[..i]
        invariant hadFailure == (exists id :: id in step.providerIds[..i] && !ok(step.order, id))
      {
        var id := step.providerIds[i];
        assert step.providerIds[..i + 1] == step.providerIds[..i] + [id];
        attempts := attempts + [Attempt(step.order, KindOf(step.action), id)];
        var confirmed := ok(step.order, id);
        hadFailure := hadFailure || !confirmed;
        providers := providers + [ProviderResult(id, confirmed)];
      }
      assert step.providerIds[..|step.providerIds|] == step.providerIds;
    }

    method NoteFailures(result: StepResult)
      modifies this`failures
      ensures failures == old(failures) + FailuresOf(result)
    {
      for i := 0 to |result.providers|
        invariant failures == old(failures) + ProviderFailures(result.action, result.providers[..i])
      {
        assert result.providers[..i + 1][..i] == result.providers[..i];
        if !result.providers[i].confirmed {
          failures := failures + [ProviderFailure(result.action, result.providers[i].id)];
        }
      }
      assert result.providers[..|result.providers|] == result.providers;
      if result.action.Unsupported? {
        failures := failures + [StepFailure(result.action)];
      }
    }

    /** `run_shutdown_execution` */
    method Run(steps: seq<Step>, ok: Outcomes)
      requires state == Accepted && results == [] && failures == [] && attempts == [] && advice == StopFabricThenManager
      modifies this
      ensures var r := Reached(steps, ok);
        && attempts == AttemptsUpTo(steps, r) && results == ResultsUpTo(steps, r, ok)
        && failures == FailuresUpTo(steps, r, ok)
      ensures state == FinalState(steps, ok) && currentStep == None
      ensures advice == if state == BlockedSafetySupportRetained then StopNothing else StopFabricThenManager
    {
      hide *;
      NothingYet(steps, ok);
      state := Running;
      var ordinaryFailure := false;
      for k := 0 to |steps|
        invariant state == Running && advice == StopFabricThenManager
        invariant attempts == AttemptsUpTo(steps, k) && results == ResultsUpTo(steps, k, ok)
        invariant failures == FailuresUpTo(steps, k, ok)
        invariant forall j :: 0 <= j < k ==> !Blocks(steps[j], ok)
        invariant ordinaryFailure == (exists j :: 0 <= j < k && Fails(steps[j], ok))
      {
        currentStep := Some(steps[k].order);
        var result, safetyBlocked, hadFailure := ExecuteStep(steps[k], ok);
        ordinaryFailure := ordinaryFailure || (hadFailure && !safetyBlocked);
        NoteFailures(result);
        results := results + [result];
        OneMore(steps, k, ok);
        if safetyBlocked {
          state, currentStep, advice := BlockedSafetySupportRetained, None, StopNothing;
          BlockedAt(steps, k, ok);
          return;
        }
      }
      state := if ordinaryFailure then PartialFailureAwaitingSupervisor else AwaitingSupervisor;
      currentStep := None;
      Completed(steps, ok);
    }
  }

  lemma NothingYet(steps: seq<Step>, ok: Outcomes)
    ensures AttemptsUpTo(steps, 0) == [] && ResultsUpTo(steps, 0, ok) == [] && FailuresUpTo(steps, 0, ok) == []
  {
  }

  lemma OneMore(steps: seq<Step>, k: nat, ok: Outcomes)
    requires k < |steps|
    ensures AttemptsUpTo(steps, k + 1) == AttemptsUpTo(steps, k) + AttemptsOf(steps[k])
    ensures ResultsUpTo(steps, k + 1, ok) == ResultsUpTo(steps, k, ok) + [ResultOf(steps[k], ok)]
    ensures FailuresUpTo(steps, k + 1, ok) == FailuresUpTo(steps, k, ok) + FailuresOf(ResultOf(steps[k], ok))
  {
    hide AttemptsOf, ResultOf, FailuresOf;
  }

  lemma BlockedAt(steps: seq<Step>, k: nat, ok: Outcomes)
    requires k < |steps| && Blocks(steps[k], ok) && forall j :: 0 <= j < k ==> !Blocks(steps[j], ok)
    ensures Reached(steps, ok) == k + 1 && FinalState(steps, ok) == BlockedSafetySupportRetained
  {
    hide Blocks;
    ReachedFromIs(steps, 0, k + 1, ok);
  }

  lemma Completed(steps: seq<Step>, ok: Outcomes)
    requires forall j :: 0 <= j < |steps| ==> !Blocks(steps[j], ok)
    ensures Reached(steps, ok) == |steps|
    ensures FinalState(steps, ok) == if exists j :: 0 <= j < |steps| && Fails(steps[j], ok)
                                     then PartialFailureAwaitingSupervisor else AwaitingSupervisor
  {
    hide Blocks, Fails;
    ReachedFromIs(steps, 0, |steps|, ok);
  }

  // ----- what holds of every run, whatever the providers answer

  /** A run that blocks has carried out a prefix of the steps ending at the blocking one; any other run has carried
      out all of them. */
  lemma RunIsPrefix(steps: seq<Step>, ok: Outcomes)
    ensures var r := Reached(steps, ok);
      && |ResultsUpTo(steps, r, ok)| == r
      && (forall j :: 0 <= j < r - 1 ==> !Blocks(steps[j], ok))
      && (FinalState(steps, ok) == BlockedSafetySupportRetained <==> r > 0 && Blocks(steps[r - 1], ok))
      && (FinalState(steps, ok) != BlockedSafetySupportRetained ==> r == |steps|)
  {
    ReachedStops(steps, 0, ok);
    hide Blocks;
    var r := Reached(steps, ok);
    if r == 0 || !Blocks(steps[r - 1], ok) {
      Completed(steps, ok);
    } else {
      BlockedAt(steps, r - 1, ok);
    }
  }

  /** What an attempt of a step looks like. */
  lemma AttemptOfStep(step: Step, i: nat)
    requires i < |AttemptsOf(step)|
    ensures TriesProviders(step.action) && i < |step.providerIds| == |AttemptsOf(step)|
    ensures AttemptsOf(step)[i] == Attempt(step.order, KindOf(step.action), step.providerIds[i])
  {
  }

  predicate Numbered(steps: seq<Step>) {
    forall s :: 0 <= s < |steps| ==> steps[s].order == s + 1
  }

  /** An attempt belongs to the step whose number it carries, and comes after every attempt of the earlier steps. */
  lemma {:induction false} AttemptsInOrder(steps: seq<Step>, n: nat, k: nat)
    requires n <= |steps| && Numbered(steps) && k < |AttemptsUpTo(steps, n)|
    ensures var a := AttemptsUpTo(steps, n)[k];
      && 1 <= a.order <= n && a in AttemptsOf(steps[a.order - 1])
      && forall s, b :: 0 <= s < a.order - 1 && b in AttemptsOf(steps[s]) ==> b in AttemptsUpTo(steps, n)[..k]
  {
    hide AttemptsOf;
    var before := AttemptsUpTo(steps, n - 1);
    if k < |before| {
      AttemptsInOrder(steps, n - 1, k);
      assert AttemptsUpTo(steps, n)[..k] == before[..k];
    } else {
      AttemptOfStep(steps[n - 1], k - |before|);
      assert AttemptsUpTo(steps, n)[k] == AttemptsOf(steps[n - 1])[k - |before|];
      assert AttemptsUpTo(steps, n)[..k] == before + AttemptsOf(steps[n - 1])[..k - |before|];
      forall s, b | 0 <= s < n - 1 && b in AttemptsOf(steps[s])
        ensures b in before
      {
        AttemptIsMade(steps, n - 1, s, b);
      }
    }
  }

  lemma {:induction false} AttemptIsMade(steps: seq<Step>, n: nat, s: nat, b: Attempt)
    requires s < n <= |steps| && b in AttemptsOf(steps[s])
    ensures b in AttemptsUpTo(steps, n)
  {
    if s < n - 1 {
      AttemptIsMade(steps, n - 1, s, b);
    }
  }

  lemma AttemptOfProvider(step: Step, id: string)
    requires TriesProviders(step.action) && id in step.providerIds
    ensures Attempt(step.order, KindOf(step.action), id) in AttemptsOf(step)
  {
    var i :| 0 <= i < |step.providerIds| && step.providerIds[i] == id;
    assert AttemptsOf(step)[i] == Attempt(step.order, KindOf(step.action), id);
  }

  /** Support is withdrawn last: a stop goes to a provider that holds the arm only after every one that moves it, and
      does not hold it, was asked to stop and confirmed, and every one that holds it was asked for its safe state and
      confirmed. */
  lemma BasicStopsLast(plan: Plan, configs: Configs, reports: Reports, running: set<string>, ok: Outcomes, k: nat)
    requires IsPlanFor(plan, configs, reports, running)
    requires k < |AttemptsUpTo(plan.steps, Reached(plan.steps, ok))|
    requires var a := AttemptsUpTo(plan.steps, Reached(plan.steps, ok))[k]; a.kind == Stop && HoldsArm(reports, a.id)
    ensures var earlier := AttemptsUpTo(plan.steps, Reached(plan.steps, ok))[..k];
      && (forall m :: m in configs && MovesArm(reports, m) && !HoldsArm(reports, m) ==>
            Attempt(2, Stop, m) in earlier && ok(2, m))
      && (forall b :: b in configs && HoldsArm(reports, b) ==> Attempt(3, ConfirmSafe, b) in earlier && ok(3, b))
  {
    PlanShape(plan, configs, reports, running);
    MembersByMarks(configs, reports);
    hide *;
    var steps, r := plan.steps, Reached(plan.steps, ok);
    var a := AttemptsUpTo(steps, r)[k];
    var earlier := AttemptsUpTo(steps, r)[..k];
    AttemptsInOrder(steps, r, k);
    AttemptedIsConfigured(plan, configs, reports, running, a);
    BasicStopIsStepFive(plan, configs, reports, running, a);
    RunIsPrefix(steps, ok);
    assert !Blocks(steps[1], ok) && !Blocks(steps[2], ok);
    forall m | m in Members(configs, reports, Motion)
      ensures Attempt(2, Stop, m) in earlier && ok(2, m)
    {
      UnblockedAttempt(steps[1], m, ok);
    }
    forall b | b in Members(configs, reports, Basic)
      ensures Attempt(3, ConfirmSafe, b) in earlier && ok(3, b)
    {
      UnblockedAttempt(steps[2], b, ok);
    }
  }

  lemma AttemptedIsConfigured(plan: Plan, configs: Configs, reports: Reports, running: set<string>, a: Attempt)
    requires IsPlanFor(plan, configs, reports, running)
    requires 1 <= a.order <= 7 && a in AttemptsOf(plan.steps[a.order - 1])
    ensures a.id in configs
  {
    var step := plan.steps[a.order - 1];
    var i :| 0 <= i < |AttemptsOf(step)| && AttemptsOf(step)[i] == a;
    AttemptOfStep(step, i);
    hide ClassOf, AttemptsOf;
    assert a.id in step.providerIds;
  }

  lemma PlanShape(plan: Plan, configs: Configs, reports: Reports, running: set<string>)
    requires IsPlanFor(plan, configs, reports, running)
    ensures |plan.steps| == 7 && Numbered(plan.steps)
    ensures plan.steps[1].action == RelinquishMotion && plan.steps[2].action == ConfirmBasicSafe
    ensures forall id :: id in plan.steps[1].providerIds <==> id in Members(configs, reports, Motion)
    ensures forall id :: id in plan.steps[2].providerIds <==> id in Members(configs, reports, Basic)
  {
    hide Members;
  }

  lemma UnblockedAttempt(step: Step, id: string, ok: Outcomes)
    requires step.action == RelinquishMotion || step.action == ConfirmBasicSafe
    requires !Blocks(step, ok) && id in step.providerIds
    ensures Attempt(step.order, if step.action == ConfirmBasicSafe then ConfirmSafe else Stop, id) in AttemptsOf(step)
    ensures ok(step.order, id)
  {
    AttemptOfProvider(step, id);
  }

  lemma BasicStopIsStepFive(plan: Plan, configs: Configs, reports: Reports, running: set<string>, a: Attempt)
    requires IsPlanFor(plan, configs, reports, running)
    requires 1 <= a.order <= 7 && a in AttemptsOf(plan.steps[a.order - 1])
    requires a.kind == Stop && a.id in Members(configs, reports, Basic)
    ensures a.order == 5
  {
    var step := plan.steps[a.order - 1];
    var i :| 0 <= i < |AttemptsOf(step)| && AttemptsOf(step)[i] == a;
    AttemptOfStep(step, i);
    hide ClassOf, AttemptsOf;
    assert a.id in step.providerIds;
  }

  /** The run is BLOCKED exactly when a provider that moves the arm, and does not hold it, does not confirm its stop, or
      one that holds it does not confirm its safe state or its stop; it is PARTIAL exactly when none of those fails and
      the stop of any other provider does. */
  lemma EndsAs(plan: Plan, configs: Configs, reports: Reports, running: set<string>, ok: Outcomes)
    requires IsPlanFor(plan, configs, reports, running)
    ensures
      var unsafe :=
        || (exists m :: m in configs && MovesArm(reports, m) && !HoldsArm(reports, m) && !ok(2, m))
        || (exists b :: b in configs && HoldsArm(reports, b) && (!ok(3, b) || !ok(5, b)));
      var ordinary := exists o :: o in configs && !MovesArm(reports, o) && !HoldsArm(reports, o) && !ok(4, o);
      FinalState(plan.steps, ok) ==
        if unsafe then BlockedSafetySupportRetained
        else if ordinary then PartialFailureAwaitingSupervisor
        else AwaitingSupervisor
  {
    MembersByMarks(configs, reports);
    FailingSteps(plan.steps, ok);
    hide Fails, Blocks, ClassOf, FinalState, HoldsArm, MovesArm;
    ClassFails(plan.steps[1], Members(configs, reports, Motion), ok);
    ClassFails(plan.steps[2], Members(configs, reports, Basic), ok);
    ClassFails(plan.steps[3], Members(configs, reports, Ordinary), ok);
    ClassFails(plan.steps[4], Members(configs, reports, Basic), ok);
    hide Members, AllBlockers;
  }

  lemma ClassFails(step: Step, members: set<string>, ok: Outcomes)
    requires TriesProviders(step.action) && Lists(step.providerIds, members)
    ensures Fails(step, ok) <==> exists id :: id in members && !ok(step.order, id)
  {
  }

  lemma FailingSteps(steps: seq<Step>, ok: Outcomes)
    requires |steps| == 7 && steps == StepsFor(steps[1].providerIds, steps[2].providerIds, steps[3].providerIds)
    ensures FinalState(steps, ok) ==
        if Fails(steps[1], ok) || Fails(steps[2], ok) || Fails(steps[4], ok) then BlockedSafetySupportRetained
        else if Fails(steps[3], ok) then PartialFailureAwaitingSupervisor
        else AwaitingSupervisor
  {
    hide AllConfirmed;
    assert steps[1] in steps && steps[2] in steps && steps[3] in steps && steps[4] in steps;
    forall s | s in steps && Fails(s, ok)
      ensures s == steps[1] || s == steps[2] || s == steps[3] || s == steps[4]
    {
    }
  }

  /** No request is made twice. */
  lemma NoAttemptTwice(plan: Plan, configs: Configs, reports: Reports, running: set<string>, ok: Outcomes, i: nat,
                       j: nat)
    requires IsPlanFor(plan, configs, reports, running)
    requires i < j < |AttemptsUpTo(plan.steps, Reached(plan.steps, ok))|
    ensures AttemptsUpTo(plan.steps, Reached(plan.steps, ok))[i] != AttemptsUpTo(plan.steps, Reached(plan.steps, ok))[j]
  {
    AttemptsDiffer(plan.steps, Reached(plan.steps, ok), i, j);
  }

  lemma {:induction false} AttemptsDiffer(steps: seq<Step>, n: nat, i: nat, j: nat)
    requires n <= |steps| && Numbered(steps) && i < j < |AttemptsUpTo(steps, n)|
    requires forall s :: s in steps ==> StringOrder.SortedStrings(s.providerIds)
    ensures AttemptsUpTo(steps, n)[i] != AttemptsUpTo(steps, n)[j]
  {
    hide AttemptsOf, StringOrder.SortedStrings;
    var before, step := AttemptsUpTo(steps, n - 1), steps[n - 1];
    if j < |before| {
      AttemptsDiffer(steps, n - 1, i, j);
    } else {
      AttemptOfStep(step, j - |before|);
      if i < |before| {
        AttemptsInOrder(steps, n - 1, i);
      } else {
        AttemptOfStep(step, i - |before|);
        SortedDiffer(step.providerIds, i - |before|, j - |before|);
      }
    }
  }

  lemma SortedDiffer(ids: seq<string>, i: nat, j: nat)
    requires StringOrder.SortedStrings(ids) && i < j < |ids|
    ensures ids[i] != ids[j]
  {
    StringOrder.LessTotal(ids[i], ids[j]);
  }

  // ----- what the record tells

  /** The request was sent in the step and not confirmed. */
  ghost predicate WentUnconfirmed(step: Step, ok: Outcomes, id: string) {
    exists a :: a in AttemptsOf(step) && a.id == id && !ok(a.order, a.id)
  }

  lemma {:induction false} ProviderFailuresAre(action: Action, providers: seq<ProviderResult>, id: string)
    ensures StepFailure(action) !in ProviderFailures(action, providers)
    ensures ProviderFailure(action, id) in ProviderFailures(action, providers) <==>
      ProviderResult(id, false) in providers
    ensures forall f :: f in ProviderFailures(action, providers) ==> f.action == action
  {
    if providers != [] {
      ProviderFailuresAre(action, providers[..|providers| - 1], id);
    }
  }

  lemma UnconfirmedIff(step: Step, ok: Outcomes, id: string)
    ensures ProviderResult(id, false) in ResultOf(step, ok).providers <==> WentUnconfirmed(step, ok, id)
  {
    if WentUnconfirmed(step, ok, id) {
      var a :| a in AttemptsOf(step) && a.id == id && !ok(a.order, a.id);
      var i :| 0 <= i < |AttemptsOf(step)| && AttemptsOf(step)[i] == a;
      assert ResultOf(step, ok).providers[i] == ProviderResult(id, false);
    }
    if ProviderResult(id, false) in ResultOf(step, ok).providers {
      var i :| 0 <= i < |step.providerIds| && ResultOf(step, ok).providers[i] == ProviderResult(id, false);
      assert AttemptsOf(step)[i] in AttemptsOf(step);
    }
  }

  /** The failures recorded for providers are exactly the requests sent and not confirmed. */
  lemma {:induction false} FailureIff(steps: seq<Step>, n: nat, ok: Outcomes, action: Action, id: string)
    requires n <= |steps|
    ensures ProviderFailure(action, id) in FailuresUpTo(steps, n, ok) <==>
      exists k :: 0 <= k < n && steps[k].action == action && WentUnconfirmed(steps[k], ok, id)
  {
    hide WentUnconfirmed, ProviderFailures, AttemptsOf, ProviderResults;
    if n > 0 {
      FailureIff(steps, n - 1, ok, action, id);
      var step := steps[n - 1];
      UnconfirmedIff(step, ok, id);
      ProviderFailuresAre(step.action, ResultOf(step, ok).providers, id);
    }
  }

  lemma StepFailsIff(step: Step, ok: Outcomes)
    ensures FailuresOf(ResultOf(step, ok)) == [] <==> !Fails(step, ok)
  {
    var providers := ResultOf(step, ok).providers;
    hide ProviderFailures;
    if step.action.Unsupported? {
      assert StepFailure(step.action) in FailuresOf(ResultOf(step, ok));
    } else if TriesProviders(step.action) {
      if id :| id in step.providerIds && !ok(step.order, id) {
        var i :| 0 <= i < |step.providerIds| && step.providerIds[i] == id;
        assert providers[i] == ProviderResult(id, false);
        ProviderFailuresAre(step.action, providers, id);
      }
      if AllConfirmed(step, ok) {
        AllConfirmedFailNone(step.action, providers);
      }
    } else {
      AllConfirmedFailNone(step.action, providers);
    }
  }

  lemma {:induction false} AllConfirmedFailNone(action: Action, providers: seq<ProviderResult>)
    requires forall p :: p in providers ==> p.confirmed
    ensures ProviderFailures(action, providers) == []
  {
    if providers != [] {
      AllConfirmedFailNone(action, providers[..|providers| - 1]);
    }
  }

  lemma {:induction false} NoFailuresIff(steps: seq<Step>, n: nat, ok: Outcomes)
    requires n <= |steps|
    ensures FailuresUpTo(steps, n, ok) == [] <==> forall k :: 0 <= k < n ==> !Fails(steps[k], ok)
  {
    hide Fails, FailuresOf, ResultOf;
    if n > 0 {
      NoFailuresIff(steps, n - 1, ok);
      StepFailsIff(steps[n - 1], ok);
    }
  }

  /** A run ends awaiting the supervisor, without a partial failure, exactly when it has recorded no failure. */
  lemma CleanIff(steps: seq<Step>, ok: Outcomes)
    ensures FailuresUpTo(steps, Reached(steps, ok), ok) == [] <==> FinalState(steps, ok) == AwaitingSupervisor
  {
    var r := Reached(steps, ok);
    NoFailuresIff(steps, r, ok);
    RunIsPrefix(steps, ok);
    BlockingFails(steps, ok);
    hide Blocks, Fails, FailuresUpTo, Reached, ResultsUpTo;
    if FinalState(steps, ok) == PartialFailureAwaitingSupervisor {
      var s :| s in steps && Fails(s, ok);
      var k :| 0 <= k < |steps| && steps[k] == s;
    }
    if FinalState(steps, ok) == AwaitingSupervisor {
      assert forall k :: 0 <= k < r ==> steps[k] in steps;
    }
  }

  lemma BlockingFails(steps: seq<Step>, ok: Outcomes)
    ensures forall k :: 0 <= k < |steps| && Blocks(steps[k], ok) ==> Fails(steps[k], ok)
  {
  }

  /** The result of a step names the step, lists its requests in order with how each turned out, and is confirmed
      exactly when nothing of it failed. */
  lemma ResultTells(steps: seq<Step>, n: nat, ok: Outcomes, k: nat)
    requires k < n <= |steps|
    ensures var result, attempts := ResultsUpTo(steps, n, ok)[k], AttemptsOf(steps[k]);
      && result.order == steps[k].order && result.action == steps[k].action
      && (result.confirmed <==> FailuresOf(result) == [])
      && |result.providers| == |attempts|
      && forall i :: 0 <= i < |attempts| ==>
           result.providers[i] == ProviderResult(attempts[i].id, ok(attempts[i].order, attempts[i].id))
  {
    StepFailsIff(steps[k], ok);
    hide FailuresOf, Fails;
  }
}
