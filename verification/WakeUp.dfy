/** The wait loop of the transform query against concurrent publishers and the clock, as a state machine over their
    steps.  A waiter arms its notification, resolves under the read lock, measures the time it has left and parks for
    that long or until a notification; a publisher inserts a batch under the write lock, unlocks and then notifies,
    also when an observation of the batch is in error. */
module WakeUp {
  import opened Common

  datatype Verdict = AcceptedTransform | AcceptedOther | Stale | Invalid

  datatype Publisher =
    | Inserting(rest: seq<Verdict>, transformAccepted: bool)
    | Unlocked(transformAccepted: bool)
    | Returned

  datatype Phase =
    | Looping               // about to arm
    | Armed                 // notified() and enable() done
    | NeedsBracket(seen: nat)  // resolved, and the answer may still improve
    | Measured(seen: nat, remaining: nat)  // the deadline was ahead by this much
    | Parked(seen: nat, until: nat)  // in timeout(remaining, notified)
    | Answered(satisfied: bool, seen: nat, at: nat)  // returned the outcome resolved at `seen`

  datatype Waiter = Waiter(phase: Phase, signalled: bool, deadline: nat)

  /** `version` counts the accepted transforms; `writer` holds the write lock. */
  datatype State = State(
    version: nat,
    writer: Option<nat>, publishers: map<nat, Publisher>,
    waiters: map<nat, Waiter>,
    clock: nat)

  datatype Step =
    | Lock(p: nat, batch: seq<Verdict>)
    | Insert(p: nat)
    | Unlock(p: nat)
    | Notify(p: nat)
    | Tick(time: nat)
    | Arrive(w: nat, waitMs: nat)
    | Arm(w: nat)
    | Resolve(w: nat, satisfied: bool)
    | Measure(w: nat)
    | Park(w: nat)
    | Wake(w: nat)
    | TimeOut(w: nat)

  const INITIAL := State(0, None, map[], map[], 0)

  const LONGEST_WAIT_MS: nat := 30_000

  /** Between resolving and returning or looping. */
  predicate Waits(p: Phase) {
    p.NeedsBracket? || p.Measured? || p.Parked?
  }

  predicate Registered(w: Waiter) {
    w.phase.Armed? || Waits(w.phase)
  }

  function Signal(w: Waiter): Waiter {
    if Registered(w) then w.(signalled := true) else w
  }

  predicate Enabled(s: State, step: Step) {
    match step
    case Lock(p, _) => s.writer.None? && p !in s.publishers
    case Insert(p) => p in s.publishers && s.publishers[p].Inserting? && s.publishers[p].rest != []
                      && s.publishers[p].rest[0] != Invalid
    case Unlock(p) => p in s.publishers && s.publishers[p].Inserting?
                      && (s.publishers[p].rest == [] || s.publishers[p].rest[0] == Invalid)
    case Notify(p) => p in s.publishers && s.publishers[p].Unlocked?
    case Tick(_) => true
    case Arrive(w, waitMs) => w !in s.waiters && waitMs > 0
    case Arm(w) => w in s.waiters && s.waiters[w].phase.Looping?
    case Resolve(w, _) => s.writer.None? && w in s.waiters && s.waiters[w].phase.Armed?
    case Measure(w) => w in s.waiters && s.waiters[w].phase.NeedsBracket?
    case Park(w) => w in s.waiters && s.waiters[w].phase.Measured?
    case Wake(w) => w in s.waiters && s.waiters[w].phase.Parked? && s.waiters[w].signalled
    case TimeOut(w) =>
      w in s.waiters && s.waiters[w].phase.Parked? && !s.waiters[w].signalled && s.waiters[w].phase.until <= s.clock
  }

  function Enter(s: State, w: nat, phase: Phase): State
    requires w in s.waiters
  {
    s.(waiters := s.waiters[w := s.waiters[w].(phase := phase)])
  }

  function Apply(s: State, step: Step): State
    requires Enabled(s, step)
  {
    match step
    case Lock(p, batch) => s.(writer := Some(p), publishers := s.publishers[p := Inserting(batch, false)])
    case Insert(p) =>
      var pub := s.publishers[p];
      var accepted := pub.rest[0] == AcceptedTransform;
      s.(version := if accepted then s.version + 1 else s.version,
         publishers := s.publishers[p := Inserting(pub.rest[1..], pub.transformAccepted || accepted)])
    case Unlock(p) =>
      s.(writer := None, publishers := s.publishers[p := Unlocked(s.publishers[p].transformAccepted)])
    case Notify(p) =>
      var after := s.(publishers := s.publishers[p := Returned]);
      if s.publishers[p].transformAccepted
      then after.(waiters := map w | w in s.waiters :: Signal(s.waiters[w]))
      else after
    case Tick(time) => s.(clock := s.clock + time)
    case Arrive(w, waitMs) =>
      var wait := if waitMs < LONGEST_WAIT_MS then waitMs else LONGEST_WAIT_MS;
      s.(waiters := s.waiters[w := Waiter(Looping, false, s.clock + wait)])
    case Arm(w) => s.(waiters := s.waiters[w := Waiter(Armed, false, s.waiters[w].deadline)])
    case Resolve(w, satisfied) =>
      Enter(s, w, if satisfied then Answered(true, s.version, s.clock) else NeedsBracket(s.version))
    case Measure(w) =>
      var Waiter(phase, _, deadline) := s.waiters[w];
      Enter(s, w, if s.clock >= deadline then Answered(false, phase.seen, s.clock)
                  else Measured(phase.seen, deadline - s.clock))
    case Park(w) =>
      var phase := s.waiters[w].phase;
      Enter(s, w, Parked(phase.seen, s.clock + phase.remaining))
    case Wake(w) => s.(waiters := s.waiters[w := Waiter(Looping, false, s.waiters[w].deadline)])
    case TimeOut(w) => Enter(s, w, Answered(false, s.waiters[w].phase.seen, s.clock))
  }

  ghost predicate Follows(s: State, step: Step, t: State) {
    Enabled(s, step) && t == Apply(s, step)
  }

  /** The states some interleaving reaches. */
  ghost predicate Reaches(steps: seq<Step>, s: State)
    decreases |steps|
  {
    if steps == [] then s == INITIAL
    else
      var earlier, last := steps[..|steps| - 1], steps[|steps| - 1];
      exists before :: Reaches(earlier, before) && Follows(before, last, s)
  }

  predicate Owes(p: Publisher) {
    !p.Returned? && p.transformAccepted
  }

  ghost predicate SomeoneOwes(s: State) {
    exists p :: p in s.publishers && Owes(s.publishers[p])
  }

  /** What the waiter last resolved is older than the store. */
  predicate Missed(s: State, w: Waiter) {
    Waits(w.phase) && w.phase.seen < s.version
  }

  /** Only the holder of the write lock is inserting. */
  ghost predicate LockHeld(s: State) {
    forall p :: p in s.publishers && s.publishers[p].Inserting? ==> s.writer == Some(p)
  }

  ghost predicate NothingLost(s: State) {
    forall w :: w in s.waiters && Missed(s, s.waiters[w]) ==> s.waiters[w].signalled || SomeoneOwes(s)
  }

  ghost predicate SeenIsPast(s: State) {
    forall w :: w in s.waiters && Waits(s.waiters[w].phase) ==> s.waiters[w].phase.seen <= s.version
  }

  lemma StepLosesNothing(s: State, step: Step)
    requires LockHeld(s) && NothingLost(s) && SeenIsPast(s) && Enabled(s, step)
    ensures var t := Apply(s, step); LockHeld(t) && NothingLost(t) && SeenIsPast(t)
  {
    var t := Apply(s, step);
    match step {
      case Lock(p, batch) => KeepsOwing(s, t, p);
      case Insert(p) =>
        if s.publishers[p].rest[0] == AcceptedTransform {
          assert Owes(t.publishers[p]);
        } else {
          KeepsOwing(s, t, p);
        }
      case Unlock(p) => KeepsOwing(s, t, p);
      case Notify(p) =>
        if !s.publishers[p].transformAccepted {
          KeepsOwing(s, t, p);
        }
      case _ => assert t.publishers == s.publishers;
    }
  }

  lemma KeepsOwing(s: State, t: State, p: nat)
    requires p in t.publishers && forall r :: r in s.publishers && r != p ==>
      r in t.publishers && t.publishers[r] == s.publishers[r]
    requires p in s.publishers && Owes(s.publishers[p]) ==> Owes(t.publishers[p])
    ensures SomeoneOwes(s) ==> SomeoneOwes(t)
  {
    if r :| r in s.publishers && Owes(s.publishers[r]) {
      assert r in t.publishers && Owes(t.publishers[r]);
    }
  }

  /** No lost wake-up: in every reachable state a waiter that missed an accepted transform has been signalled, or
      some publisher still owes its notification. */
  lemma {:induction false} NoLostWakeUp(steps: seq<Step>, s: State)
    requires Reaches(steps, s)
    ensures LockHeld(s) && NothingLost(s) && SeenIsPast(s)
    decreases |steps|
  {
    if steps != [] {
      var n := |steps| - 1;
      var before :| Reaches(steps[..n], before) && Follows(before, steps[n], s);
      NoLostWakeUp(steps[..n], before);
      StepLosesNothing(before, steps[n]);
    }
  }

  /** The steps a publisher has left. */
  function Remaining(pub: Publisher, p: nat): seq<Step> {
    match pub
    case Returned => []
    case Unlocked(_) => [Notify(p)]
    case Inserting(rest, _) => RemainingInserts(rest, p)
  }

  function RemainingInserts(rest: seq<Verdict>, p: nat): seq<Step> {
    if rest == [] || rest[0] == Invalid then [Unlock(p), Notify(p)]
    else [Insert(p)] + RemainingInserts(rest[1..], p)
  }

  ghost predicate LeadsTo(s: State, steps: seq<Step>, t: State)
    decreases |steps|
  {
    if steps == [] then t == s else Enabled(s, steps[0]) && LeadsTo(Apply(s, steps[0]), steps[1..], t)
  }

  /** An owing publisher is never stuck, and running it to its end signals every registered waiter. */
  lemma {:induction false} OwingPublisherSignals(s: State, p: nat) returns (t: State)
    requires p in s.publishers && Owes(s.publishers[p])
    ensures LeadsTo(s, Remaining(s.publishers[p], p), t) && t.waiters.Keys == s.waiters.Keys
    ensures forall w :: w in s.waiters && Registered(s.waiters[w]) ==> t.waiters[w] == s.waiters[w].(signalled := true)
    decreases match s.publishers[p] case Inserting(rest, _) => |rest| + 1 case _ => 0
  {
    match s.publishers[p] {
      case Unlocked(_) =>
        t := Apply(s, Notify(p));
        assert LeadsTo(t, [], t);
      case Inserting(rest, _) =>
        var step := if rest == [] || rest[0] == Invalid then Unlock(p) else Insert(p);
        var u := Apply(s, step);
        t := OwingPublisherSignals(u, p);
        assert Remaining(s.publishers[p], p)[1..] == Remaining(u.publishers[p], p);
    }
  }

  /** So a parked waiter that missed a transform wakes: it is signalled, or some publisher's remaining steps signal
      it. */
  lemma MissedWaiterWakes(steps: seq<Step>, s: State, w: nat)
    requires Reaches(steps, s) && w in s.waiters && s.waiters[w].phase.Parked? && Missed(s, s.waiters[w])
    ensures Enabled(s, Wake(w)) || exists p, t ::
        && p in s.publishers && LeadsTo(s, Remaining(s.publishers[p], p), t) && Enabled(t, Wake(w))
  {
    NoLostWakeUp(steps, s);
    if !s.waiters[w].signalled {
      var p :| p in s.publishers && Owes(s.publishers[p]);
      var t := OwingPublisherSignals(s, p);
      assert Enabled(t, Wake(w));
    }
  }

  /** With no publisher at work, a parked waiter without a signal has seen every accepted transform. */
  lemma QuietMeansSeen(steps: seq<Step>, s: State, w: nat)
    requires Reaches(steps, s) && w in s.waiters && s.waiters[w].phase.Parked? && !s.waiters[w].signalled
    requires forall p :: p in s.publishers ==> s.publishers[p].Returned?
    ensures s.waiters[w].phase.seen == s.version
  {
    NoLostWakeUp(steps, s);
  }

  /** The publishers that still owe a notification. */
  function Owing(s: State): set<nat> {
    set p | p in s.publishers && Owes(s.publishers[p])
  }

  ghost predicate IsEarned(s: State) {
    && |Owing(s)| <= s.version
    && forall w :: w in s.waiters && s.waiters[w].signalled ==> s.version > 0
  }

  lemma OwingAfter(s: State, step: Step)
    requires Enabled(s, step)
    ensures var t := Apply(s, step);
      && Owing(t) <= Owing(s) + (if t.version > s.version && step.Insert? then {step.p} else {})
      && s.version <= t.version <= s.version + 1 && (t.version > s.version ==> step.Insert?)
  {
  }

  lemma SignalledAfter(s: State, step: Step, w: nat)
    requires Enabled(s, step) && w in Apply(s, step).waiters && Apply(s, step).waiters[w].signalled
    ensures (w in s.waiters && s.waiters[w].signalled) || Owing(s) != {}
  {
    if step.Notify? && s.publishers[step.p].transformAccepted {
      assert step.p in Owing(s);
    }
  }

  lemma NoMore(a: set<nat>, b: set<nat>)
    requires a <= b
    ensures |a| <= |b|
  {
    assert |b| == |a| + |b - a|;
  }

  lemma StepEarns(s: State, step: Step)
    requires IsEarned(s) && Enabled(s, step)
    ensures IsEarned(Apply(s, step))
  {
    hide Enabled, Apply, Owing;
    var t := Apply(s, step);
    OwingAfter(s, step);
    NoMore(Owing(t), Owing(s) + (if t.version > s.version && step.Insert? then {step.p} else {}));
    forall w | w in t.waiters && t.waiters[w].signalled
      ensures t.version > 0
    {
      SignalledAfter(s, step, w);
    }
  }

  /** Only an accepted transform wakes: no more publishers ever owe a notification than transforms were accepted, and no
      waiter is signalled before the first. */
  lemma {:induction false} SignalsAreEarned(steps: seq<Step>, s: State)
    requires Reaches(steps, s)
    ensures IsEarned(s)
    decreases |steps|
  {
    if steps != [] {
      var n := |steps| - 1;
      var before :| Reaches(steps[..n], before) && Follows(before, steps[n], s);
      SignalsAreEarned(steps[..n], before);
      StepEarns(before, steps[n]);
    }
  }

  // ----- the deadline

  /** What a waiter has measured, and the timer it is parked on, reach its deadline; an outcome that still needed a
      bracket was returned at the deadline or later. */
  predicate IsTimely(w: Waiter, clock: nat) {
    match w.phase
    case Measured(_, remaining) => clock + remaining >= w.deadline
    case Parked(_, until) => until >= w.deadline
    case Answered(satisfied, _, at) => at <= clock && (satisfied || at >= w.deadline)
    case _ => true
  }

  ghost predicate OnlyLateIsUnsatisfied(s: State) {
    forall w :: w in s.waiters ==> IsTimely(s.waiters[w], s.clock)
  }

  lemma StepAnswersLate(s: State, step: Step)
    requires OnlyLateIsUnsatisfied(s) && Enabled(s, step)
    ensures OnlyLateIsUnsatisfied(Apply(s, step))
  {
  }

  /** In every reachable state: an extrapolated or missing answer was returned only at or after the waiter's deadline;
      before it a waiter returns nothing but an outcome that needs no bracket. */
  lemma {:induction false} UnsatisfiedOnlyAtDeadline(steps: seq<Step>, s: State)
    requires Reaches(steps, s)
    ensures OnlyLateIsUnsatisfied(s)
    decreases |steps|
  {
    if steps != [] {
      var n := |steps| - 1;
      var before :| Reaches(steps[..n], before) && Follows(before, steps[n], s);
      UnsatisfiedOnlyAtDeadline(steps[..n], before);
      StepAnswersLate(before, steps[n]);
    }
  }

  lemma StepKeepsDeadline(s: State, step: Step, w: nat)
    requires Enabled(s, step) && w in s.waiters
    ensures w in Apply(s, step).waiters && Apply(s, step).waiters[w].deadline == s.waiters[w].deadline
  {
  }

  lemma ArriveIs(s: State, w: nat, waitMs: nat)
    requires Enabled(s, Arrive(w, waitMs))
    ensures var t := Apply(s, Arrive(w, waitMs));
      && w in t.waiters
      && t.waiters[w] == Waiter(Looping, false, s.clock + if waitMs <= 30_000 then waitMs else 30_000)
  {
  }

  /** A waiter's deadline is as far from its arrival as it asked to wait, thirty seconds at most, whatever happens
      since; so when it answers an outcome that still needed a bracket, it has waited that long. */
  lemma {:induction false} WaitsAsAsked(steps: seq<Step>, k: nat, w: nat, waitMs: nat, before: State, s: State)
    requires k < |steps| && steps[k] == Arrive(w, waitMs) && Reaches(steps[..k], before) && Reaches(steps, s)
    ensures w in s.waiters
    ensures s.waiters[w].deadline - before.clock == if waitMs <= 30_000 then waitMs else 30_000
    ensures s.waiters[w].phase.Answered? && !s.waiters[w].phase.satisfied ==>
        s.waiters[w].phase.at - before.clock >= if waitMs <= 30_000 then waitMs else 30_000
    decreases |steps|
  {
    hide Enabled, Apply;
    var n := |steps| - 1;
    UnsatisfiedOnlyAtDeadline(steps, s);
    var earlier :| Reaches(steps[..n], earlier) && Follows(earlier, steps[n], s);
    if k < n {
      assert steps[..n][..k] == steps[..k];
      WaitsAsAsked(steps[..n], k, w, waitMs, before, earlier);
      StepKeepsDeadline(earlier, steps[n], w);
    } else {
      OneState(steps[..k], before, earlier);
      ArriveIs(before, w, waitMs);
    }
  }

  // The steps determine the state.
  lemma {:induction false} OneState(steps: seq<Step>, s: State, t: State)
    requires Reaches(steps, s) && Reaches(steps, t)
    ensures s == t
    decreases |steps|
  {
    if steps != [] {
      var n := |steps| - 1;
      var u :| Reaches(steps[..n], u) && Follows(u, steps[n], s);
      var v :| Reaches(steps[..n], v) && Follows(v, steps[n], t);
      OneState(steps[..n], u, v);
    }
  }

  /** A waiter whose timer runs out returns an outcome that no finished publisher has outdated: it is the latest, or
      some publisher still owes its notification. */
  lemma TimedOutIsCurrent(steps: seq<Step>, s: State, w: nat)
    requires Reaches(steps, s) && Enabled(s, TimeOut(w))
    ensures s.waiters[w].phase.seen == s.version || SomeoneOwes(s)
  {
    NoLostWakeUp(steps, s);
  }

  predicate IsOwn(step: Step, w: nat) {
    || step.Tick? || (step.Arm? && step.w == w) || (step.Resolve? && step.w == w) || (step.Measure? && step.w == w)
    || (step.Park? && step.w == w) || (step.Wake? && step.w == w) || (step.TimeOut? && step.w == w)
  }

  ghost predicate Ends(s: State, own: seq<Step>, w: nat) {
    && (forall i :: 0 <= i < |own| ==> IsOwn(own[i], w))
    && exists t :: LeadsTo(s, own, t) && w in t.waiters && t.waiters[w].phase.Answered?
  }

  lemma EndsAfter(s: State, step: Step, own: seq<Step>, w: nat)
    requires Enabled(s, step) && IsOwn(step, w) && Ends(Apply(s, step), own, w)
    ensures Ends(s, [step] + own, w)
  {
    hide Enabled, Apply, IsOwn;
    assert ([step] + own)[1..] == own;
    var t :| LeadsTo(Apply(s, step), own, t) && w in t.waiters && t.waiters[w].phase.Answered?;
    assert LeadsTo(s, [step] + own, t);
  }

  // Past its deadline a waiter answers as soon as it measures.
  lemma {:induction false} LateEnds(s: State, w: nat) returns (own: seq<Step>)
    requires w in s.waiters && s.writer.None? && s.clock >= s.waiters[w].deadline
    requires s.waiters[w].phase.Looping? || s.waiters[w].phase.Armed? || s.waiters[w].phase.NeedsBracket?
    ensures Ends(s, own, w)
    decreases if s.waiters[w].phase.Looping? then 2 else if s.waiters[w].phase.Armed? then 1 else 0
  {
    if s.waiters[w].phase.NeedsBracket? {
      var t := Apply(s, Measure(w));
      assert LeadsTo(t, [], t);
      assert Ends(t, [], w);
      EndsAfter(s, Measure(w), [], w);
      own := [Measure(w)] + [];
    } else {
      var step := if s.waiters[w].phase.Looping? then Arm(w) else Resolve(w, false);
      own := LateEnds(Apply(s, step), w);
      EndsAfter(s, step, own, w);
      own := [step] + own;
    }
  }

  lemma TimerEnds(s: State, w: nat) returns (own: seq<Step>)
    requires w in s.waiters && s.writer.None? && s.waiters[w].phase.Parked?
    requires s.waiters[w].phase.until <= s.clock && s.waiters[w].deadline <= s.clock
    ensures Ends(s, own, w)
  {
    if s.waiters[w].signalled {
      own := LateEnds(Apply(s, Wake(w)), w);
      EndsAfter(s, Wake(w), own, w);
      own := [Wake(w)] + own;
    } else {
      var t := Apply(s, TimeOut(w));
      assert LeadsTo(t, [], t);
      assert Ends(t, [], w);
      EndsAfter(s, TimeOut(w), [], w);
      own := [TimeOut(w)] + [];
    }
  }

  /** No waiter waits for ever: whenever no publisher holds the store, time and its own steps alone bring it to an
      answer. */
  lemma EveryWaiterEnds(s: State, w: nat) returns (own: seq<Step>)
    requires w in s.waiters && s.writer.None?
    ensures Ends(s, own, w)
  {
    var phase := s.waiters[w].phase;
    if phase.Answered? {
      own := [];
      assert LeadsTo(s, [], s);
    } else if phase.Measured? {
      var parked := Apply(s, Park(w));
      var later := Tick(parked.waiters[w].phase.until + s.waiters[w].deadline);
      own := TimerEnds(Apply(parked, later), w);
      EndsAfter(parked, later, own, w);
      EndsAfter(s, Park(w), [later] + own, w);
      own := [Park(w)] + ([later] + own);
    } else if phase.Parked? {
      var later := Tick(phase.until + s.waiters[w].deadline);
      own := TimerEnds(Apply(s, later), w);
      EndsAfter(s, later, own, w);
      own := [later] + own;
    } else {
      var later := Tick(s.waiters[w].deadline);
      own := LateEnds(Apply(s, later), w);
      EndsAfter(s, later, own, w);
      own := [later] + own;
    }
  }
}
