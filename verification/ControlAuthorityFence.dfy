/** The shutdown fence and the acquires on their way.  An acquire looks at the fence, lets go of that lock, and takes
    the lock of the leases only later; the fence may go up in between.  Here the two are steps of their own. */
module ControlAuthorityFence {
  import opened Common
  import opened ResourcePaths
  import opened ControlAuthority
  import opened ControlAuthorityRuns
  import Text

  /** `admitted` holds the requests that passed the fence and have not taken the lock of the leases. */
  datatype Authority = Authority(registry: Registry, fenced: bool, admitted: map<nat, AcquireRequest>)

  datatype Step =
    | Raise
    | Check(task: nat, request: AcquireRequest)
    | Take(task: nat, leaseId: string, now: int)
    | Other(event: Event)

  const START := Authority(EMPTY, false, map[])

  function Next(a: Authority, s: Step): Authority {
    match s
    case Raise => a.(fenced := true)
    case Check(task, request) => if a.fenced then a else a.(admitted := a.admitted[task := request])
    case Take(task, leaseId, now) =>
      if task !in a.admitted then a
      else a.(registry := Acquired(a.registry, false, a.admitted[task], leaseId, now).0,
              admitted := a.admitted - {task})
    case Other(event) => a.(registry := After(a.registry, event))
  }

  /** A task has one request under way, comes to the leases only after its check, and draws a fresh identifier there. */
  predicate Possible(a: Authority, s: Step) {
    match s
    case Raise => true
    case Check(task, _) => task !in a.admitted
    case Take(task, leaseId, _) => task in a.admitted && leaseId !in a.registry.leases
    case Other(event) => !event.Acquire?
  }

  function Reached(steps: seq<Step>): Authority {
    if steps == [] then START else Next(Reached(steps[..|steps| - 1]), steps[|steps| - 1])
  }

  ghost predicate IsRun(steps: seq<Step>) {
    forall i :: 0 <= i < |steps| ==> Possible(Reached(steps[..i]), steps[i])
  }

  lemma RunPrefix(steps: seq<Step>, n: nat)
    requires IsRun(steps) && n <= |steps|
    ensures IsRun(steps[..n])
  {
    hide Possible, Reached;
    assert forall i :: 0 <= i < n ==> steps[..n][..i] == steps[..i];
  }

  lemma RunStep(steps: seq<Step>)
    requires IsRun(steps) && steps != []
    ensures var n := |steps| - 1; IsRun(steps[..n]) && Possible(Reached(steps[..n]), steps[n])
    ensures var n := |steps| - 1; Reached(steps) == Next(Reached(steps[..n]), steps[n])
  {
    hide Possible, Next;
    RunPrefix(steps, |steps| - 1);
  }

  lemma RunOfOneMore(steps: seq<Step>, s: Step)
    requires IsRun(steps) && Possible(Reached(steps), s)
    ensures IsRun(steps + [s]) && Reached(steps + [s]) == Next(Reached(steps), s)
  {
    hide Possible, Next;
    assert (steps + [s])[..|steps|] == steps;
    forall i | 0 <= i < |steps|
      ensures Possible(Reached((steps + [s])[..i]), (steps + [s])[i])
    {
      assert (steps + [s])[..i] == steps[..i];
    }
  }

  // ----- the leases move as in the runs of whole handlers

  function EventsOf(steps: seq<Step>): seq<Event> {
    if steps == [] then []
    else
      var n := |steps| - 1;
      EventsOf(steps[..n]) + EventOf(Reached(steps[..n]), steps[n])
  }

  function EventOf(a: Authority, s: Step): seq<Event> {
    match s
    case Take(task, leaseId, now) => if task in a.admitted then [Acquire(false, a.admitted[task], leaseId, now)] else []
    case Other(event) => [event]
    case _ => []
  }

  lemma FreshOneMore(events: seq<Event>, e: Event)
    requires FreshRun(events) && Fresh(Run(events), e)
    ensures FreshRun(events + [e]) && Run(events + [e]) == After(Run(events), e)
  {
    hide Fresh, After;
    assert (events + [e])[..|events|] == events;
    forall i | 0 <= i < |events|
      ensures Fresh(Run((events + [e])[..i]), (events + [e])[i])
    {
      assert (events + [e])[..i] == events[..i];
    }
  }

  /** Every run is, on the leases, a run of whole handlers. */
  lemma {:induction false} RunsAreRuns(steps: seq<Step>)
    requires IsRun(steps)
    ensures FreshRun(EventsOf(steps)) && Run(EventsOf(steps)) == Reached(steps).registry
  {
    hide IsRun, FreshRun, Acquired, Renewed, ReleasedBy;
    if steps == [] {
      NoEvents();
    } else {
      var n := |steps| - 1;
      RunStep(steps);
      RunsAreRuns(steps[..n]);
      var a, events := Reached(steps[..n]), EventsOf(steps[..n]);
      var more := EventOf(a, steps[n]);
      if more == [] {
        assert events + more == events;
      } else {
        FreshOneMore(events, more[0]);
        assert more == [more[0]];
      }
    }
  }

  lemma NoEvents()
    ensures FreshRun([])
  {
  }

  /** So no two active leases ever overlap, and counters and generations are right, wherever the fence goes up. */
  lemma EveryFencedRunIsGood(steps: seq<Step>)
    requires IsRun(steps)
    ensures Good(Reached(steps).registry)
  {
    hide *;
    RunsAreRuns(steps);
    EveryRunIsGood(EventsOf(steps));
  }

  lemma StepEvolves(steps: seq<Step>)
    requires IsRun(steps) && steps != []
    ensures Evolves(Reached(steps[..|steps| - 1]).registry.leases, Reached(steps).registry.leases)
  {
    hide IsRun, Reached, Evolves, Good, Acquired, Renewed, ReleasedBy;
    var n := |steps| - 1;
    RunStep(steps);
    EveryFencedRunIsGood(steps[..n]);
    var a := Reached(steps[..n]);
    EvolvesReflexive(a.registry.leases);
    match steps[n]
    case Take(task, leaseId, now) => AcquireIsGood(a.registry, a.admitted[task], leaseId, now);
    case Other(event) => StepIsGood(a.registry, event);
    case _ =>
  }

  lemma {:induction false} LeasesStay(steps: seq<Step>, k: nat)
    requires IsRun(steps) && k <= |steps|
    ensures Evolves(Reached(steps[..k]).registry.leases, Reached(steps).registry.leases)
    decreases |steps|
  {
    hide Reached, Evolves, IsRun;
    if k == |steps| {
      assert steps[..k] == steps;
      EvolvesReflexive(Reached(steps).registry.leases);
    } else {
      var n := |steps| - 1;
      RunPrefix(steps, n);
      assert steps[..n][..k] == steps[..k];
      LeasesStay(steps[..n], k);
      StepEvolves(steps);
      EvolvesTransitive(Reached(steps[..k]).registry.leases, Reached(steps[..n]).registry.leases,
                        Reached(steps).registry.leases);
    }
  }

  // ----- who is admitted

  lemma {:induction false} FencedIff(steps: seq<Step>)
    ensures Reached(steps).fenced <==> Raise in steps
  {
    hide Acquired, After;
    if steps != [] {
      var n := |steps| - 1;
      FencedIff(steps[..n]);
      assert steps == steps[..n] + [steps[n]];
    }
  }

  /** Step `j` checked this request before any fence, and the task has not come to the leases since. */
  ghost predicate Passed(steps: seq<Step>, task: nat, request: AcquireRequest, j: nat) {
    && j < |steps| && steps[j] == Check(task, request) && Raise !in steps[..j]
    && forall i :: j < i < |steps| ==> !IsTakeOf(steps[i], task)
  }

  predicate IsTakeOf(s: Step, task: nat) {
    s.Take? && s.task == task
  }

  ghost predicate HasPassed(steps: seq<Step>, task: nat, request: AcquireRequest) {
    exists j :: Passed(steps, task, request, j)
  }

  predicate Admits(a: Authority, task: nat, request: AcquireRequest) {
    task in a.admitted && a.admitted[task] == request
  }

  lemma PassedStays(steps: seq<Step>, s: Step, task: nat, request: AcquireRequest)
    requires !IsTakeOf(s, task) && s != Check(task, request)
    ensures HasPassed(steps + [s], task, request) <==> HasPassed(steps, task, request)
  {
    if j: nat :| Passed(steps, task, request, j) {
      assert (steps + [s])[..j] == steps[..j];
      assert Passed(steps + [s], task, request, j);
    }
    if j: nat :| Passed(steps + [s], task, request, j) {
      assert (steps + [s])[..j] == steps[..j];
      assert forall i :: j < i < |steps| ==> (steps + [s])[i] == steps[i];
      assert Passed(steps, task, request, j);
    }
  }

  lemma TakenIsNotPassed(steps: seq<Step>, s: Step, task: nat, request: AcquireRequest)
    requires IsTakeOf(s, task)
    ensures !HasPassed(steps + [s], task, request)
  {
    assert (steps + [s])[|steps|] == s;
  }

  lemma CheckPasses(steps: seq<Step>, task: nat, request: AcquireRequest)
    requires forall r :: !HasPassed(steps, task, r)
    ensures HasPassed(steps + [Check(task, request)], task, request) <==> Raise !in steps
  {
    var s := Check(task, request);
    assert (steps + [s])[..|steps|] == steps;
    if Raise !in steps {
      assert Passed(steps + [s], task, request, |steps|);
    }
    if j: nat :| Passed(steps + [s], task, request, j) {
      assert (steps + [s])[..j] == steps[..j];
      if j < |steps| {
        assert forall i :: j < i < |steps| ==> (steps + [s])[i] == steps[i];
        assert Passed(steps, task, request, j);
        assert HasPassed(steps, task, request);
      }
    }
  }

  /** A request is admitted exactly when its check came before the fence and it has not taken the lock since. */
  lemma {:induction false} AdmittedIff(steps: seq<Step>, task: nat, request: AcquireRequest)
    requires IsRun(steps)
    ensures Admits(Reached(steps), task, request) <==> HasPassed(steps, task, request)
    decreases |steps|
  {
    hide IsRun, HasPassed, Acquired, After;
    if steps == [] {
      NonePassed(task, request);
    } else {
      var n := |steps| - 1;
      var s, before := steps[n], steps[..n];
      RunStep(steps);
      assert steps == before + [s];
      forall r
        ensures Admits(Reached(before), task, r) <==> HasPassed(before, task, r)
      {
        AdmittedIff(before, task, r);
      }
      if IsTakeOf(s, task) {
        TakenIsNotPassed(before, s, task, request);
      } else if s == Check(task, request) {
        FencedIff(before);
        CheckPasses(before, task, request);
      } else {
        PassedStays(before, s, task, request);
        OthersStay(Reached(before), s, task, request);
      }
    }
  }

  lemma NonePassed(task: nat, request: AcquireRequest)
    ensures !HasPassed([], task, request)
  {
  }

  lemma OthersStay(a: Authority, s: Step, task: nat, request: AcquireRequest)
    requires Possible(a, s) && !IsTakeOf(s, task) && s != Check(task, request)
    ensures Admits(Next(a, s), task, request) <==> Admits(a, task, request)
  {
    hide Acquired, After;
  }

  // ----- leases issued after the fence

  /** The acquire that drew `id` checked at step `j`, before step `k` and any fence, and took the lock at step `n`,
      after it; the leases of that moment allowed it. */
  ghost predicate IssuedAcross(steps: seq<Step>, j: nat, k: nat, n: nat, id: string) {
    && j < k < n < |steps| && steps[n].Take? && steps[n].leaseId == id && steps[j].Check?
    && Passed(steps[..n], steps[n].task, steps[j].request, j)
    && Acquired(Reached(steps[..n]).registry, false, steps[j].request, id, steps[n].now).1.Ok?
  }

  predicate Holds(a: Authority, id: string) {
    id in a.registry.leases
  }

  lemma AcquiredIffOk(r: Registry, request: AcquireRequest, leaseId: string, now: int, id: string)
    requires leaseId !in r.leases
    ensures var (after, reply) := Acquired(r, false, request, leaseId, now);
      id in after.leases <==> id in r.leases || (id == leaseId && reply.Ok?)
  {
    hide AcceptableAcquire, Text.Trim, TrimmedPermissions, NewLease, IsRival, ExpireLease;
  }

  lemma OtherKeepsKeys(r: Registry, e: Event)
    requires !e.Acquire?
    ensures After(r, e).leases.Keys == r.leases.Keys
  {
    FencedStep(r, e);
    hide After;
  }

  // Only the locked part of an acquire adds a lease.
  lemma HeldNext(a: Authority, s: Step, id: string)
    requires Possible(a, s)
    ensures Holds(Next(a, s), id) <==>
      Holds(a, id) || (s.Take? && s.leaseId == id && Acquired(a.registry, false, a.admitted[s.task], id, s.now).1.Ok?)
  {
    hide Acquired, After;
    match s
    case Take(task, leaseId, now) => AcquiredIffOk(a.registry, a.admitted[task], leaseId, now, id);
    case Other(event) => OtherKeepsKeys(a.registry, event);
    case _ =>
  }

  lemma AcrossStays(steps: seq<Step>, j: nat, k: nat, n: nat, id: string, m: nat)
    requires n < m <= |steps|
    ensures IssuedAcross(steps[..m], j, k, n, id) <==> IssuedAcross(steps, j, k, n, id)
  {
    hide Passed, Acquired, Reached;
    assert steps[..m][..n] == steps[..n];
  }

  lemma AcrossBounds(steps: seq<Step>, j: nat, k: nat, n: nat, id: string)
    requires IssuedAcross(steps, j, k, n, id)
    ensures j < k < n < |steps|
  {
    hide Passed, Acquired, Reached;
  }

  lemma TakerPassed(steps: seq<Step>, k: nat, id: string) returns (j: nat)
    requires IsRun(steps) && k < |steps| && steps[k] == Raise
    requires Holds(Reached(steps), id) && !Holds(Reached(steps[..|steps| - 1]), id)
    ensures IssuedAcross(steps, j, k, |steps| - 1, id)
  {
    hide IsRun, Next, Holds, Reached, Acquired, Passed;
    var n := |steps| - 1;
    RunStep(steps);
    var before := Reached(steps[..n]);
    HeldNext(before, steps[n], id);
    var task := steps[n].task;
    var request := before.admitted[task];
    AdmittedIff(steps[..n], task, request);
    j :| Passed(steps[..n], task, request, j);
    PassedBeforeRaise(steps[..n], task, request, j, k);
    assert steps[..n][j] == steps[j];
  }

  lemma PassedBeforeRaise(steps: seq<Step>, task: nat, request: AcquireRequest, j: nat, k: nat)
    requires Passed(steps, task, request, j) && k < |steps| && steps[k] == Raise
    ensures j < k && steps[j] == Check(task, request)
  {
    assert forall i :: 0 <= i < j ==> steps[..j][i] == steps[i];
  }

  lemma {:induction false} IssuedWasAdmitted(steps: seq<Step>, k: nat, id: string)
    requires IsRun(steps) && k < |steps| && steps[k] == Raise
    requires Holds(Reached(steps), id) && !Holds(Reached(steps[..k]), id)
    ensures exists j: nat, n: nat :: IssuedAcross(steps, j, k, n, id)
    decreases |steps|
  {
    hide IsRun, IssuedAcross, Possible, Next, Holds, Reached;
    var m := |steps| - 1;
    if k < m && Holds(Reached(steps[..m]), id) {
      RunPrefix(steps, m);
      assert steps[..m][..k] == steps[..k];
      IssuedWasAdmitted(steps[..m], k, id);
      var j: nat, n: nat :| IssuedAcross(steps[..m], j, k, n, id);
      AcrossBounds(steps[..m], j, k, n, id);
      AcrossStays(steps, j, k, n, id, m);
    } else {
      var j := TakerPassed(steps, k, id);
    }
  }

  lemma AcrossIsIssued(steps: seq<Step>, j: nat, k: nat, n: nat, id: string)
    requires IsRun(steps) && IssuedAcross(steps, j, k, n, id)
    ensures Holds(Reached(steps), id) && !Holds(Reached(steps[..k]), id)
  {
    hide IsRun, Next, Reached, Acquired, Passed;
    RunPrefix(steps, n);
    RunPrefix(steps, n + 1);
    assert steps[..n + 1][..n] == steps[..n];
    assert steps[..n][..k] == steps[..k];
    RunStep(steps[..n + 1]);
    var before, task, request := Reached(steps[..n]), steps[n].task, steps[j].request;
    assert HasPassed(steps[..n], task, request) by {
      assert Passed(steps[..n], task, request, j);
    }
    AdmittedIff(steps[..n], task, request);
    HeldNext(before, steps[n], id);
    HeldStays(steps, n + 1, id);
    HeldStays(steps[..n], k, id);
  }

  lemma HeldStays(steps: seq<Step>, k: nat, id: string)
    requires IsRun(steps) && k <= |steps|
    ensures Holds(Reached(steps[..k]), id) ==> Holds(Reached(steps), id)
  {
    LeasesStay(steps, k);
    hide Reached, IsRun;
  }

  /** A lease is issued after the fence went up exactly when its acquire had passed the check before and the leases
      allow it when it gets their lock. */
  lemma IssuedAfterFenceIff(steps: seq<Step>, k: nat, id: string)
    requires IsRun(steps) && k < |steps| && steps[k] == Raise
    ensures Holds(Reached(steps), id) && !Holds(Reached(steps[..k]), id)
            <==> exists j: nat, n: nat :: IssuedAcross(steps, j, k, n, id)
  {
    hide *;
    if Holds(Reached(steps), id) && !Holds(Reached(steps[..k]), id) {
      IssuedWasAdmitted(steps, k, id);
    }
    if j: nat, n: nat :| IssuedAcross(steps, j, k, n, id) {
      AcrossIsIssued(steps, j, k, n, id);
    }
  }

  // ----- how many, and whether any

  lemma AtMostOneMore(a: Authority, s: Step)
    requires Possible(a, s) && a.fenced
    ensures var b := Next(a, s);
      && b.fenced && |b.registry.leases| + |b.admitted| <= |a.registry.leases| + |a.admitted|
      && b.admitted.Keys <= a.admitted.Keys
  {
    hide Acquired, After;
    match s
    case Take(task, leaseId, now) =>
      var after := Acquired(a.registry, false, a.admitted[task], leaseId, now).0.leases;
      forall id
        ensures id in after ==> id in a.registry.leases || id == leaseId
      {
        AcquiredIffOk(a.registry, a.admitted[task], leaseId, now, id);
      }
      SizeAtMost(after.Keys, a.registry.leases.Keys + {leaseId});
      assert (a.admitted - {task}).Keys == a.admitted.Keys - {task};
    case Other(event) =>
      OtherKeepsKeys(a.registry, event);
      assert |After(a.registry, event).leases| == |After(a.registry, event).leases.Keys|;
    case _ =>
  }

  lemma SizeAtMost(s: set<string>, t: set<string>)
    requires s <= t
    ensures |s| <= |t|
    decreases |s|
  {
    if x :| x in s {
      SizeAtMost(s - {x}, t - {x});
    }
  }

  /** From a moment with the fence up, no more leases are issued than acquires had passed it and were on their way. */
  lemma {:induction false} NoMoreThanAdmitted(steps: seq<Step>, k: nat)
    requires IsRun(steps) && k <= |steps| && Reached(steps[..k]).fenced
    ensures |Reached(steps).registry.leases| + |Reached(steps).admitted|
            <= |Reached(steps[..k]).registry.leases| + |Reached(steps[..k]).admitted|
    ensures Reached(steps).fenced && Reached(steps).admitted.Keys <= Reached(steps[..k]).admitted.Keys
    decreases |steps|
  {
    hide IsRun, Possible, Next, Reached;
    if k == |steps| {
      assert steps[..k] == steps;
    } else {
      var m := |steps| - 1;
      RunStep(steps);
      assert steps[..m][..k] == steps[..k];
      NoMoreThanAdmitted(steps[..m], k);
      AtMostOneMore(Reached(steps[..m]), steps[m]);
    }
  }

  /** Some acquire on its way has a request that is acceptable in itself. */
  ghost predicate AwaitsLease(a: Authority) {
    exists task :: task in a.admitted && AcceptableAcquire(a.admitted[task])
  }

  lemma UnacceptableIsIdle(r: Registry, request: AcquireRequest, leaseId: string, now: int)
    requires !AcceptableAcquire(request)
    ensures Acquired(r, false, request, leaseId, now) == (r, Err(BadRequest))
  {
  }

  lemma QuietStep(a: Authority, s: Step)
    requires Possible(a, s) && a.fenced && !AwaitsLease(a)
    ensures var b := Next(a, s);
      && b.fenced && !AwaitsLease(b)
      && b.registry.generations == a.registry.generations && OnlyRunOut(a.registry.leases, b.registry.leases)
  {
    hide Acquired, After, AcceptableAcquire;
    match s
    case Take(task, leaseId, now) => UnacceptableIsIdle(a.registry, a.admitted[task], leaseId, now);
    case Other(event) => FencedStep(a.registry, event);
    case _ =>
  }

  lemma RunOutFurther(a: Leases, b: Leases, c: Leases)
    requires OnlyRunOut(a, b) && OnlyRunOut(b, c)
    ensures OnlyRunOut(a, c)
  {
  }

  lemma RunOutReflexive(a: Leases)
    ensures OnlyRunOut(a, a)
  {
  }

  /** With none on its way whose request is acceptable, the leases only run out while the fence is up: none is issued or
      preempted, no generation is drawn. */
  lemma {:induction false} QuietBehindFence(steps: seq<Step>, k: nat)
    requires IsRun(steps) && k <= |steps| && Reached(steps[..k]).fenced && !AwaitsLease(Reached(steps[..k]))
    ensures Reached(steps).fenced && !AwaitsLease(Reached(steps))
    ensures Reached(steps).registry.generations == Reached(steps[..k]).registry.generations
    ensures OnlyRunOut(Reached(steps[..k]).registry.leases, Reached(steps).registry.leases)
    decreases |steps|
  {
    hide IsRun, Possible, Next, Reached, AwaitsLease, OnlyRunOut;
    if k == |steps| {
      assert steps[..k] == steps;
      RunOutReflexive(Reached(steps).registry.leases);
    } else {
      var m := |steps| - 1;
      RunStep(steps);
      assert steps[..m][..k] == steps[..k];
      QuietBehindFence(steps[..m], k);
      QuietStep(Reached(steps[..m]), steps[m]);
      RunOutFurther(Reached(steps[..k]).registry.leases, Reached(steps[..m]).registry.leases,
                    Reached(steps).registry.leases);
    }
  }

  /** The run goes on and issues this lease. */
  ghost predicate IssuesLater(steps: seq<Step>, more: seq<Step>, id: string) {
    IsRun(steps + more) && Holds(Reached(steps + more), id) && !Holds(Reached(steps), id)
  }

  lemma {:induction false} LongestOf(ids: set<string>) returns (n: nat)
    ensures forall id :: id in ids ==> |id| <= n
    decreases |ids|
  {
    if ids == {} {
      n := 0;
    } else {
      var id :| id in ids;
      n := LongestOf(ids - {id});
      n := if |id| > n then |id| else n;
    }
  }

  lemma {:induction false} LastExpiry(leases: Leases, ids: set<string>) returns (now: int)
    requires ids <= leases.Keys
    ensures forall id :: id in ids ==> leases[id].expiresAt <= now
    decreases |ids|
  {
    if ids == {} {
      now := 0;
    } else {
      var id :| id in ids;
      now := LastExpiry(leases, ids - {id});
      now := if leases[id].expiresAt > now then leases[id].expiresAt else now;
    }
  }

  // Once all leases have run out, an acceptable request is granted.
  lemma GrantedAtLast(r: Registry, request: AcquireRequest, leaseId: string, now: int)
    requires AcceptableAcquire(request) && forall id :: id in r.leases ==> r.leases[id].expiresAt <= now
    ensures Acquired(r, false, request, leaseId, now).1.Ok?
  {
    hide AcceptableAcquire, Overlap, Text.Trim;
    assert Rivals(ExpireAll(r.leases, now), Text.Trim(request.resourceId)) == {};
  }

  /** With the fence up a lease can still be issued exactly when some acquire on its way has an acceptable request. */
  lemma StillIssuesIff(steps: seq<Step>)
    requires IsRun(steps) && Reached(steps).fenced
    ensures (exists more, id :: IssuesLater(steps, more, id)) <==> AwaitsLease(Reached(steps))
  {
    hide *;
    if AwaitsLease(Reached(steps)) {
      var more, id := AwaitedIsIssued(steps);
    }
    if more, id :| IssuesLater(steps, more, id) {
      LaterNeedsAwaiting(steps, more, id);
    }
  }

  lemma LaterNeedsAwaiting(steps: seq<Step>, more: seq<Step>, id: string)
    requires IsRun(steps) && Reached(steps).fenced && IssuesLater(steps, more, id)
    ensures AwaitsLease(Reached(steps))
  {
    hide IsRun, Reached, AwaitsLease;
    assert (steps + more)[..|steps|] == steps;
    if !AwaitsLease(Reached(steps)) {
      QuietBehindFence(steps + more, |steps|);
    }
  }

  lemma AwaitedIsIssued(steps: seq<Step>) returns (more: seq<Step>, id: string)
    requires IsRun(steps) && AwaitsLease(Reached(steps))
    ensures IssuesLater(steps, more, id)
  {
    hide IsRun, Reached, AcceptableAcquire, Acquired, Next;
    var a := Reached(steps);
    var task :| task in a.admitted && AcceptableAcquire(a.admitted[task]);
    var n := LongestOf(a.registry.leases.Keys);
    var now := LastExpiry(a.registry.leases, a.registry.leases.Keys);
    id := seq(n + 1, _ => 'x');
    var s := Take(task, id, now);
    more := [s];
    RunOfOneMore(steps, s);
    GrantedAtLast(a.registry, a.admitted[task], id, now);
    HeldNext(a, s, id);
  }

  // ----- an acquire across the fence

  function Asking(owner: string, preempt: bool): AcquireRequest {
    AcquireRequest("a", owner, ["p"], 1000, 500, preempt, None, None, None)
  }

  /** A holds the resource; B's acquire passes the check, the fence goes up, and B gets the lock of the leases. */
  const ACROSS: seq<Step> := [
    Check(0, Asking("A", false)), Take(0, "first", 0), Check(1, Asking("B", true)), Raise, Take(1, "second", 1)
  ]

  lemma AskingIsAcceptable(owner: string, preempt: bool)
    requires owner in {"A", "B"}
    ensures AcceptableAcquire(Asking(owner, preempt)) && Text.Trim("a") == "a" && Text.Trim(owner) == owner
  {
    Text.TrimmedIsFixed("a");
    Text.TrimmedIsFixed(owner);
    Text.TrimmedIsFixed("p");
    var rest := Split("a"[1..], '/');
    assert "a"[1..] == "" && rest == [""] && rest[1..] == [] && ['a'] + rest[0] == "a";
    assert Split("a", '/') == ["a"];
    assert Text.Trim("p") in TrimmedPermissions(["p"]);
  }

  /** The registry while A holds the resource, and once B has taken it. */
  const HELD := Registry(map["first" := NewLease(Asking("A", false), "first", 0, 1)], map["a" := 1])
  const TAKEN := Registry(
    map["first" := NewLease(Asking("A", false), "first", 0, 1).(state := Preempted),
        "second" := NewLease(Asking("B", true), "second", 1, 2)],
    map["a" := 2])

  lemma FirstIsGranted()
    ensures Acquired(EMPTY, false, Asking("A", false), "first", 0).0 == HELD
  {
    AskingIsAcceptable("A", false);
    hide AcceptableAcquire, Text.Trim, TrimmedPermissions, Overlap;
    assert Rivals(map[], "a") == {};
  }

  lemma SecondIsGranted()
    ensures Acquired(HELD, false, Asking("B", true), "second", 1).0 == TAKEN
  {
    hide AcceptableAcquire, Text.Trim, TrimmedPermissions, ExpireAll, Rivals, Overlap;
    AskingIsAcceptable("B", true);
    FirstIsRival();
  }

  lemma FirstIsRival()
    ensures ExpireAll(HELD.leases, 1) == HELD.leases && Rivals(HELD.leases, "a") == {"first"}
  {
    hide Text.Trim, TrimmedPermissions;
    AskingIsAcceptable("A", false);
    hide AcceptableAcquire;
  }

  lemma {:induction false} AcrossIsRun()
    ensures IsRun(ACROSS) && Reached(ACROSS[..4]) == Authority(HELD, true, map[1 := Asking("B", true)])
    ensures Reached(ACROSS) == Authority(TAKEN, true, map[])
  {
    FirstIsGranted();
    SecondIsGranted();
    hide IsRun, Reached, Acquired, Asking;
    EmptyRun();
    assert ACROSS[..0] == [] && ACROSS[..5] == ACROSS;
    GoesOn(0);
    GoesOn(1);
    GoesOn(2);
    GoesOn(3);
    GoesOn(4);
  }

  lemma GoesOn(n: nat)
    requires n < |ACROSS| && IsRun(ACROSS[..n]) && Possible(Reached(ACROSS[..n]), ACROSS[n])
    ensures IsRun(ACROSS[..n + 1]) && Reached(ACROSS[..n + 1]) == Next(Reached(ACROSS[..n]), ACROSS[n])
  {
    hide IsRun, Possible, Reached, Next;
    RunOfOneMore(ACROSS[..n], ACROSS[n]);
    assert ACROSS[..n] + [ACROSS[n]] == ACROSS[..n + 1];
  }

  lemma EmptyRun()
    ensures IsRun([]) && Reached([]) == START
  {
  }

  /** With the fence up a lease is issued, and the lease of another owner preempted, by an acquire that checked
      before. */
  lemma FenceIsCrossed()
    ensures IsRun(ACROSS) && Reached(ACROSS[..4]).fenced
    ensures var (before, after) := (Reached(ACROSS[..4]).registry.leases, Reached(ACROSS).registry.leases);
      && "second" !in before && "second" in after && after["second"].state == Active && after["second"].ownerId == "B"
      && "first" in before && before["first"].state == Active && "first" in after && after["first"].state == Preempted
  {
    AcrossIsRun();
    AskingIsAcceptable("B", true);
    hide IsRun, Reached, AcceptableAcquire;
  }
}
