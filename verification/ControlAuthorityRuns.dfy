/** What every run of the control-authority handlers keeps.  Each event is the part of a handler under the lock of the
    leases. */
module ControlAuthorityRuns {
  import opened Common
  import opened ResourcePaths
  import opened ControlAuthority
  import Text

  datatype Event =
    | Acquire(fenced: bool, request: AcquireRequest, leaseId: string, now: int)
    | Renew(id: string, owner: string, durationMs: nat, at: int)
    | Release(id: string, owner: string)
    | Sweep(at: int)

  function After(r: Registry, e: Event): Registry {
    match e
    case Acquire(fenced, request, leaseId, now) => Acquired(r, fenced, request, leaseId, now).0
    case Renew(id, owner, durationMs, at) => Renewed(r, id, owner, durationMs, at).0
    case Release(id, owner) => ReleasedBy(r, id, owner).0
    case Sweep(at) => r.(leases := ExpireAll(r.leases, at))
  }

  /** Identifiers are drawn fresh. */
  predicate Fresh(r: Registry, e: Event) {
    e.Acquire? ==> e.leaseId !in r.leases
  }

  const EMPTY := Registry(map[], map[])

  function Run(events: seq<Event>): Registry {
    if events == [] then EMPTY else After(Run(events[..|events| - 1]), events[|events| - 1])
  }

  ghost predicate FreshRun(events: seq<Event>) {
    forall i :: 0 <= i < |events| ==> Fresh(Run(events[..i]), events[i])
  }

  // ----- invariants

  /** No two active leases overlap. */
  ghost predicate Exclusive(leases: Leases) {
    forall i, j :: i in leases && j in leases && i != j && leases[i].state == Active && leases[j].state == Active ==>
      !Overlap(leases[i].resourceId, leases[j].resourceId)
  }

  function IssuedOn(leases: Leases, resourceId: string): set<string> {
    set id | id in leases && leases[id].resourceId == resourceId
  }

  /** A resource's counter is the number of leases ever issued on it; the leases carry the numbers 1, 2, ... */
  ghost predicate Counted(r: Registry) {
    forall resourceId :: |IssuedOn(r.leases, resourceId)| == Generation(r.generations, resourceId)
  }

  ghost predicate Numbered(r: Registry) {
    && (forall i :: i in r.leases ==>
          1 <= r.leases[i].fencingGeneration <= Generation(r.generations, r.leases[i].resourceId))
    && (forall i, j :: i in r.leases && j in r.leases && i != j && r.leases[i].resourceId == r.leases[j].resourceId ==>
          r.leases[i].fencingGeneration != r.leases[j].fencingGeneration)
  }

  /** An active lease holds the latest generation of its resource. */
  ghost predicate Latest(r: Registry) {
    forall i :: i in r.leases && r.leases[i].state == Active ==>
      r.leases[i].fencingGeneration == Generation(r.generations, r.leases[i].resourceId)
  }

  ghost predicate Good(r: Registry) {
    Exclusive(r.leases) && Counted(r) && Numbered(r) && Latest(r)
  }

  /** Leases are never lost, keep their identity, and once ended never change again. */
  ghost predicate Evolves(before: Leases, after: Leases) {
    && before.Keys <= after.Keys
    && forall i :: i in before ==>
         && SameIdentity(before[i], after[i])
         && (before[i].state != Active ==> after[i] == before[i])
  }

  predicate SameIdentity(a: Lease, b: Lease) {
    && a.leaseId == b.leaseId && a.resourceId == b.resourceId && a.ownerId == b.ownerId
    && a.permissions == b.permissions && a.issuedAt == b.issuedAt && a.fencingGeneration == b.fencingGeneration
  }

  lemma OverlapSymmetric(a: string, b: string)
    ensures Overlap(a, b) == Overlap(b, a) && Overlap(a, a)
  {
  }

  // Ending or prolonging leases keeps everything.
  lemma GoodNarrows(r: Registry, after: Leases)
    requires Good(r) && Evolves(r.leases, after) && after.Keys == r.leases.Keys
    ensures Good(r.(leases := after))
  {
    hide *;
    GoodIs(r);
    NarrowExcludes(r.leases, after);
    NarrowCounts(r, after);
    NarrowNumbers(r, after);
    GoodIs(r.(leases := after));
  }

  lemma NarrowExcludes(before: Leases, after: Leases)
    requires Exclusive(before) && Evolves(before, after) && after.Keys == before.Keys
    ensures Exclusive(after)
  {
    hide Overlap;
  }

  lemma NarrowCounts(r: Registry, after: Leases)
    requires Counted(r) && Evolves(r.leases, after) && after.Keys == r.leases.Keys
    ensures Counted(r.(leases := after))
  {
    forall resourceId
      ensures IssuedOn(after, resourceId) == IssuedOn(r.leases, resourceId)
    {
    }
  }

  lemma NarrowNumbers(r: Registry, after: Leases)
    requires Numbered(r) && Latest(r) && Evolves(r.leases, after) && after.Keys == r.leases.Keys
    ensures Numbered(r.(leases := after)) && Latest(r.(leases := after))
  {
    hide Generation;
  }

  lemma GoodIs(r: Registry)
    ensures Good(r) <==> Exclusive(r.leases) && Counted(r) && Numbered(r) && Latest(r)
  {
  }

  lemma IssueExcludes(leases: Leases, lease: Lease, id: string)
    requires Exclusive(leases) && id !in leases
    requires forall i :: i in leases && leases[i].state == Active ==>
        !Overlap(leases[i].resourceId, lease.resourceId) && !Overlap(lease.resourceId, leases[i].resourceId)
    ensures Exclusive(leases[id := lease])
  {
    hide Overlap;
  }

  lemma IssueNumbers(r: Registry, lease: Lease, id: string)
    requires Numbered(r) && id !in r.leases
    requires lease.fencingGeneration == Generation(r.generations, lease.resourceId) + 1
    ensures Numbered(Registry(r.leases[id := lease], r.generations[lease.resourceId := lease.fencingGeneration]))
  {
  }

  lemma IssueIsLatest(r: Registry, lease: Lease, id: string)
    requires Latest(r) && id !in r.leases
    requires forall i :: i in r.leases && r.leases[i].state == Active ==> r.leases[i].resourceId != lease.resourceId
    ensures Latest(Registry(r.leases[id := lease], r.generations[lease.resourceId := lease.fencingGeneration]))
  {
  }

  // A lease without rivals shares no resource with an active lease.
  lemma NoRivals(leases: Leases, resourceId: string)
    requires Rivals(leases, resourceId) == {}
    ensures forall i :: i in leases && leases[i].state == Active ==>
        && !Overlap(leases[i].resourceId, resourceId) && !Overlap(resourceId, leases[i].resourceId)
        && leases[i].resourceId != resourceId
  {
    hide Overlap;
    forall i | i in leases && leases[i].state == Active
      ensures !Overlap(leases[i].resourceId, resourceId) && !Overlap(resourceId, leases[i].resourceId)
      ensures leases[i].resourceId != resourceId
    {
      OverlapSymmetric(leases[i].resourceId, resourceId);
      OverlapSymmetric(resourceId, resourceId);
      assert i !in Rivals(leases, resourceId);
    }
  }

  lemma GoodIssue(r: Registry, lease: Lease, id: string)
    requires Good(r) && id !in r.leases
    requires Rivals(r.leases, lease.resourceId) == {}
    requires lease.fencingGeneration == Generation(r.generations, lease.resourceId) + 1
    ensures Good(Registry(r.leases[id := lease], r.generations[lease.resourceId := lease.fencingGeneration]))
  {
    hide *;
    var s := Registry(r.leases[id := lease], r.generations[lease.resourceId := lease.fencingGeneration]);
    GoodIs(r);
    NoRivals(r.leases, lease.resourceId);
    IssueCounts(r, lease, id);
    IssueNumbers(r, lease, id);
    IssueIsLatest(r, lease, id);
    IssueExcludes(r.leases, lease, id);
    GoodIs(s);
  }

  lemma IssueCounts(r: Registry, lease: Lease, id: string)
    requires Counted(r) && id !in r.leases
    requires lease.fencingGeneration == Generation(r.generations, lease.resourceId) + 1
    ensures Counted(Registry(r.leases[id := lease], r.generations[lease.resourceId := lease.fencingGeneration]))
  {
    hide IssuedOn;
    var after, generations := r.leases[id := lease], r.generations[lease.resourceId := lease.fencingGeneration];
    forall resourceId
      ensures |IssuedOn(after, resourceId)| == Generation(generations, resourceId)
    {
      IssuedOneMore(r.leases, lease, id, resourceId);
    }
  }

  lemma IssuedOneMore(leases: Leases, lease: Lease, id: string, resourceId: string)
    requires id !in leases
    ensures var before, after := IssuedOn(leases, resourceId), IssuedOn(leases[id := lease], resourceId);
      |after| == if resourceId == lease.resourceId then |before| + 1 else |before|
  {
    if resourceId == lease.resourceId {
      assert IssuedOn(leases[id := lease], resourceId) == IssuedOn(leases, resourceId) + {id};
    } else {
      assert IssuedOn(leases[id := lease], resourceId) == IssuedOn(leases, resourceId);
    }
  }

  lemma PreemptedHasNoRivals(leases: Leases, resourceId: string)
    ensures Rivals(PreemptAll(leases, Rivals(leases, resourceId)), resourceId) == {}
  {
  }

  lemma EvolvesReflexive(a: Leases)
    ensures Evolves(a, a)
  {
  }

  lemma EvolvesTransitive(a: Leases, b: Leases, c: Leases)
    requires Evolves(a, b) && Evolves(b, c)
    ensures Evolves(a, c)
  {
  }

  lemma ExpireEvolves(leases: Leases, now: int)
    ensures Evolves(leases, ExpireAll(leases, now)) && ExpireAll(leases, now).Keys == leases.Keys
  {
  }

  lemma PreemptEvolves(leases: Leases, resourceId: string)
    ensures var cleared := PreemptAll(leases, Rivals(leases, resourceId));
            Evolves(leases, cleared) && cleared.Keys == leases.Keys
  {
    hide Overlap;
  }

  lemma IssueEvolves(leases: Leases, id: string, lease: Lease)
    requires id !in leases
    ensures Evolves(leases, leases[id := lease])
  {
  }

  lemma AcquireIsGood(r: Registry, request: AcquireRequest, leaseId: string, now: int)
    requires Good(r) && leaseId !in r.leases
    ensures var after := Acquired(r, false, request, leaseId, now).0;
            Good(after) && Evolves(r.leases, after.leases)
  {
    hide *;
    var resourceId := Text.Trim(request.resourceId);
    var leases := ExpireAll(r.leases, now);
    var cleared := PreemptAll(leases, Rivals(leases, resourceId));
    var lease := NewLease(request, leaseId, now, Generation(r.generations, resourceId) + 1);
    AcquireShape(r, request, leaseId, now);
    PreemptedHasNoRivals(leases, resourceId);
    ExpireEvolves(r.leases, now);
    PreemptEvolves(leases, resourceId);
    EvolvesReflexive(r.leases);
    EvolvesTransitive(r.leases, leases, cleared);
    GoodNarrows(r, leases);
    GoodNarrows(r, cleared);
    GoodIssue(r.(leases := cleared), lease, leaseId);
    IssueEvolves(cleared, leaseId, lease);
    EvolvesTransitive(r.leases, cleared, cleared[leaseId := lease]);
  }

  lemma ProlongEvolves(leases: Leases, id: string, expiresAt: int)
    requires id in leases && leases[id].state == Active
    ensures Evolves(leases, leases[id := leases[id].(expiresAt := expiresAt)])
  {
  }

  // An acquire is refused, or only expires leases, or clears the rivals and adds the lease.
  lemma AcquireShape(r: Registry, request: AcquireRequest, leaseId: string, now: int)
    ensures var after := Acquired(r, false, request, leaseId, now).0;
            var resourceId := Text.Trim(request.resourceId);
            var leases := ExpireAll(r.leases, now);
            var lease := NewLease(request, leaseId, now, Generation(r.generations, resourceId) + 1);
            && lease.resourceId == resourceId
            && lease.fencingGeneration == Generation(r.generations, resourceId) + 1
            && (|| after == r
                || after == r.(leases := leases)
                || after == Registry(PreemptAll(leases, Rivals(leases, resourceId))[leaseId := lease],
                                     r.generations[lease.resourceId := lease.fencingGeneration]))
  {
    hide AcceptableAcquire, Rivals, PreemptAll, ExpireAll, Text.Trim, TrimmedPermissions;
  }

  lemma RenewIsGood(r: Registry, id: string, owner: string, durationMs: nat, at: int)
    requires Good(r)
    ensures var after := Renewed(r, id, owner, durationMs, at).0;
            Good(after) && Evolves(r.leases, after.leases)
  {
    hide *;
    var leases := ExpireAll(r.leases, at);
    RenewShape(r, id, owner, durationMs, at);
    ExpireEvolves(r.leases, at);
    EvolvesReflexive(r.leases);
    GoodNarrows(r, leases);
    GoodNarrows(r, r.leases);
    if id in leases && leases[id].state == Active {
      var renewed := leases[id := leases[id].(expiresAt := at + durationMs)];
      ProlongEvolves(leases, id, at + durationMs);
      EvolvesTransitive(r.leases, leases, renewed);
      GoodNarrows(r, renewed);
    }
  }

  // A renewal is refused, or only expires leases, or also prolongs the one active lease.
  lemma RenewShape(r: Registry, id: string, owner: string, durationMs: nat, at: int)
    ensures var after := Renewed(r, id, owner, durationMs, at).0;
            var leases := ExpireAll(r.leases, at);
            || after == r
            || after == r.(leases := leases)
            || (&& id in leases && leases[id].state == Active
                && after == r.(leases := leases[id := leases[id].(expiresAt := at + durationMs)]))
  {
    hide ExpireAll, Text.Trim;
  }

  lemma ReleaseIsGood(r: Registry, id: string, owner: string)
    requires Good(r)
    ensures var after := ReleasedBy(r, id, owner).0;
            Good(after) && Evolves(r.leases, after.leases)
  {
    hide Good;
    var after := ReleasedBy(r, id, owner).0;
    GoodNarrows(r, after.leases);
  }

  /** One event keeps the invariants and never revives an ended lease. */
  lemma StepIsGood(r: Registry, e: Event)
    requires Good(r) && Fresh(r, e)
    ensures Good(After(r, e)) && Evolves(r.leases, After(r, e).leases)
  {
    hide Good, Acquired, Renewed, ReleasedBy;
    match e {
      case Acquire(fenced, request, leaseId, now) =>
        if fenced {
          FencedIsIdle(r, request, leaseId, now);
        } else {
          AcquireIsGood(r, request, leaseId, now);
        }
      case Renew(id, owner, durationMs, at) => RenewIsGood(r, id, owner, durationMs, at);
      case Release(id, owner) => ReleaseIsGood(r, id, owner);
      case Sweep(at) => GoodNarrows(r, After(r, e).leases);
    }
  }

  /** The shutdown fence refuses every acquire and changes nothing. */
  lemma FencedIsIdle(r: Registry, request: AcquireRequest, leaseId: string, now: int)
    ensures Acquired(r, true, request, leaseId, now) == (r, Err(Conflict))
  {
  }

  /** Over all runs no two active leases overlap, every counter is the number of leases issued on its resource, and
      every active lease holds the latest generation of its own resource. */
  lemma {:induction false} EveryRunIsGood(events: seq<Event>)
    requires FreshRun(events)
    ensures Good(Run(events))
  {
    if events == [] {
      assert forall resourceId :: IssuedOn(EMPTY.leases, resourceId) == {};
    } else {
      var n := |events| - 1;
      FreshPrefix(events, n);
      EveryRunIsGood(events[..n]);
      StepIsGood(Run(events[..n]), events[n]);
    }
  }

  lemma FreshPrefix(events: seq<Event>, n: nat)
    requires FreshRun(events) && n <= |events|
    ensures FreshRun(events[..n])
  {
    assert forall i :: 0 <= i < n ==> events[..n][..i] == events[..i];
  }

  /** An ended lease stays as it is for the rest of every run, and no lease is ever lost. */
  lemma {:induction false} EndedForEver(events: seq<Event>, k: nat)
    requires FreshRun(events) && k <= |events|
    ensures Evolves(Run(events[..k]).leases, Run(events).leases)
    decreases |events|
  {
    hide Good, After, Evolves;
    if k == |events| {
      assert events[..k] == events;
      EvolvesReflexive(Run(events).leases);
    } else {
      var n := |events| - 1;
      FreshPrefix(events, n);
      assert events[..n][..k] == events[..k];
      EndedForEver(events[..n], k);
      EveryRunIsGood(events[..n]);
      StepIsGood(Run(events[..n]), events[n]);
      EvolvesTransitive(Run(events[..k]).leases, Run(events[..n]).leases, Run(events).leases);
    }
  }

  /** A successful acquire ends exactly the unexpired active leases that overlap it, and no sibling; everything else
      only expires on time.  Without the preempt flag there was no such lease. */
  lemma AcquireEndsExactlyRivals(r: Registry, fenced: bool, request: AcquireRequest, leaseId: string, now: int)
    requires leaseId !in r.leases && Acquired(r, fenced, request, leaseId, now).1.Ok?
    ensures var after := Acquired(r, fenced, request, leaseId, now).0.leases;
            var lease := Acquired(r, fenced, request, leaseId, now).1.value;
            && after.Keys == r.leases.Keys + {leaseId} && after[leaseId] == lease
            && forall i :: i in r.leases ==>
                 var was := r.leases[i];
                 var rival := was.state == Active && now < was.expiresAt && Overlap(was.resourceId, lease.resourceId);
                 && (rival ==> request.preempt && after[i] == was.(state := Preempted))
                 && (!rival ==> after[i] == ExpireLease(was, now))
  {
    var leases := ExpireAll(r.leases, now);
    var resourceId := Text.Trim(request.resourceId);
    var rivals := Rivals(leases, resourceId);
    forall i | i in r.leases
      ensures i in rivals <==>
        r.leases[i].state == Active && now < r.leases[i].expiresAt && Overlap(r.leases[i].resourceId, resourceId)
    {
    }
    hide Overlap, IsCanonical;
  }

  /** Fencing: a newly issued lease carries a strictly greater generation than every earlier lease on its resource. */
  lemma IssuedGenerationIsNew(r: Registry, fenced: bool, request: AcquireRequest, leaseId: string, now: int, i: string)
    requires Good(r) && Acquired(r, fenced, request, leaseId, now).1.Ok? && i in r.leases
    requires r.leases[i].resourceId == Acquired(r, fenced, request, leaseId, now).1.value.resourceId
    ensures r.leases[i].fencingGeneration < Acquired(r, fenced, request, leaseId, now).1.value.fencingGeneration
  {
    hide Overlap, IsCanonical, Exclusive, Counted, Latest;
  }

  /** From event `k` on every acquire has met the shutdown fence. */
  predicate FencedFrom(events: seq<Event>, k: nat) {
    forall i :: k <= i < |events| ==> events[i].Acquire? ==> events[i].fenced
  }

  /** The leases only run out: none is new, none preempted, and whichever is active was so before. */
  ghost predicate OnlyRunOut(before: Leases, after: Leases) {
    && after.Keys == before.Keys
    && forall id :: id in before ==>
         && (after[id].state == Active ==> before[id].state == Active)
         && (after[id].state == Preempted ==> before[id].state == Preempted)
  }

  lemma ExpiryOnlyRunsOut(leases: Leases, now: int)
    ensures OnlyRunOut(leases, ExpireAll(leases, now))
  {
  }

  lemma ProlongOnlyRunsOut(before: Leases, leases: Leases, id: string, expiresAt: int)
    requires OnlyRunOut(before, leases) && id in leases
    ensures OnlyRunOut(before, leases[id := leases[id].(expiresAt := expiresAt)])
  {
  }

  lemma ReleaseOnlyRunsOut(r: Registry, id: string, owner: string)
    ensures ReleasedBy(r, id, owner).0.generations == r.generations
    ensures OnlyRunOut(r.leases, ReleasedBy(r, id, owner).0.leases)
  {
    hide Text.Trim;
  }

  lemma FencedStep(r: Registry, e: Event)
    requires e.Acquire? ==> e.fenced
    ensures After(r, e).generations == r.generations && OnlyRunOut(r.leases, After(r, e).leases)
  {
    hide Acquired, Renewed, ReleasedBy, ExpireAll;
    match e
    case Acquire(_, request, leaseId, now) => FencedIsIdle(r, request, leaseId, now);
    case Renew(id, owner, durationMs, at) =>
      RenewShape(r, id, owner, durationMs, at);
      ExpiryOnlyRunsOut(r.leases, at);
      if id in ExpireAll(r.leases, at) {
        ProlongOnlyRunsOut(r.leases, ExpireAll(r.leases, at), id, at + durationMs);
      }
    case Release(id, owner) => ReleaseOnlyRunsOut(r, id, owner);
    case Sweep(at) => ExpiryOnlyRunsOut(r.leases, at);
  }

  /** Once every acquire meets the fence, whatever else happens: no lease is issued, no generation is drawn, none is
      preempted, and the active leases are among those active before. */
  lemma {:induction false} FencedRunIssuesNothing(events: seq<Event>, k: nat)
    requires k <= |events| && FencedFrom(events, k)
    ensures Run(events).generations == Run(events[..k]).generations
    ensures OnlyRunOut(Run(events[..k]).leases, Run(events).leases)
    decreases |events|
  {
    hide After;
    if k == |events| {
      assert events[..k] == events;
    } else {
      var n := |events| - 1;
      assert events[..n][..k] == events[..k];
      FencedRunIssuesNothing(events[..n], k);
      FencedStep(Run(events[..n]), events[n]);
    }
  }

  // ----- who may end or prolong a lease

  /** The clock reading an event comes with. */
  function ClockOf(e: Event): Option<int> {
    match e
    case Acquire(_, _, _, now) => Some(now)
    case Renew(_, _, _, at) => Some(at)
    case Release(_, _) => None
    case Sweep(at) => Some(at)
  }

  predicate IsOwnRelease(e: Event, id: string, was: Lease) {
    e.Release? && e.id == id && Text.Trim(e.owner) == was.ownerId
  }

  /** A new lease of this event takes over from a lease that has not run out. */
  predicate TakesOver(e: Event, was: Lease, after: Leases) {
    && e.Acquire? && e.leaseId in after && e.request.preempt
    && e.now < was.expiresAt && Overlap(was.resourceId, Text.Trim(e.request.resourceId))
  }

  predicate IsOwnRenewal(e: Event, id: string, was: Lease) {
    && e.Renew? && e.id == id && Text.Trim(e.owner) == was.ownerId
    && 500 <= e.durationMs <= 60_000 && e.at < was.expiresAt
  }

  /** Why an active lease is in the state it is in after an event: it was released by its owner, preempted by a new
      lease on an overlapping resource, or its time has run out. */
  ghost predicate IsAccounted(id: string, was: Lease, e: Event, after: Leases) {
    && id in after
    && (after[id].state == Released <==> IsOwnRelease(e, id, was))
    && (after[id].state == Preempted <==> TakesOver(e, was, after))
    && (after[id].state == Expired ==> ClockOf(e).Some? && was.expiresAt <= ClockOf(e).value)
    && (e.Sweep? && was.expiresAt <= e.at ==> after[id].state == Expired)
    && after[id].expiresAt == (if IsOwnRenewal(e, id, was) then e.at + e.durationMs else was.expiresAt)
  }

  /** One event: an active lease stops being active only by its owner's release, by a preempting acquire on an
      overlapping resource, or because its time has run out; and its expiry moves only by its owner's renewal. */
  lemma StepIsAccounted(r: Registry, e: Event, id: string)
    requires Fresh(r, e) && id in r.leases && r.leases[id].state == Active && r.leases[id].ownerId != ""
    ensures IsAccounted(id, r.leases[id], e, After(r, e).leases)
  {
    hide Overlap, IsCanonical, Text.Trim;
    match e
    case Acquire(fenced, request, leaseId, now) => AcquireIsAccounted(r, fenced, request, leaseId, now, id);
    case _ =>
  }

  lemma AcquireIsAccounted(r: Registry, fenced: bool, request: AcquireRequest, leaseId: string, now: int, id: string)
    requires leaseId !in r.leases && id in r.leases && r.leases[id].state == Active
    ensures IsAccounted(id, r.leases[id], Acquire(fenced, request, leaseId, now),
                        Acquired(r, fenced, request, leaseId, now).0.leases)
  {
    hide *;
    AcquireOutcome(r, fenced, request, leaseId, now);
    var (after, reply) := Acquired(r, fenced, request, leaseId, now);
    if reply.Ok? {
      AcquireEndsExactlyRivals(r, fenced, request, leaseId, now);
      RivalIsAccounted(r.leases, fenced, request, leaseId, now, id, after.leases);
    } else {
      RefusedIsAccounted(r.leases, fenced, request, leaseId, now, id, after.leases);
    }
  }

  // An acquire that succeeds did so for the resource it names; one that fails at most expires leases.
  lemma AcquireOutcome(r: Registry, fenced: bool, request: AcquireRequest, leaseId: string, now: int)
    ensures var (after, reply) := Acquired(r, fenced, request, leaseId, now);
      if reply.Ok? then reply.value.resourceId == Text.Trim(request.resourceId)
      else after.leases == r.leases || after.leases == ExpireAll(r.leases, now)
  {
    hide AcceptableAcquire, Rivals, PreemptAll, ExpireAll, Text.Trim, TrimmedPermissions;
  }

  lemma RivalIsAccounted(leases: Leases, fenced: bool, request: AcquireRequest, leaseId: string, now: int, id: string,
                         after: Leases)
    requires id in leases && leases[id].state == Active && id in after && leaseId in after
    requires var was := leases[id];
      var rival := now < was.expiresAt && Overlap(was.resourceId, Text.Trim(request.resourceId));
      && (rival ==> request.preempt && after[id] == was.(state := Preempted))
      && (!rival ==> after[id] == ExpireLease(was, now))
    ensures IsAccounted(id, leases[id], Acquire(fenced, request, leaseId, now), after)
  {
    hide Overlap, Text.Trim;
  }

  lemma RefusedIsAccounted(leases: Leases, fenced: bool, request: AcquireRequest, leaseId: string, now: int, id: string,
                           after: Leases)
    requires id in leases && leases[id].state == Active && leaseId !in leases
    requires after == leases || after == ExpireAll(leases, now)
    ensures IsAccounted(id, leases[id], Acquire(fenced, request, leaseId, now), after)
  {
    hide Overlap, Text.Trim;
  }

  /** The lease a request asks for. */
  predicate IsAskedFor(l: Lease, request: AcquireRequest, now: int) {
    && l.resourceId == Text.Trim(request.resourceId) != "" && l.ownerId == Text.Trim(request.ownerId) != ""
    && l.permissions == TrimmedPermissions(request.permissions) != {}
    && l.issuedAt == now && l.expiresAt == now + request.durationMs && 500 <= request.durationMs <= 60_000
    && l.renewalIntervalMs == request.renewalIntervalMs && 0 < request.renewalIntervalMs < request.durationMs
    && l.state == Active && l.relatedSkillId == request.relatedSkillId
  }

  /** An event adds a lease only as an acquire that met no fence, and the lease is the one asked for, with the next
      generation of its resource. */
  lemma StepIssuesAsked(r: Registry, e: Event, id: string)
    requires Fresh(r, e) && id !in r.leases && id in After(r, e).leases
    ensures e.Acquire? && !e.fenced && id == e.leaseId && IsAskedFor(After(r, e).leases[id], e.request, e.now)
    ensures After(r, e).leases[id].fencingGeneration == Generation(r.generations, Text.Trim(e.request.resourceId)) + 1
  {
    hide Overlap, IsCanonical, Text.Trim, TrimmedPermissions;
  }

  lemma {:induction false} OwnersAreNamed(events: seq<Event>, id: string)
    requires FreshRun(events) && id in Run(events).leases
    ensures Run(events).leases[id].ownerId != ""
  {
    hide After, IsAskedFor;
    var n := |events| - 1;
    FreshPrefix(events, n);
    EveryRunIsGood(events[..n]);
    StepIsGood(Run(events[..n]), events[n]);
    if id in Run(events[..n]).leases {
      OwnersAreNamed(events[..n], id);
    } else {
      StepIssuesAsked(Run(events[..n]), events[n], id);
      AskedHasOwner(Run(events).leases[id], events[n].request, events[n].now);
    }
  }

  lemma AskedHasOwner(l: Lease, request: AcquireRequest, now: int)
    requires IsAskedFor(l, request, now)
    ensures l.ownerId != ""
  {
  }

  /** Event `j` took the lease out of ACTIVE, for one of the three reasons. */
  ghost predicate EndedAt(events: seq<Event>, id: string, j: nat)
    requires j < |events|
  {
    var before, after := Run(events[..j]).leases, Run(events[..j + 1]).leases;
    && id in before && before[id].state == Active && id in after && after[id].state != Active
    && IsAccounted(id, before[id], events[j], after)
  }

  ghost predicate MovedAt(events: seq<Event>, id: string, j: nat)
    requires j < |events|
  {
    var before := Run(events[..j]).leases;
    id in before && before[id].state == Active && IsOwnRenewal(events[j], id, before[id])
  }

  lemma RunIsAccounted(events: seq<Event>, id: string)
    requires FreshRun(events) && events != []
    requires var before := Run(events[..|events| - 1]).leases; id in before && before[id].state == Active
    ensures IsAccounted(id, Run(events[..|events| - 1]).leases[id], events[|events| - 1], Run(events).leases)
  {
    hide IsAccounted, After, Good;
    var n := |events| - 1;
    FreshPrefix(events, n);
    OwnersAreNamed(events[..n], id);
    StepIsAccounted(Run(events[..n]), events[n], id);
  }

  /** Over all runs: a lease that was active and no longer is was released by its owner, preempted by a new lease on an
      overlapping resource, or ran out; and if its expiry has moved, its owner renewed it. */
  lemma {:induction false} LeasesEndOnlyFor(events: seq<Event>, k: nat, id: string)
    requires FreshRun(events) && k <= |events|
    requires id in Run(events[..k]).leases && Run(events[..k]).leases[id].state == Active
    ensures id in Run(events).leases
    ensures Run(events).leases[id].state != Active ==> exists j :: k <= j < |events| && EndedAt(events, id, j)
    ensures Run(events).leases[id].expiresAt != Run(events[..k]).leases[id].expiresAt ==>
        exists j :: k <= j < |events| && MovedAt(events, id, j)
    decreases |events|
  {
    hide Good, After, Evolves, EndedAt, MovedAt, IsAccounted;
    if k == |events| {
      assert events[..k] == events;
    } else {
      var n := |events| - 1;
      FreshPrefix(events, n);
      assert events[..n][..k] == events[..k];
      LeasesEndOnlyFor(events[..n], k, id);
      EarlierCounts(events, k, id);
      if Run(events[..n]).leases[id].state == Active {
        LastCounts(events, id);
      } else {
        EndedStays(events, id);
      }
    }
  }

  lemma EarlierCounts(events: seq<Event>, k: nat, id: string)
    requires events != []
    ensures var n := |events| - 1;
      forall j :: k <= j < n ==>
        && (EndedAt(events[..n], id, j) ==> EndedAt(events, id, j))
        && (MovedAt(events[..n], id, j) ==> MovedAt(events, id, j))
  {
    hide After, IsAccounted;
    var n := |events| - 1;
    forall j | k <= j < n
      ensures EndedAt(events[..n], id, j) ==> EndedAt(events, id, j)
      ensures MovedAt(events[..n], id, j) ==> MovedAt(events, id, j)
    {
      assert events[..n][..j] == events[..j] && events[..n][..j + 1] == events[..j + 1];
    }
  }

  // The last event ends an active lease, or leaves it active, and moves its expiry for its owner only.
  lemma LastCounts(events: seq<Event>, id: string)
    requires FreshRun(events) && events != []
    requires var before := Run(events[..|events| - 1]).leases; id in before && before[id].state == Active
    ensures id in Run(events).leases
    ensures Run(events).leases[id].state != Active ==> EndedAt(events, id, |events| - 1)
    ensures Run(events).leases[id].expiresAt != Run(events[..|events| - 1]).leases[id].expiresAt ==>
        MovedAt(events, id, |events| - 1)
  {
    RunIsAccounted(events, id);
    hide After, Good;
    assert events[..|events|] == events;
  }

  lemma EndedStays(events: seq<Event>, id: string)
    requires FreshRun(events) && events != []
    requires var before := Run(events[..|events| - 1]).leases; id in before && before[id].state != Active
    ensures id in Run(events).leases && Run(events).leases[id] == Run(events[..|events| - 1]).leases[id]
  {
    hide After, Good;
    var n := |events| - 1;
    FreshPrefix(events, n);
    EveryRunIsGood(events[..n]);
    StepIsGood(Run(events[..n]), events[n]);
  }

  // ----- what the callers are told

  predicate NamesPermission(permissions: seq<string>) {
    exists p :: p in permissions && Text.Trim(p) != ""
  }

  /** An acquire succeeds exactly when it met no fence, names a canonical resource, an owner, a permission and durations
      within the limits, and either preempts or meets no unexpired active lease on an overlapping resource. */
  lemma AcquiredIff(r: Registry, fenced: bool, request: AcquireRequest, leaseId: string, now: int)
    ensures Acquired(r, fenced, request, leaseId, now).1.Ok? <==>
      && !fenced && IsCanonical(Text.Trim(request.resourceId)) && Text.Trim(request.ownerId) != ""
      && NamesPermission(request.permissions) && 500 <= request.durationMs <= 60_000
      && 0 < request.renewalIntervalMs < request.durationMs
      && (request.preempt || forall id :: id in r.leases ==>
            var l := r.leases[id];
            !(l.state == Active && now < l.expiresAt && Overlap(l.resourceId, Text.Trim(request.resourceId))))
  {
    hide Overlap, Text.Trim;
    assert NamesPermission(request.permissions) <==> TrimmedPermissions(request.permissions) != {} by {
      if p :| p in request.permissions && Text.Trim(p) != "" {
        assert Text.Trim(p) in TrimmedPermissions(request.permissions);
      }
    }
    assert Rivals(ExpireAll(r.leases, now), Text.Trim(request.resourceId)) == {} <==>
      forall id :: id in r.leases ==>
        var l := r.leases[id];
        !(l.state == Active && now < l.expiresAt && Overlap(l.resourceId, Text.Trim(request.resourceId))) by {
      RivalsAre(r.leases, Text.Trim(request.resourceId), now);
    }
    hide IsCanonical, Rivals, ExpireAll, TrimmedPermissions, PreemptAll;
  }

  lemma RivalsAre(leases: Leases, resourceId: string, now: int)
    ensures forall id :: id in Rivals(ExpireAll(leases, now), resourceId) <==>
      && id in leases && leases[id].state == Active && now < leases[id].expiresAt
      && Overlap(leases[id].resourceId, resourceId)
  {
    hide Overlap;
  }

  /** A release or a renewal succeeds exactly for the lease's owner, a renewal only while the lease is active; a
      stranger is told so, and an unknown lease is named as such. */
  lemma OnlyOwnersSucceed(r: Registry, id: string, owner: string, durationMs: nat, at: int)
    requires Text.Trim(owner) != ""
    ensures var reply := ReleasedBy(r, id, owner).1;
      && (reply.Ok? <==> id in r.leases && Text.Trim(owner) == r.leases[id].ownerId)
      && (reply == Err(NotFound) <==> id !in r.leases)
      && (reply == Err(Forbidden) <==> id in r.leases && Text.Trim(owner) != r.leases[id].ownerId)
    ensures 500 <= durationMs <= 60_000 ==>
      var reply := Renewed(r, id, owner, durationMs, at).1;
      && (reply.Ok? <==> id in r.leases && Text.Trim(owner) == r.leases[id].ownerId && r.leases[id].state == Active
                         && at < r.leases[id].expiresAt)
      && (reply == Err(NotFound) <==> id !in r.leases)
      && (reply == Err(Forbidden) <==> id in r.leases && Text.Trim(owner) != r.leases[id].ownerId)
  {
    hide Text.Trim;
  }
}
