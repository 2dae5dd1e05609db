/** The Manager's advisory control-authority leases: hierarchical resources, preemption, expiry and fencing
    generations.  What a handler does under the lock of the leases is one step; the check of the shutdown fence that an
    acquire makes before it is a step of its own in `ControlAuthorityFence`. */
module ControlAuthority {
  import opened Common
  import opened ResourcePaths
  import Text

  datatype LeaseState = Active | Preempted | Released | Expired

  datatype Lease = Lease(
    leaseId: string,
    resourceId: string, ownerId: string,
    permissions: set<string>, issuedAt: int,
    expiresAt: int, renewalIntervalMs: nat,
    fencingGeneration: nat, preemptionPolicy: string,
    safeRelinquish: string, state: LeaseState,
    relatedSkillId: Option<string>)

  datatype AcquireRequest = AcquireRequest(
    resourceId: string,
    ownerId: string, permissions: seq<string>,
    durationMs: nat, renewalIntervalMs: nat,
    preempt: bool, preemptionPolicy: Option<string>,
    safeRelinquish: Option<string>, relatedSkillId: Option<string>)

  datatype ApiError = BadRequest | Forbidden | NotFound | Conflict

  type Leases = map<string, Lease>
  type Reply = Result<Lease, ApiError>

  /** Every lease ever issued, and the counter per resource. */
  datatype Registry = Registry(leases: Leases, generations: map<string, nat>)

  // ----- specification of the handlers

  predicate ValidDuration(durationMs: nat, renewalIntervalMs: nat) {
    500 <= durationMs <= 60_000 && 0 < renewalIntervalMs < durationMs
  }

  function TrimmedPermissions(permissions: seq<string>): set<string> {
    set p | p in permissions && Text.Trim(p) != "" :: Text.Trim(p)
  }

  function ExpireLease(l: Lease, now: int): Lease {
    if l.state == Active && l.expiresAt <= now then l.(state := Expired) else l
  }

  function ExpireAll(leases: Leases, now: int): Leases {
    map id | id in leases :: ExpireLease(leases[id], now)
  }

  predicate IsRival(l: Lease, resourceId: string) {
    l.state == Active && Overlap(l.resourceId, resourceId)
  }

  function Rivals(leases: Leases, resourceId: string): set<string> {
    set id | id in leases && IsRival(leases[id], resourceId)
  }

  function PreemptAll(leases: Leases, ids: set<string>): Leases {
    map id | id in leases :: if id in ids then leases[id].(state := Preempted) else leases[id]
  }

  function Generation(generations: map<string, nat>, resourceId: string): nat {
    if resourceId in generations then generations[resourceId] else 0
  }

  function GetOr(value: Option<string>, default: string): string {
    if value.Some? then value.value else default
  }

  /** What the request itself must satisfy. */
  predicate AcceptableAcquire(request: AcquireRequest) {
    && Text.Trim(request.resourceId) != "" && Text.Trim(request.ownerId) != ""
    && IsCanonical(Text.Trim(request.resourceId))
    && ValidDuration(request.durationMs, request.renewalIntervalMs)
    && TrimmedPermissions(request.permissions) != {}
  }

  function NewLease(request: AcquireRequest, leaseId: string, now: int, generation: nat): Lease {
    Lease(leaseId, Text.Trim(request.resourceId), Text.Trim(request.ownerId), TrimmedPermissions(request.permissions),
          now, now + request.durationMs, request.renewalIntervalMs, generation,
          GetOr(request.preemptionPolicy, "DENY_UNLESS_EXPLICIT_PREEMPT"),
          GetOr(request.safeRelinquish, "PROVIDER_LOCAL_POLICY"), Active, request.relatedSkillId)
  }

  function Acquired(r: Registry, fenced: bool, request: AcquireRequest, leaseId: string, now: int): (Registry, Reply) {
    if fenced then (r, Err(Conflict))
    else if !AcceptableAcquire(request) then (r, Err(BadRequest))
    else
      var resourceId := Text.Trim(request.resourceId);
      var leases := ExpireAll(r.leases, now);
      var rivals := Rivals(leases, resourceId);
      if rivals != {} && !request.preempt then (r.(leases := leases), Err(Conflict))
      else
        var generation := Generation(r.generations, resourceId) + 1;
        var lease := NewLease(request, leaseId, now, generation);
        (Registry(PreemptAll(leases, rivals)[leaseId := lease], r.generations[resourceId := generation]), Ok(lease))
  }

  function Renewed(r: Registry, leaseId: string, ownerId: string, durationMs: nat, now: int): (Registry, Reply) {
    if !ValidDuration(durationMs, 1) || Text.Trim(ownerId) == "" then (r, Err(BadRequest))
    else
      var leases := ExpireAll(r.leases, now);
      var expired := r.(leases := leases);
      if leaseId !in leases then (expired, Err(NotFound))
      else if leases[leaseId].ownerId != Text.Trim(ownerId) then (expired, Err(Forbidden))
      else if leases[leaseId].state != Active then (expired, Err(Conflict))
      else
        var lease := leases[leaseId].(expiresAt := now + durationMs);
        (r.(leases := leases[leaseId := lease]), Ok(lease))
  }

  function ReleasedBy(r: Registry, leaseId: string, ownerId: string): (Registry, Reply) {
    if Text.Trim(ownerId) == "" then (r, Err(BadRequest))
    else if leaseId !in r.leases then (r, Err(NotFound))
    else if r.leases[leaseId].ownerId != Text.Trim(ownerId) then (r, Err(Forbidden))
    else
      var was := r.leases[leaseId];
      var lease := if was.state == Active then was.(state := Released) else was;
      (r.(leases := r.leases[leaseId := lease]), Ok(lease))
  }

  // ----- the handlers

  class LeaseManager {
    var leases: Leases
    var generations: map<string, nat>

    constructor ()
      ensures View() == Registry(map[], map[])
    {
      leases, generations := map[], map[];
    }

    function View(): Registry
      reads this
    {
      Registry(leases, generations)
    }

    /** `acquire_control_authority`; `fenced` is what its check of the fence found, `leaseId` the freshly drawn
        identifier. */
    method Acquire(fenced: bool, request: AcquireRequest, leaseId: string, now: int) returns (reply: Reply)
      modifies this
      ensures (View(), reply) == Acquired(old(View()), fenced, request, leaseId, now)
    {
      if fenced {
        return Err(Conflict);
      }
      var resourceId, ownerId := Text.Trim(request.resourceId), Text.Trim(request.ownerId);
      if resourceId == "" || ownerId == "" || !IsCanonical(resourceId)
         || !ValidDuration(request.durationMs, request.renewalIntervalMs) {
        return Err(BadRequest);
      }
      var permissions := TrimmedPermissions(request.permissions);
      if permissions == {} {
        return Err(BadRequest);
      }
      var _ := ExpireLocked(now);
      var rivals := Rivals(leases, resourceId);
      if rivals != {} {
        if !request.preempt {
          return Err(Conflict);
        }
        PreemptLocked(rivals);
      } else {
        assert PreemptAll(leases, rivals) == leases;
      }
      var generation := Generation(generations, resourceId) + 1;
      generations := generations[resourceId := generation];
      var lease := NewLease(request, leaseId, now, generation);
      leases := leases[leaseId := lease];
      return Ok(lease);
    }

    /** `renew_control_authority` */
    method Renew(leaseId: string, ownerId: string, durationMs: nat, now: int) returns (reply: Reply)
      modifies this`leases
      ensures (View(), reply) == Renewed(old(View()), leaseId, ownerId, durationMs, now)
    {
      var owner := Text.Trim(ownerId);
      if !ValidDuration(durationMs, 1) || owner == "" {
        return Err(BadRequest);
      }
      var _ := ExpireLocked(now);
      if leaseId !in leases {
        return Err(NotFound);
      }
      var lease := leases[leaseId];
      if lease.ownerId != owner {
        return Err(Forbidden);
      }
      if lease.state != Active {
        return Err(Conflict);
      }
      lease := lease.(expiresAt := now + durationMs);
      leases := leases[leaseId := lease];
      return Ok(lease);
    }

    /** `release_control_authority`: it does not look at the clock. */
    method Release(leaseId: string, ownerId: string) returns (reply: Reply)
      modifies this`leases
      ensures (View(), reply) == ReleasedBy(old(View()), leaseId, ownerId)
    {
      var owner := Text.Trim(ownerId);
      if owner == "" {
        return Err(BadRequest);
      }
      if leaseId !in leases {
        return Err(NotFound);
      }
      var lease := leases[leaseId];
      if lease.ownerId != owner {
        return Err(Forbidden);
      }
      if lease.state == Active {
        lease := lease.(state := Released);
      }
      leases := leases[leaseId := lease];
      return Ok(lease);
    }

    /** `expire_control_authority_locked`: also returns the resources whose leases ended. */
    method ExpireLocked(now: int) returns (changed: set<string>)
      modifies this`leases
      ensures leases == ExpireAll(old(leases), now)
      ensures changed == set id | id in old(leases) && leases[id] != old(leases)[id] :: leases[id].resourceId
    {
      changed := {};
      var pending := leases.Keys;
      while pending != {}
        invariant pending <= leases.Keys == old(leases).Keys
        invariant forall id :: id in leases ==>
            leases[id] == if id in pending then old(leases)[id] else ExpireLease(old(leases)[id], now)
        invariant changed == set id | id in leases && leases[id] != old(leases)[id] :: leases[id].resourceId
      {
        var id :| id in pending;
        pending := pending - {id};
        var lease := leases[id];
        if lease.state == Active && lease.expiresAt <= now {
          leases := leases[id := lease.(state := Expired)];
          changed := changed + {lease.resourceId};
        }
      }
    }

    method PreemptLocked(ids: set<string>)
      modifies this`leases
      ensures leases == PreemptAll(old(leases), ids)
    {
      var pending := ids;
      while pending != {}
        invariant pending <= ids && leases.Keys == old(leases).Keys
        invariant forall id :: id in leases ==>
            leases[id] == if id in ids - pending then old(leases)[id].(state := Preempted) else old(leases)[id]
      {
        var id :| id in pending;
        pending := pending - {id};
        if id in leases {
          leases := leases[id := leases[id].(state := Preempted)];
        }
      }
    }
  }
}
