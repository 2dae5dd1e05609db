/** The Manager's reviewed workcell calibrations: activation, supersession, translation refinement, camera-driven
    invalidation and revocation.  Each handler is one step. */
module Calibration {
  import opened Common
  import opened RigidTransforms
  import opened Decimals
  import TransformHistory
  import Text

  datatype State = Active | Superseded | Invalidated | Revoked

  /** A JSON value: its tokens, which comparison looks at, and what they denote.  The Manager takes rotation tokens
      whose norm is from 0.99 to 1.01; their value is the unit quaternion the Fabric normalises them to. */
  datatype Spelled<T(==)> = Spelled(tokens: string, value: T)

  datatype Payload = Payload(translation: Spelled<Vec3>, rotation: Spelled<UnitQuat>, rest: string)

  datatype Entry = Entry(
    requestId: string,
    digest: string, revisionBefore: nat,
    revisionAfter: nat, calibrationBefore: string,
    calibrationAfter: string, previousTranslation: Vec3,
    translation: Vec3, delta: Vec3)

  datatype Record = Record(
    activationId: string,
    requestId: string, digest: string,
    candidateId: string, calibrationRevision: string,
    state: State, motionUsable: bool,
    worldFrame: string, armBaseFrame: string,
    cameraId: string, cameraDevice: string,
    cameraRevision: string, sessionEpoch: string,
    worldFromBase: Payload, refinementRevision: nat,
    journal: seq<Entry>)

  type Records = map<string, Record>

  /** What refreshing reads of a camera report; the device identity is trimmed and not blank when present. */
  datatype CameraReport = CameraReport(
    device: Option<string>,
    calibrationRevision: Option<string>, expired: bool,
    ready: bool, healthy: bool)

  type Reports = map<string, CameraReport>

  datatype ActivationRequest = ActivationRequest(requestId: string, activatedBy: string, content: string)

  datatype RefineRequest = RefineRequest(
    requestId: string,
    updatedBy: string, activationId: string,
    expectedRevision: nat, source: Payload,
    proposed: Payload, delta: Vec3,
    refinement: string)

  datatype RevokeRequest = RevokeRequest(requestId: string, revokedBy: string, reason: string)

  datatype ApiError = Unconfigured | BadRequest | NotFound | Conflict | NotPublished

  type Reply = Result<Record, ApiError>

  /** One record of a batch offered to the Fabric, as active or as revoked. */
  datatype Transition = Transition(record: Record, active: bool)

  // ----- refreshing from the camera reports

  function Refresh(r: Record, reports: Reports): Record {
    if r.state != Active || r.cameraId !in reports then r.(motionUsable := false)
    else
      var camera := reports[r.cameraId];
      if (camera.device.Some? && camera.device.value != r.cameraDevice)
          || camera.calibrationRevision != Some(r.cameraRevision)
      then r.(state := Invalidated, motionUsable := false)
      else r.(motionUsable := !camera.expired && camera.ready && camera.healthy && camera.device.Some?)
  }

  function RefreshAll(records: Records, reports: Reports): Records {
    map id | id in records :: Refresh(records[id], reports)
  }

  // ----- activation

  function SupersededOf(r: Record): Record {
    if r.state == Active then r.(state := Superseded, motionUsable := false) else r
  }

  function SupersedeAll(records: Records): Records {
    map id | id in records :: SupersededOf(records[id])
  }

  /** What the review checks hand over when they pass: a new active record for this request. */
  predicate IsBuiltFor(r: Record, request: ActivationRequest, digest: string, records: Records) {
    && r.activationId !in records
    && r.requestId == Text.Trim(request.requestId) && r.requestId != "" && r.digest == digest
    && r.calibrationRevision == r.candidateId
    && r.state == Active && r.motionUsable && r.refinementRevision == 0 && r.journal == []
  }

  predicate KnowsRequest(records: Records, requestId: string) {
    exists id :: id in records && records[id].requestId == requestId
  }

  /** The lookup compares the stored, trimmed identifier with the raw one of the request. */
  function Activated(records: Records, configured: bool, request: ActivationRequest, built: Option<Record>,
                     published: bool)
    : Records
  {
    if OffersActivation(records, configured, request, built) && published
    then SupersedeAll(records)[built.value.activationId := built.value]
    else records
  }

  /** The activation reaches its publication. */
  predicate OffersActivation(records: Records, configured: bool, request: ActivationRequest, built: Option<Record>) {
    configured && !KnowsRequest(records, request.requestId) && built.Some?
  }

  // ----- refinement

  const JOURNAL_CAPACITY := 32
  const TOLERANCE := 0.000000001

  predicate IsNear(a: real, b: real) {
    -TOLERANCE <= a - b <= TOLERANCE
  }

  predicate IsNearVector(a: Vec3, b: Vec3) {
    IsNear(a.x, b.x) && IsNear(a.y, b.y) && IsNear(a.z, b.z)
  }

  function RefinedName(candidateId: string, revision: nat): string {
    candidateId + ":translation-refinement:" + Decimal(revision)
  }

  function FindEntry(journal: seq<Entry>, requestId: string): (found: Option<Entry>)
    ensures found.Some? ==> found.value in journal && found.value.requestId == requestId
    ensures found.None? ==> forall e :: e in journal ==> e.requestId != requestId
  {
    if journal == [] then None
    else if journal[0].requestId == requestId then Some(journal[0])
    else FindEntry(journal[1..], requestId)
  }

  /** The checks of a refinement; `evidence` stands for those on identities, the arm's report and the payload shapes. */
  predicate Refinable(current: Record, request: RefineRequest, evidence: bool) {
    && current.state == Active && current.motionUsable
    && request.expectedRevision == current.refinementRevision
    && request.source == current.worldFromBase
    && evidence
    && request.source.rotation == request.proposed.rotation
    && IsNearVector(request.proposed.translation.value, Plus(request.source.translation.value, request.delta))
  }

  function EntryFor(current: Record, request: RefineRequest, digest: string): Entry {
    Entry(Text.Trim(request.requestId), digest, current.refinementRevision, current.refinementRevision + 1,
          current.calibrationRevision, RefinedName(current.candidateId, current.refinementRevision + 1),
          request.source.translation.value, request.proposed.translation.value, request.delta)
  }

  function Apply(current: Record, request: RefineRequest, digest: string): Record {
    var entry := EntryFor(current, request, digest);
    current.(
      worldFromBase := request.proposed,
      refinementRevision := entry.revisionAfter,
      calibrationRevision := entry.calibrationAfter,
      journal := TransformHistory.LastN(current.journal + [entry], JOURNAL_CAPACITY))
  }

  predicate IsNamed(request: RefineRequest) {
    Text.Trim(request.requestId) != "" && Text.Trim(request.updatedBy) != "" && Text.Trim(request.activationId) != ""
  }

  function Refined(records: Records, request: RefineRequest, digest: string, reports: Reports, evidence: bool,
                   published: bool): (Records, Reply)
  {
    var id := Text.Trim(request.activationId);
    if !IsNamed(request) then (records, Err(BadRequest))
    else if id !in records then (records, Err(NotFound))
    else
      var known := FindEntry(records[id].journal, Text.Trim(request.requestId));
      var refreshed := Refresh(records[id], reports);
      if known.Some? then (records, if known.value.digest == digest then Ok(records[id]) else Err(Conflict))
      else if !Refinable(refreshed, request, evidence) then (records[id := refreshed], Err(Conflict))
      else if !published then (records[id := refreshed], Err(NotPublished))
      else (records[id := Apply(refreshed, request, digest)], Ok(Apply(refreshed, request, digest)))
  }

  /** The refinement reaches its publication. */
  predicate OffersRefinement(records: Records, request: RefineRequest, reports: Reports, evidence: bool) {
    var id := Text.Trim(request.activationId);
    && IsNamed(request) && id in records
    && FindEntry(records[id].journal, Text.Trim(request.requestId)).None?
    && Refinable(Refresh(records[id], reports), request, evidence)
  }

  function RefinedRecord(records: Records, request: RefineRequest, digest: string, reports: Reports,
                         evidence: bool): Record
    requires OffersRefinement(records, request, reports, evidence)
  {
    Apply(Refresh(records[Text.Trim(request.activationId)], reports), request, digest)
  }

  // ----- revocation

  /** The revocation reaches its publication. */
  predicate OffersRevocation(records: Records, id: string, request: RevokeRequest) {
    && Text.Trim(request.requestId) != "" && Text.Trim(request.revokedBy) != "" && Text.Trim(request.reason) != ""
    && id in records && records[id].state != Revoked
  }

  function RevokedRecord(r: Record): Record {
    r.(state := Revoked, motionUsable := false)
  }

  function RevokedBy(records: Records, id: string, request: RevokeRequest, published: bool): (Records, Reply) {
    if Text.Trim(request.requestId) == "" || Text.Trim(request.revokedBy) == "" || Text.Trim(request.reason) == ""
    then (records, Err(BadRequest))
    else if id !in records then (records, Err(NotFound))
    else if records[id].state == Revoked then (records, Ok(records[id]))
    else if !published then (records, Err(NotPublished))
    else
      (records[id := RevokedRecord(records[id])], Ok(RevokedRecord(records[id])))
  }

  // ----- the handlers

  class CalibrationManager {
    var records: Records

    constructor ()
      ensures records == map[]
    {
      records := map[];
    }

    /** The refresh loop of `list_workcell_calibrations`. */
    method List(reports: Reports)
      modifies this
      ensures records == RefreshAll(old(records), reports)
    {
      var pending := records.Keys;
      while pending != {}
        invariant pending <= records.Keys == old(records).Keys
        invariant forall id :: id in records ==>
            records[id] == if id in pending then old(records)[id] else Refresh(old(records)[id], reports)
      {
        var id :| id in pending;
        pending := pending - {id};
        var refreshed := RefreshRecord(records[id], reports);
        records := records[id := refreshed];
      }
    }

    /** `refresh_workcell_motion_usability`, on an updated copy. */
    method RefreshRecord(r: Record, reports: Reports) returns (s: Record)
      ensures s == Refresh(r, reports)
    {
      s := r.(motionUsable := false);
      if r.state != Active {
        return;
      }
      if r.cameraId !in reports {
        return;
      }
      var camera := reports[r.cameraId];
      if camera.device.Some? && camera.device.value != r.cameraDevice {
        s := s.(state := Invalidated);
        return;
      }
      if camera.calibrationRevision != Some(r.cameraRevision) {
        s := s.(state := Invalidated);
        return;
      }
      if camera.expired || !camera.ready || !camera.healthy || camera.device.None? {
        return;
      }
      s := s.(motionUsable := true);
    }

    /** `activate_workcell_calibration`; `built` is what the review checks hand over, and `published` whether the
        Fabric took the batch. */
    method Activate(configured: bool, request: ActivationRequest, digest: string, built: Option<Record>,
                    published: bool)
      returns (reply: Reply, batch: seq<Transition>)
      requires built.Some? ==> IsBuiltFor(built.value, request, digest, records)
      modifies this
      ensures records == Activated(old(records), configured, request, built, published)
      ensures !configured ==> reply == Err(Unconfigured)
      ensures configured && KnowsRequest(old(records), request.requestId) ==>
          exists id :: id in records && records[id].requestId == request.requestId
            && reply == if records[id].digest == digest then Ok(records[id]) else Err(Conflict)
      ensures configured && !KnowsRequest(old(records), request.requestId) && built.None? ==> reply == Err(Conflict)
      ensures if OffersActivation(old(records), configured, request, built)
              then Publishes(batch, old(records), built.value)
                   && reply == if published then Ok(built.value) else Err(NotPublished)
              else batch == []
    {
      batch := [];
      if !configured {
        return Err(Unconfigured), [];
      }
      if id :| id in records && records[id].requestId == request.requestId {
        return if records[id].digest == digest then Ok(records[id]) else Err(Conflict), [];
      }
      if built.None? {
        return Err(Conflict), [];
      }
      batch := SupersessionBatch(built.value);
      if !published {
        return Err(NotPublished), batch;
      }
      Supersede();
      records := records[built.value.activationId := built.value];
      return Ok(built.value), batch;
    }

    // `superseded_active_workcell_calibrations`, and the replacement behind them.
    method SupersessionBatch(built: Record) returns (batch: seq<Transition>)
      ensures Publishes(batch, records, built)
    {
      var superseded := [];
      ghost var ids := [];
      var pending := records.Keys;
      while pending != {}
        invariant pending <= records.Keys && |ids| == |superseded|
        invariant forall id :: id in ids <==> id in records.Keys - pending && records[id].state == Active
        invariant forall i, j :: 0 <= i < j < |ids| ==> ids[i] != ids[j]
        invariant forall i :: 0 <= i < |ids| ==>
          ids[i] in records && superseded[i] == Transition(SupersededOf(records[ids[i]]), false)
      {
        var id :| id in pending;
        pending := pending - {id};
        if records[id].state == Active {
          superseded := superseded + [Transition(records[id].(state := Superseded, motionUsable := false), false)];
          ids := ids + [id];
        }
      }
      batch := superseded + [Transition(built, true)];
      assert IsSupersession(batch, ids, records, built);
    }

    method Supersede()
      modifies this
      ensures records == SupersedeAll(old(records))
    {
      var pending := records.Keys;
      while pending != {}
        invariant pending <= records.Keys == old(records).Keys
        invariant forall id :: id in records ==>
            records[id] == if id in pending then old(records)[id] else SupersededOf(old(records)[id])
      {
        var id :| id in pending;
        pending := pending - {id};
        if records[id].state == Active {
          records := records[id := records[id].(state := Superseded, motionUsable := false)];
        }
      }
    }

    /** `refine_workcell_calibration_translation` */
    method Refine(request: RefineRequest, digest: string, reports: Reports, evidence: bool, published: bool)
      returns (reply: Reply, batch: seq<Transition>)
      modifies this
      ensures (records, reply) == Refined(old(records), request, digest, reports, evidence, published)
      ensures batch == if OffersRefinement(old(records), request, reports, evidence)
                       then [Transition(RefinedRecord(old(records), request, digest, reports, evidence), true)] else []
    {
      batch := [];
      if Text.Trim(request.requestId) == "" || Text.Trim(request.updatedBy) == ""
          || Text.Trim(request.activationId) == "" {
        return Err(BadRequest), [];
      }
      var id := Text.Trim(request.activationId);
      if id !in records {
        return Err(NotFound), [];
      }
      var known := FindEntry(records[id].journal, Text.Trim(request.requestId));
      if known.Some? {
        if known.value.digest != digest {
          return Err(Conflict), [];
        }
        return Ok(records[id]), [];
      }
      var refreshed := RefreshRecord(records[id], reports);
      records := records[id := refreshed];
      var updated := BuildRefined(records[id], request, digest, evidence);
      if updated.None? {
        return Err(Conflict), [];
      }
      batch := [Transition(updated.value, true)];
      if !published {
        return Err(NotPublished), batch;
      }
      records := records[id := updated.value];
      assert records == old(records)[id := updated.value];
      return Ok(updated.value), batch;
    }

    /** `build_translation_refined_record`: an updated copy, its journal drained from the front. */
    method BuildRefined(current: Record, request: RefineRequest, digest: string, evidence: bool)
      returns (updated: Option<Record>)
      ensures updated == if Refinable(current, request, evidence) then Some(Apply(current, request, digest)) else None
    {
      if current.state != Active || !current.motionUsable {
        return None;
      }
      if request.expectedRevision != current.refinementRevision || request.source != current.worldFromBase {
        return None;
      }
      if !evidence || request.source.rotation != request.proposed.rotation {
        return None;
      }
      var expected := Plus(request.source.translation.value, request.delta);
      if !IsNearVector(request.proposed.translation.value, expected) {
        return None;
      }
      var entry := EntryFor(current, request, digest);
      var journal := current.journal + [entry];
      if |journal| > JOURNAL_CAPACITY {
        var excess := |journal| - JOURNAL_CAPACITY;
        journal := journal[excess..];
      }
      return Some(current.(worldFromBase := request.proposed,
                           refinementRevision := entry.revisionAfter,
                           calibrationRevision := entry.calibrationAfter,
                           journal := journal));
    }

    /** `revoke_workcell_calibration`: the path's identifier is not trimmed. */
    method Revoke(id: string, request: RevokeRequest, published: bool) returns (reply: Reply, batch: seq<Transition>)
      modifies this
      ensures (records, reply) == RevokedBy(old(records), id, request, published)
      ensures batch == if OffersRevocation(old(records), id, request)
                       then [Transition(RevokedRecord(old(records)[id]), false)] else []
    {
      batch := [];
      if Text.Trim(request.requestId) == "" || Text.Trim(request.revokedBy) == "" || Text.Trim(request.reason) == "" {
        return Err(BadRequest), [];
      }
      if id !in records {
        return Err(NotFound), [];
      }
      var record := records[id];
      if record.state == Revoked {
        return Ok(record), [];
      }
      record := record.(state := Revoked, motionUsable := false);
      batch := [Transition(record, false)];
      if !published {
        return Err(NotPublished), batch;
      }
      records := records[id := record];
      return Ok(record), batch;
    }
  }

  /** Every active record as superseded, in the order `ids`, and then the new one. */
  ghost predicate IsSupersession(batch: seq<Transition>, ids: seq<string>, records: Records, built: Record) {
    && (forall i, j :: 0 <= i < j < |ids| ==> ids[i] != ids[j])
    && (forall id :: id in ids <==> id in records && records[id].state == Active)
    && batch == seq(|ids|, i requires 0 <= i < |ids| && ids[i] in records =>
                             Transition(SupersededOf(records[ids[i]]), false))
                + [Transition(built, true)]
  }

  /** The batch of an activation; the map has no order. */
  ghost predicate Publishes(batch: seq<Transition>, records: Records, built: Record) {
    exists ids :: IsSupersession(batch, ids, records, built)
  }
}
