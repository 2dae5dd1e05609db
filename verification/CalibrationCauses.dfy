/** Why a calibration record is as it is: what each event does to one record, said of the event and the record alone. */
module CalibrationCauses {
  import opened Common
  import opened RigidTransforms
  import opened Calibration
  import opened CalibrationRuns
  import Text

  // ----- the camera

  /** The report is of the camera the record was made for, as far as it tells. */
  predicate IsSameCamera(r: Record, report: CameraReport) {
    && (report.device.Some? ==> report.device.value == r.cameraDevice)
    && report.calibrationRevision == Some(r.cameraRevision)
  }

  /** Motion may rely on the record: its own camera reports, in time, ready and healthy, and says which device it is. */
  predicate IsTrusted(r: Record, reports: Reports) {
    && r.cameraId in reports && IsSameCamera(r, reports[r.cameraId])
    && !reports[r.cameraId].expired && reports[r.cameraId].ready && reports[r.cameraId].healthy
    && reports[r.cameraId].device == Some(r.cameraDevice)
  }

  /** Another camera, or the same one calibrated anew, reports in its place. */
  predicate IsReplaced(r: Record, reports: Reports) {
    r.cameraId in reports && !IsSameCamera(r, reports[r.cameraId])
  }

  /** Refreshing a record: it is usable exactly when active and trusted, invalidated exactly when active and its
      camera has been replaced, and otherwise as it was. */
  lemma RefreshedIs(r: Record, reports: Reports)
    ensures var s := Refresh(r, reports);
      && (s.motionUsable <==> r.state == Active && IsTrusted(r, reports))
      && s.state == (if r.state == Active && IsReplaced(r, reports) then Invalidated else r.state)
      && s.(state := r.state, motionUsable := r.motionUsable) == r && (s.motionUsable ==> s.state == Active)
  {
  }

  // ----- one event, one record

  /** The event looks at the camera reports for this record, and these are they. */
  function Looks(e: Event, r: Record): Option<Reports> {
    match e
    case ListAll(seen) => Some(seen)
    case Refine(request, _, reports, _, _) => if IsRefinementOf(request, r) then Some(reports) else None
    case _ => None
  }

  /** The refinement is complete, of this record, and not one it remembers. */
  predicate IsRefinementOf(request: RefineRequest, r: Record) {
    && Text.Trim(request.activationId) == r.activationId && Text.Trim(request.activationId) != ""
    && Text.Trim(request.requestId) != "" && Text.Trim(request.updatedBy) != ""
    && forall entry :: entry in r.journal ==> entry.requestId != Text.Trim(request.requestId)
  }

  predicate IsWithin(a: real, b: real) {
    a - b <= 0.000000001 && b - a <= 0.000000001
  }

  predicate Moves(e: Event, r: Record) {
    e.Refine? && IsFit(e, r) && e.published
  }

  /** The refinement fits the record: it is made for its present revision and pose, keeps the rotation, adds what it
      says to the translation and is sound, and the record is trusted. */
  predicate IsFit(e: Event, r: Record)
    requires e.Refine?
  {
    && IsRefinementOf(e.request, r) && IsTrusted(r, e.reports) && e.evidence
    && e.request.expectedRevision == r.refinementRevision && e.request.source == r.worldFromBase
    && e.request.proposed.rotation == r.worldFromBase.rotation
    && var (was, to, d) := (r.worldFromBase.translation.value, e.request.proposed.translation.value, e.request.delta);
       IsWithin(to.x, was.x + d.x) && IsWithin(to.y, was.y + d.y) && IsWithin(to.z, was.z + d.z)
  }

  /** A new record takes the place of those active. */
  ghost predicate Supersedes(e: Event, records: Records) {
    && e.Activate? && e.configured && e.built.Some? && e.published
    && forall id :: id in records ==> records[id].requestId != e.activation.requestId
  }

  /** The revocation is complete, of this record, and published. */
  predicate Revokes(e: Event, r: Record) {
    && e.Revoke? && e.id == r.activationId && e.published && Text.Trim(e.revocation.requestId) != ""
    && Text.Trim(e.revocation.revokedBy) != "" && Text.Trim(e.revocation.reason) != ""
  }

  /** What one event makes of an active record. */
  ghost predicate IsAccounted(r: Record, e: Event, records: Records, s: Record) {
    && (s.state == Superseded <==> Supersedes(e, records))
    && (s.state == Invalidated <==> Looks(e, r).Some? && IsReplaced(r, Looks(e, r).value))
    && (s.state == Revoked <==> Revokes(e, r))
    && (s.motionUsable <==> s.state == Active && if Looks(e, r).Some? then IsTrusted(r, Looks(e, r).value)
                                                 else r.motionUsable)
    && s.worldFromBase == (if Moves(e, r) then e.request.proposed else r.worldFromBase)
    && s.refinementRevision == (if Moves(e, r) then r.refinementRevision + 1 else r.refinementRevision)
  }

  lemma FoundIff(journal: seq<Entry>, requestId: string)
    ensures FindEntry(journal, requestId).None? <==> forall entry :: entry in journal ==> entry.requestId != requestId
  {
    hide FindEntry;
  }

  lemma NearIff(a: Vec3, b: Vec3)
    ensures IsNearVector(a, b) <==> IsWithin(a.x, b.x) && IsWithin(a.y, b.y) && IsWithin(a.z, b.z)
  {
  }

  // What a refinement of the record leaves in its place.
  lemma RefinementLeaves(r: Record, e: Event, records: Records)
    requires e.Refine? && Text.Trim(e.request.activationId) in records
    requires r == records[Text.Trim(e.request.activationId)] && r.activationId == Text.Trim(e.request.activationId)
    ensures r.activationId in RecordsAfter(records, e)
    ensures RecordsAfter(records, e)[r.activationId] ==
            if !IsRefinementOf(e.request, r) then r
            else if Refinable(Refresh(r, e.reports), e.request, e.evidence) && e.published
            then Apply(Refresh(r, e.reports), e.request, e.digest) else Refresh(r, e.reports)
  {
    FoundIff(r.journal, Text.Trim(e.request.requestId));
    hide Text.Trim, FindEntry, Refresh, Refinable, Apply;
  }

  lemma RefinableIff(r: Record, e: Event)
    requires e.Refine? && IsRefinementOf(e.request, r) && r.state == Active
    ensures Refinable(Refresh(r, e.reports), e.request, e.evidence) <==> IsFit(e, r)
  {
    RefreshedIs(r, e.reports);
    NearIff(e.request.proposed.translation.value, Plus(e.request.source.translation.value, e.request.delta));
    hide Text.Trim, Refresh, IsNearVector, IsWithin, IsTrusted, IsReplaced, IsRefinementOf;
  }

  lemma RefinementIsAccounted(r: Record, e: Event, records: Records)
    requires e.Refine? && r.state == Active && Text.Trim(e.request.activationId) in records
    requires r == records[Text.Trim(e.request.activationId)] && r.activationId == Text.Trim(e.request.activationId)
    ensures IsAccounted(r, e, records, RecordsAfter(records, e)[r.activationId])
  {
    RefinementLeaves(r, e, records);
    RefreshedIs(r, e.reports);
    if IsRefinementOf(e.request, r) {
      RefinableIff(r, e);
      FitIsActive(r, e);
    }
    hide Text.Trim, Refresh, Refinable, IsTrusted, IsReplaced, RefinedName, IsFit, IsRefinementOf, RecordsAfter;
  }

  lemma FitIsActive(r: Record, e: Event)
    requires e.Refine?
    ensures IsFit(e, r) ==> IsRefinementOf(e.request, r) && IsTrusted(r, e.reports)
    ensures !(IsTrusted(r, e.reports) && IsReplaced(r, e.reports))
  {
    hide IsRefinementOf, IsWithin, IsSameCamera;
  }

  lemma ActivationIsAccounted(r: Record, e: Event, records: Records, id: string)
    requires e.Activate? && id in records && r == records[id] && r.state == Active
    requires e.built.Some? ==> e.built.value.activationId !in records
    ensures IsAccounted(r, e, records, RecordsAfter(records, e)[id])
  {
  }

  lemma ListIsAccounted(r: Record, e: Event, records: Records, id: string)
    requires e.ListAll? && id in records && r == records[id] && r.state == Active
    ensures IsAccounted(r, e, records, RecordsAfter(records, e)[id])
  {
    RefreshedIs(r, e.seen);
    hide Refresh, IsTrusted, IsReplaced;
  }

  lemma OtherIsAccounted(r: Record, e: Event, records: Records, id: string)
    requires e.Refine? && id in records && r == records[id] && r.state == Active && r.activationId == id
    requires Text.Trim(e.request.activationId) != id
    ensures id in RecordsAfter(records, e) && IsAccounted(r, e, records, RecordsAfter(records, e)[id])
  {
    hide Text.Trim, FindEntry, Refresh, Refinable, Apply, IsTrusted, IsReplaced, IsWithin;
  }

  lemma RevocationIsAccounted(r: Record, e: Event, records: Records, id: string)
    requires e.Revoke? && id in records && r == records[id] && r.state == Active && r.activationId == id
    ensures id in RecordsAfter(records, e) && IsAccounted(r, e, records, RecordsAfter(records, e)[id])
  {
    hide Text.Trim;
  }

  lemma BuiltIsNew(l: Ledger, e: Event)
    requires IsSound(l, e) && e.Activate? && e.built.Some?
    ensures e.built.value.activationId !in l.records
  {
  }

  lemma RecordsStay(records: Records, e: Event, id: string)
    requires id in records
    ensures id in RecordsAfter(records, e)
  {
    hide Text.Trim, FindEntry, Refresh, Refinable, Apply, SupersededOf;
  }

  /** What one event makes of an active record, and why: superseded by a new record, invalidated because its camera was
      replaced, revoked by name; usable while trusted; moved by the refinements that fit it. */
  lemma StepIsAccounted(l: Ledger, e: Event, id: string)
    requires Good(l) && IsSound(l, e) && id in l.records && l.records[id].state == Active
    ensures id in RecordsAfter(l.records, e) && IsAccounted(l.records[id], e, l.records, RecordsAfter(l.records, e)[id])
  {
    hide *;
    GoodAt(l, id);
    RecordsStay(l.records, e, id);
    var r := l.records[id];
    match e
    case ListAll(_) => ListIsAccounted(r, e, l.records, id);
    case Activate(_, _, built, _) =>
      if built.Some? {
        BuiltIsNew(l, e);
      }
      ActivationIsAccounted(r, e, l.records, id);
    case Refine(request, _, _, _, _) =>
      if Text.Trim(request.activationId) == id {
        RefinementIsAccounted(r, e, l.records);
      } else {
        OtherIsAccounted(r, e, l.records, id);
      }
    case Revoke(_, _, _) => RevocationIsAccounted(r, e, l.records, id);
  }

  /** A record that is not active is never usable again once looked at, never moves, and changes its state only by being
      revoked. */
  lemma EndedIsAccounted(l: Ledger, e: Event, id: string)
    requires Good(l) && IsSound(l, e) && id in l.records && l.records[id].state != Active
    ensures id in RecordsAfter(l.records, e)
    ensures var r, s := l.records[id], RecordsAfter(l.records, e)[id];
      && (s.state == if Revokes(e, r) then Revoked else r.state) && !s.motionUsable
      && s == r.(state := s.state, motionUsable := s.motionUsable)
  {
    hide *;
    GoodAt(l, id);
    RecordsStay(l.records, e, id);
    WellKeptIsProper(l.starts[id], l.adopted[id], l.records[id]);
    if e.Activate? && e.built.Some? {
      BuiltIsNew(l, e);
    }
    EndedStep(l.records[id], e, l.records, id);
  }

  lemma WellKeptIsProper(start: Record, adopted: seq<Adopted>, r: Record)
    requires IsWellKept(start, adopted, r)
    ensures r.motionUsable ==> r.state == Active
  {
    hide IsChain;
  }

  lemma EndedStep(r: Record, e: Event, records: Records, id: string)
    requires id in records && r == records[id] && r.state != Active && !r.motionUsable && r.activationId == id
    requires e.Activate? && e.built.Some? ==> e.built.value.activationId !in records
    ensures id in RecordsAfter(records, e)
    ensures var s := RecordsAfter(records, e)[id];
      && (s.state == if Revokes(e, r) then Revoked else r.state) && !s.motionUsable
      && s == r.(state := s.state, motionUsable := s.motionUsable)
  {
    hide Text.Trim, FindEntry, Apply, IsNearVector;
  }

  /** A record appears only as the one an activation hands over that is configured, new to the Manager and published. */
  lemma AppearsOnlyActivated(l: Ledger, e: Event, id: string)
    requires IsSound(l, e) && id !in l.records && id in RecordsAfter(l.records, e)
    ensures Supersedes(e, l.records) && id == e.built.value.activationId
    ensures RecordsAfter(l.records, e)[id] == e.built.value
  {
    hide Text.Trim, FindEntry, Refresh, Refinable, Apply, SupersededOf;
  }

  // ----- what the callers are told

  predicate IsComplete(request: RefineRequest) {
    Text.Trim(request.requestId) != "" && Text.Trim(request.updatedBy) != "" && Text.Trim(request.activationId) != ""
  }

  /** What a refinement is told: the record when it is remembered with the same content, or fits and is published; and
      otherwise what is missing. */
  lemma RefinementIsTold(records: Records, e: Event)
    requires e.Refine? && forall id :: id in records ==> records[id].activationId == id
    ensures var reply := Refined(records, e.request, e.digest, e.reports, e.evidence, e.published).1;
      var id := Text.Trim(e.request.activationId);
      if !IsComplete(e.request) then reply == Err(BadRequest)
      else if id !in records then reply == Err(NotFound)
      else if IsRefinementOf(e.request, records[id]) then
        if records[id].state != Active || !IsFit(e, records[id]) then reply == Err(Conflict)
        else if !e.published then reply == Err(NotPublished)
        else reply.Ok? && reply.value.worldFromBase == e.request.proposed
      else
        exists entry :: entry in records[id].journal && entry.requestId == Text.Trim(e.request.requestId)
                        && reply == if entry.digest == e.digest then Ok(records[id]) else Err(Conflict)
  {
    hide Text.Trim, FindEntry, Refresh, IsNearVector, IsWithin, IsTrusted, IsReplaced, RefinedName;
    var id := Text.Trim(e.request.activationId);
    if id in records {
      RefreshedIs(records[id], e.reports);
      FoundIff(records[id].journal, Text.Trim(e.request.requestId));
      NearIff(e.request.proposed.translation.value, Plus(e.request.source.translation.value, e.request.delta));
    }
  }

  /** What a revocation is told. */
  lemma RevocationIsTold(records: Records, id: string, request: RevokeRequest, published: bool)
    ensures var reply := RevokedBy(records, id, request, published).1;
      if Text.Trim(request.requestId) == "" || Text.Trim(request.revokedBy) == "" || Text.Trim(request.reason) == ""
      then reply == Err(BadRequest)
      else if id !in records then reply == Err(NotFound)
      else if records[id].state == Revoked then reply == Ok(records[id])
      else if published then reply == Ok(records[id].(state := Revoked, motionUsable := false))
      else reply == Err(NotPublished)
  {
    hide Text.Trim;
  }
}
