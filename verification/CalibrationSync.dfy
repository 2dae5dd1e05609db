/** The Manager's records and the Fabric together: exactly which steps make the Fabric's answers differ from the active
    calibration.  Nothing is assumed of the Manager's clock, and either service may restart. */
module CalibrationSync {
  import opened Common
  import opened RigidTransforms
  import opened Calibration
  import opened CalibrationSeam
  import FabricIngest
  import Runs = CalibrationRuns
  import TransformHistory
  import TransformResolution
  import Text

  type EdgeKey = TransformHistory.EdgeKey
  type Fabric = FabricIngest.Fabric

  /** A publication reaches the Fabric and is answered, never arrives, or arrives and its answer is lost. */
  datatype Delivery = Answered | Lost | AnswerLost

  /** The Manager's records, under the identifiers of its present boot, and the Fabric. */
  datatype Joint = Joint(ledger: Runs.Ledger, fabric: Fabric, me: Origin)

  /** One handler call: what it offers the Fabric, at which clock reading, and what becomes of the publication. */
  datatype Call = Call(event: Runs.Event, batch: seq<Transition>, t: nat, delivery: Delivery)

  // ----- one call

  predicate Offers(records: Records, e: Runs.Event) {
    match e
    case ListAll(_) => false
    case Activate(configured, activation, built, _) => OffersActivation(records, configured, activation, built)
    case Refine(request, _, reports, evidence, _) => OffersRefinement(records, request, reports, evidence)
    case Revoke(id, revocation, _) => OffersRevocation(records, id, revocation)
  }

  function RefinedRecord(records: Records, e: Runs.Event): Record
    requires e.Refine? && Offers(records, e)
  {
    Calibration.RefinedRecord(records, e.request, e.digest, e.reports, e.evidence)
  }

  /** What the handler offers, as the handlers of `CalibrationManager` return it. */
  ghost predicate IsBatchFor(records: Records, e: Runs.Event, batch: seq<Transition>) {
    if !Offers(records, e) then batch == []
    else match e
      case Activate(_, _, built, _) => Calibration.Publishes(batch, records, built.value)
      case Refine(_, _, _, _, _) => batch == [Transition(RefinedRecord(records, e), true)]
      case Revoke(id, _, _) => batch == [Transition(RevokedRecord(records[id]), false)]
      case ListAll(_) => false
  }

  /** The Fabric after the call, and whether the handler learns that the whole batch was taken. */
  function Sent(s: Joint, c: Call, cap: nat): (Fabric, bool) {
    if c.batch == [] || c.delivery == Lost then (s.fabric, false)
    else
      var (after, ok) := Delivered(s.fabric, c.batch, c.t, s.me, cap);
      (after, ok && c.delivery == Answered)
  }

  function JointAfter(s: Joint, c: Call, cap: nat): Joint {
    Joint(Runs.After(s.ledger, c.event), Sent(s, c, cap).0, s.me)
  }

  /** The call is one the Manager can make, and what it takes the publication's result to be is what it learned. */
  ghost predicate IsCall(s: Joint, c: Call, cap: nat) {
    && IsBatchFor(s.ledger.records, c.event, c.batch) && Runs.IsSound(s.ledger, c.event)
    && (Offers(s.ledger.records, c.event) ==> c.event.published == Sent(s, c, cap).1)
  }

  // ----- agreement

  predicate HasActive(records: Records) {
    exists id :: id in records && records[id].state == Active
  }

  predicate HasActiveOn(records: Records, key: EdgeKey) {
    exists id :: id in records && records[id].state == Active && EdgeOf(records[id]) == key
  }

  /** The calibration the Manager holds active on an edge. */
  ghost function Held(records: Records, key: EdgeKey): Option<Calibrated> {
    if HasActiveOn(records, key)
    then
      var id :| id in records && records[id].state == Active && EdgeOf(records[id]) == key;
      Some(CalibrationOf(records[id]))
    else None
  }

  /** To every query on every edge the Fabric answers, under the Manager's authority, with the calibration the Manager
      holds active there, and with nothing when there is none. */
  ghost predicate Agrees(s: Joint) {
    forall key, q, slerp :: CalibrationIn(Answer(s.fabric, key, q, slerp)) == Held(s.ledger.records, key)
  }

  // The same, in the terms of what is heard.
  ghost predicate Matches(s: Joint) {
    forall key :: Heard(s.fabric, key) == Held(s.ledger.records, key)
  }

  lemma AgreesIsMatches(s: Joint, cap: nat)
    requires Kept(s.fabric, cap)
    ensures Agrees(s) <==> Matches(s)
  {
    hide Kept, Answer, Heard, Held, CalibrationIn;
    forall key, q, slerp
      ensures CalibrationIn(Answer(s.fabric, key, q, slerp)) == Heard(s.fabric, key)
    {
      DecidingAnswers(s.fabric, cap, key, q, slerp);
    }
    var q := TransformResolution.EdgeQuery(0, 0, None, 0);
    var slerp: TransformResolution.Slerp := (a, b, x) => a;
    if Agrees(s) {
      forall key
        ensures Heard(s.fabric, key) == Held(s.ledger.records, key)
      {
        assert CalibrationIn(Answer(s.fabric, key, q, slerp)) == Held(s.ledger.records, key);
      }
    }
  }

  lemma HeldIs(records: Records, id: string, key: EdgeKey)
    requires Runs.OneActive(records) && id in records && records[id].state == Active
    ensures Held(records, key) == if key == EdgeOf(records[id]) then Some(CalibrationOf(records[id])) else None
  {
    hide CalibrationOf;
  }

  lemma NoneHeld(records: Records, key: EdgeKey)
    requires !HasActive(records)
    ensures Held(records, key) == None
  {
    hide CalibrationOf, EdgeOf;
  }

  // ----- the breaking steps

  /** The camera's report is there, and names another device or another calibration revision. */
  predicate CameraChanged(r: Record, seen: Reports) {
    && r.cameraId in seen
    && var camera := seen[r.cameraId];
       || (camera.device.Some? && camera.device.value != r.cameraDevice)
       || camera.calibrationRevision != Some(r.cameraRevision)
  }

  /** A record of this refinement is active and its camera has changed. */
  predicate Invalidates(records: Records, request: RefineRequest, reports: Reports) {
    var id := Text.Trim(request.activationId);
    && IsNamed(request) && id in records && FindEntry(records[id].journal, Text.Trim(request.requestId)).None?
    && records[id].state == Active && CameraChanged(records[id], reports)
  }

  /** The whole batch is taken and the handler learns it. */
  predicate Confirmed(c: Call) {
    c.delivery == Answered && ValidPrefix(c.batch) == |c.batch|
  }

  /** What the Fabric comes to say of an edge: of the samples it holds there and of those of the batch that it takes, as
      far as there is room for them, the latest. */
  function Comes(s: Joint, c: Call, cap: nat, key: EdgeKey): Option<Calibrated> {
    if c.delivery == Lost then Heard(s.fabric, key)
    else Voice(LineAfter(s.fabric, c.batch, c.t, s.me, cap, key))
  }

  /** What the Manager comes to hold on an edge, when no camera has changed: the new record and nothing else once an
      activation is confirmed, the refined record, nothing where the active record is revoked. */
  ghost function Becomes(s: Joint, c: Call, key: EdgeKey): Option<Calibrated> {
    var records, e := s.ledger.records, c.event;
    if !Offers(records, e) || !Confirmed(c) then Held(records, key)
    else match e
      case Activate(_, _, built, _) => if key == EdgeOf(built.value) then Some(CalibrationOf(built.value)) else None
      case Refine(_, _, _, _, _) =>
        var updated := RefinedRecord(records, e);
        if key == EdgeOf(updated) then Some(CalibrationOf(updated)) else Held(records, key)
      case Revoke(id, _, _) =>
        if records[id].state == Active && key == EdgeOf(records[id]) then None else Held(records, key)
      case ListAll(_) => Held(records, key)
  }

  /** A refresh takes an active record out of ACTIVE. */
  predicate Ends(records: Records, e: Runs.Event) {
    match e
    case ListAll(seen) => exists id :: id in records && records[id].state == Active && CameraChanged(records[id], seen)
    case Refine(request, _, reports, _, _) => Invalidates(records, request, reports)
    case _ => false
  }

  /** The calls after which the two disagree: a camera has changed, or an edge of the batch comes to say something else
      than what the Manager comes to hold there. */
  ghost predicate Breaks(s: Joint, c: Call, cap: nat) {
    || Ends(s.ledger.records, c.event)
    || exists i :: 0 <= i < |c.batch| && Differs(s, c, cap, EdgeOf(c.batch[i].record))
  }

  ghost predicate Differs(s: Joint, c: Call, cap: nat, key: EdgeKey) {
    Comes(s, c, cap, key) != Becomes(s, c, key)
  }

  /** What a batch of one transition makes an edge say: the transition if it arrives, its frames are valid, its sequence
      passes, and nothing later still stands when room is made for it. */
  lemma OneComes(s: Joint, c: Call, cap: nat)
    requires |c.batch| == 1 && Kept(s.fabric, cap) && cap > 0
    ensures var key := EdgeOf(c.batch[0].record);
      var stays := TransformHistory.LastN(LineOn(s.fabric, key), cap - 1);
      Comes(s, c, cap, key) ==
      if c.delivery == Lost || !HasValidFrames(c.batch[0].record) || !Passes(s.fabric, c.t, s.me)
      then Heard(s.fabric, key)
      else if IsInTime(LatestOf(stays), c.t) then SaysOf(c.batch[0])
      else Voice(stays)
  {
    hide HasValidFrames, EdgeOf, Kept, LineOn, LatestOf, SaysOf, Passes, TransformHistory.LastN;
    var key := EdgeOf(c.batch[0].record);
    KeptIsBounded(s.fabric, cap, key);
    ShortIsWhole(LineOn(s.fabric, key), cap);
    TakenOfOne(s.fabric, c.batch, c.t, s.me);
    UtteredIsHeard(LineOn(s.fabric, key), Utterance(c.t, SaysOf(c.batch[0])), cap);
  }

  lemma TakenOfOne(f: Fabric, batch: seq<Transition>, t: nat, me: Origin)
    requires |batch| == 1
    ensures TakenOn(f, batch, t, me, ValidPrefix(batch), EdgeOf(batch[0].record)) ==
            if HasValidFrames(batch[0].record) && Passes(f, t, me) then [Some(Utterance(t, SaysOf(batch[0])))] else []
  {
    hide HasValidFrames, EdgeOf, SaysOf, Passes;
    assert TakenOn(f, batch, t, me, 0, EdgeOf(batch[0].record)) == [];
  }

  /** With at most one record active the batch of an activation has at most two transitions. */
  lemma SupersessionIsShort(batch: seq<Transition>, records: Records, built: Record)
    requires Calibration.Publishes(batch, records, built) && Runs.OneActive(records)
    ensures !HasActive(records) ==> batch == [Transition(built, true)]
    ensures forall id :: id in records && records[id].state == Active ==>
        batch == [Transition(SupersededOf(records[id]), false), Transition(built, true)]
  {
    var ids :| IsSupersession(batch, ids, records, built);
    hide SupersededOf;
    if |ids| > 1 {
      TwoActive(ids, records);
    }
    hide Runs.OneActive;
    if |ids| == 1 {
      assert ids[0] in ids;
    }
  }

  lemma TwoActive(ids: seq<string>, records: Records)
    requires |ids| > 1 && ids[0] != ids[1] && forall id :: id in ids ==> id in records && records[id].state == Active
    ensures !Runs.OneActive(records)
  {
    assert ids[0] in ids && ids[1] in ids;
  }

  // ----- what the Manager comes to hold

  lemma GoodHasOneActive(l: Runs.Ledger)
    requires Runs.Good(l)
    ensures Runs.OneActive(l.records) && forall id :: id in l.records ==> l.records[id].activationId == id
  {
    hide Runs.OneActive, Runs.IsWellKept;
  }

  /** Refreshing takes a record out of ACTIVE exactly when its camera has changed, and never changes its calibration. */
  lemma RefreshEndsIff(r: Record, seen: Reports)
    ensures var after := Refresh(r, seen);
      && EdgeOf(after) == EdgeOf(r) && CalibrationOf(after) == CalibrationOf(r)
      && (after.state == Active <==> r.state == Active && !CameraChanged(r, seen))
  {
  }

  // Where the active records stay, with their calibrations, the same is held.
  lemma HeldStays(records: Records, after: Records, key: EdgeKey)
    requires Runs.OneActive(records) && after.Keys == records.Keys
    requires forall id :: id in records ==> EdgeOf(after[id]) == EdgeOf(records[id])
                                            && CalibrationOf(after[id]) == CalibrationOf(records[id])
                                            && (after[id].state == Active <==> records[id].state == Active)
    ensures Held(after, key) == Held(records, key)
  {
    hide EdgeOf, CalibrationOf;
  }

  // Where a record ceases to be active and none becomes so, its edge is left without.
  lemma HeldEnds(records: Records, after: Records, id: string)
    requires Runs.OneActive(records) && after.Keys == records.Keys && id in records
    requires records[id].state == Active && after[id].state != Active
    requires forall other :: other in records && after[other].state == Active ==> records[other].state == Active
    ensures Held(after, EdgeOf(records[id])) == None && Held(records, EdgeOf(records[id])).Some?
    ensures forall key :: Held(after, key) == None
  {
    hide EdgeOf, CalibrationOf;
  }

  lemma ListHolds(l: Runs.Ledger, seen: Reports, key: EdgeKey)
    requires Runs.Good(l)
    ensures var after := RefreshAll(l.records, seen);
      if Ends(l.records, Runs.ListAll(seen)) then HasActive(l.records) && Held(after, key) == None
      else Held(after, key) == Held(l.records, key)
  {
    hide Refresh, CameraChanged, EdgeOf, CalibrationOf, Held, Runs.OneActive, Runs.IsWellKept;
    GoodHasOneActive(l);
    var records, after := l.records, RefreshAll(l.records, seen);
    forall id | id in records
      ensures EdgeOf(after[id]) == EdgeOf(records[id]) && CalibrationOf(after[id]) == CalibrationOf(records[id])
      ensures after[id].state == Active <==> records[id].state == Active && !CameraChanged(records[id], seen)
    {
      RefreshEndsIff(records[id], seen);
    }
    if id :| id in records && records[id].state == Active && CameraChanged(records[id], seen) {
      HeldEnds(records, after, id);
    } else {
      HeldStays(records, after, key);
    }
  }

  // The records after a refinement, in the terms of what it offers.
  lemma RefineOutcome(l: Runs.Ledger, e: Runs.Event)
    requires e.Refine?
    ensures var id, records := Text.Trim(e.request.activationId), l.records;
      var after := Runs.After(l, e).records;
      if Offers(records, e) && e.published then id in records && after == records[id := RefinedRecord(records, e)]
      else if IsNamed(e.request) && id in records
          && FindEntry(records[id].journal, Text.Trim(e.request.requestId)).None?
      then after == records[id := Refresh(records[id], e.reports)]
      else after == records
  {
    hide Refresh, Refinable, IsNamed, FindEntry, Text.Trim, Apply;
  }

  lemma RefinedIsActive(records: Records, e: Runs.Event)
    requires e.Refine? && Offers(records, e)
    ensures var id := Text.Trim(e.request.activationId);
      var updated := RefinedRecord(records, e);
      && id in records && records[id].state == Active && !CameraChanged(records[id], e.reports)
      && IsNamed(e.request) && FindEntry(records[id].journal, Text.Trim(e.request.requestId)).None?
      && updated.state == Active && EdgeOf(updated) == EdgeOf(records[id])
  {
    hide IsNamed, FindEntry, Text.Trim;
  }

  lemma SentIsConfirmed(s: Joint, c: Call, cap: nat)
    requires c.batch != []
    ensures Sent(s, c, cap).1 <==> Confirmed(c)
  {
    hide ValidPrefix, OfferedUpTo;
  }

  // What an offered call takes the publication's result to be.
  lemma PublishedIsConfirmed(s: Joint, c: Call, cap: nat)
    requires IsCall(s, c, cap) && Offers(s.ledger.records, c.event)
    ensures c.batch != [] && c.event.published == Confirmed(c)
  {
    hide Offers, RefinedRecord, Sent, Confirmed, Runs.IsSound;
    OffersSomething(s.ledger.records, c.event, c.batch);
    SentIsConfirmed(s, c, cap);
  }

  lemma OffersSomething(records: Records, e: Runs.Event, batch: seq<Transition>)
    requires IsBatchFor(records, e, batch) && Offers(records, e)
    ensures batch != []
  {
    hide Offers, RefinedRecord, SupersededOf;
  }

  // One record replaced.
  lemma HeldReplaced(records: Records, id: string, r: Record, key: EdgeKey)
    requires Runs.OneActive(records) && id in records && EdgeOf(r) == EdgeOf(records[id])
    requires records[id].state == Active || r.state != Active
    ensures Held(records[id := r], key) ==
            if records[id].state != Active then Held(records, key)
            else if r.state == Active && key == EdgeOf(r) then Some(CalibrationOf(r)) else None
  {
    hide EdgeOf, CalibrationOf, Held;
    var after := records[id := r];
    if records[id].state != Active {
      HeldUnchanged(records, id, r, key);
    } else {
      AfterReplaced(records, id, r);
      if r.state == Active {
        HeldIs(after, id, key);
      } else {
        NoneHeld(after, key);
      }
    }
  }

  lemma AfterReplaced(records: Records, id: string, r: Record)
    requires Runs.OneActive(records) && id in records && records[id].state == Active
    ensures Runs.OneActive(records[id := r])
    ensures r.state != Active ==> !HasActive(records[id := r])
  {
  }

  lemma HeldUnchanged(records: Records, id: string, r: Record, key: EdgeKey)
    requires Runs.OneActive(records) && id in records && records[id].state != Active && r.state != Active
    ensures Held(records[id := r], key) == Held(records, key)
  {
    hide EdgeOf, CalibrationOf, Held;
    var after := records[id := r];
    assert Runs.OneActive(after);
    if other :| other in records && records[other].state == Active {
      HeldIs(records, other, key);
      HeldIs(after, other, key);
    } else {
      NoneHeld(records, key);
      NoneHeld(after, key);
    }
  }

  lemma RefineHolds(s: Joint, c: Call, cap: nat, key: EdgeKey)
    requires Runs.Good(s.ledger) && IsCall(s, c, cap) && c.event.Refine?
    ensures var after := Runs.After(s.ledger, c.event).records;
      if Ends(s.ledger.records, c.event)
      then HasActive(s.ledger.records) && c.batch == [] && Held(after, key) == None
      else Held(after, key) == Becomes(s, c, key)
  {
    hide Offers, RefinedRecord, IsCall, Confirmed, Runs.Good, Runs.After, Runs.OneActive, Runs.IsSound, Held, HasActive,
         CameraChanged, Refresh, EdgeOf, CalibrationOf, IsNamed, FindEntry, Text.Trim;
    var records, e := s.ledger.records, c.event;
    var id := Text.Trim(e.request.activationId);
    GoodHasOneActive(s.ledger);
    RefineOutcome(s.ledger, e);
    if Offers(records, e) {
      PublishedIsConfirmed(s, c, cap);
      RefinedIsActive(records, e);
      RefreshEndsIff(records[id], e.reports);
      HeldIs(records, id, key);
      if Confirmed(c) {
        HeldReplaced(records, id, RefinedRecord(records, e), key);
      } else {
        HeldReplaced(records, id, Refresh(records[id], e.reports), key);
      }
    } else {
      NothingOffered(s, c, cap);
      if id in records {
        RefreshEndsIff(records[id], e.reports);
        HeldReplaced(records, id, Refresh(records[id], e.reports), key);
        if records[id].state == Active {
          HeldIs(records, id, key);
          ThatIsActive(records, id);
        }
      }
    }
  }

  lemma ThatIsActive(records: Records, id: string)
    requires id in records && records[id].state == Active
    ensures HasActive(records)
  {
  }

  lemma NothingOffered(s: Joint, c: Call, cap: nat)
    requires IsCall(s, c, cap) && !Offers(s.ledger.records, c.event)
    ensures c.batch == []
  {
    hide Offers, Sent, Runs.IsSound;
  }

  lemma RevokeHolds(s: Joint, c: Call, cap: nat, key: EdgeKey)
    requires Runs.Good(s.ledger) && IsCall(s, c, cap) && c.event.Revoke?
    ensures Held(Runs.After(s.ledger, c.event).records, key) == Becomes(s, c, key)
  {
    hide IsCall, Confirmed, Runs.Good, Runs.OneActive, Runs.IsSound, Held, Offers, Runs.After, CalibrationOf, EdgeOf;
    var records, e := s.ledger.records, c.event;
    GoodHasOneActive(s.ledger);
    RevokeOutcome(s.ledger, e);
    if Offers(records, e) {
      PublishedIsConfirmed(s, c, cap);
      if Confirmed(c) {
        HeldReplaced(records, e.id, RevokedRecord(records[e.id]), key);
        if records[e.id].state == Active {
          HeldIs(records, e.id, key);
        }
      }
    }
  }

  lemma RevokeOutcome(l: Runs.Ledger, e: Runs.Event)
    requires e.Revoke?
    ensures Offers(l.records, e) ==>
        e.id in l.records && EdgeOf(RevokedRecord(l.records[e.id])) == EdgeOf(l.records[e.id])
    ensures Runs.After(l, e).records ==
            if Offers(l.records, e) && e.published then l.records[e.id := RevokedRecord(l.records[e.id])] else l.records
  {
    hide Text.Trim;
  }

  predicate IsNewRecord(r: Record, records: Records) {
    r.activationId !in records && r.state == Active
  }

  // What an activation sends, and the records after it.
  lemma ActivateRecordsAre(l: Runs.Ledger, e: Runs.Event)
    requires e.Activate? && Runs.IsSound(l, e)
    ensures Offers(l.records, e) ==> e.built.Some? && IsNewRecord(e.built.value, l.records)
    ensures Runs.After(l, e).records ==
            if Offers(l.records, e) && e.published
            then SupersedeAll(l.records)[e.built.value.activationId := e.built.value] else l.records
  {
    hide KnowsRequest, SupersedeAll, Text.Trim;
  }

  lemma ReplacesAll(records: Records, built: Record)
    requires IsNewRecord(built, records)
    ensures var after := SupersedeAll(records)[built.activationId := built];
      && Runs.OneActive(after) && built.activationId in after && after[built.activationId] == built
  {
  }

  lemma ActivateHolds(s: Joint, c: Call, cap: nat, key: EdgeKey)
    requires Runs.Good(s.ledger) && IsCall(s, c, cap) && c.event.Activate?
    ensures Held(Runs.After(s.ledger, c.event).records, key) == Becomes(s, c, key)
  {
    hide Confirmed, Runs.Good, Runs.OneActive, Runs.IsSound, Held, Offers, Runs.After, CalibrationOf, EdgeOf,
         SupersedeAll, Calibration.Publishes, Sent;
    var records, e := s.ledger.records, c.event;
    ActivateRecordsAre(s.ledger, e);
    if Offers(records, e) {
      PublishedIsConfirmed(s, c, cap);
      if Confirmed(c) {
        ReplacesAll(records, e.built.value);
        HeldIs(Runs.After(s.ledger, e).records, e.built.value.activationId, key);
      }
    }
  }

  /** What the Manager holds after a call: nothing if a camera has changed, else what the call makes it. */
  lemma CallHolds(s: Joint, c: Call, cap: nat, key: EdgeKey)
    requires Runs.Good(s.ledger) && IsCall(s, c, cap)
    ensures var after := Runs.After(s.ledger, c.event).records;
      if Ends(s.ledger.records, c.event)
      then HasActive(s.ledger.records) && c.batch == [] && Held(after, key) == None
      else Held(after, key) == Becomes(s, c, key)
  {
    hide Confirmed, Runs.Good, Held, RefreshAll, Runs.IsSound, Sent, HasActive, EdgeOf, CalibrationOf, CameraChanged,
         Invalidates, Offers;
    match c.event
    case ListAll(seen) =>
      ListHolds(s.ledger, seen, key);
      ListOffersNothing(s.ledger.records, seen);
    case Activate(_, _, _, _) => ActivateHolds(s, c, cap, key);
    case Refine(_, _, _, _, _) => RefineHolds(s, c, cap, key);
    case Revoke(_, _, _) => RevokeHolds(s, c, cap, key);
  }

  lemma ListOffersNothing(records: Records, seen: Reports)
    ensures !Offers(records, Runs.ListAll(seen))
  {
  }

  // ----- what the Fabric comes to say

  lemma SentSays(s: Joint, c: Call, cap: nat, key: EdgeKey)
    requires Kept(s.fabric, cap)
    ensures Heard(Sent(s, c, cap).0, key) == Comes(s, c, cap, key)
  {
    hide Kept, Delivered, LineOn, Voice, TransformHistory.LastN;
    BatchDecides(s.fabric, c.batch, c.t, s.me, cap, key);
    KeptIsBounded(s.fabric, cap, key);
    if c.batch == [] {
      NothingDelivered(s.fabric, c.t, s.me, cap);
    }
  }

  lemma NothingDelivered(f: Fabric, t: nat, me: Origin, cap: nat)
    ensures Delivered(f, [], t, me, cap).0 == f
  {
  }

  lemma UntouchedComes(s: Joint, c: Call, cap: nat, key: EdgeKey)
    requires Kept(s.fabric, cap) && forall i :: 0 <= i < |c.batch| ==> EdgeOf(c.batch[i].record) != key
    ensures Comes(s, c, cap, key) == Heard(s.fabric, key)
  {
    hide Kept, EdgeOf, LineOn, Voice, TransformHistory.LastN, HasValidFrames;
    NothingTaken(s.fabric, c.batch, c.t, s.me, ValidPrefix(c.batch), key);
    KeptIsBounded(s.fabric, cap, key);
    ShortIsWhole(LineOn(s.fabric, key), cap);
  }

  // A call only changes what is held on the edges of its batch.
  lemma UntouchedBecomes(s: Joint, c: Call, cap: nat, key: EdgeKey)
    requires Runs.Good(s.ledger) && IsCall(s, c, cap)
    requires forall i :: 0 <= i < |c.batch| ==> EdgeOf(c.batch[i].record) != key
    ensures Becomes(s, c, key) == Held(s.ledger.records, key)
  {
    hide Confirmed, Runs.Good, Held, Offers, Runs.IsSound, Sent, CalibrationOf, RefinedRecord, Runs.OneActive, EdgeOf,
         Calibration.Publishes, SupersededOf;
    var records, e := s.ledger.records, c.event;
    if Offers(records, e) && Confirmed(c) {
      match e
      case Activate(_, _, built, _) =>
        GoodHasOneActive(s.ledger);
        ActivateRecordsAre(s.ledger, e);
        SupersessionIsShort(c.batch, records, built.value);
        assert c.batch[|c.batch| - 1].record == built.value;
        if id :| id in records && records[id].state == Active {
          SupersededSameEdge(records[id]);
          HeldIs(records, id, key);
          assert c.batch[0].record == SupersededOf(records[id]);
        } else {
          NoneHeld(records, key);
        }
      case Refine(_, _, _, _, _) => assert c.batch[0].record == RefinedRecord(records, e);
      case Revoke(id, _, _) =>
        RevokeOutcome(s.ledger, e);
        assert c.batch[0].record == RevokedRecord(records[id]);
        RevokedSameEdge(records[id]);
      case ListAll(_) =>
    }
  }

  lemma SupersededSameEdge(r: Record)
    ensures EdgeOf(SupersededOf(r)) == EdgeOf(r)
  {
  }

  lemma RevokedSameEdge(r: Record)
    ensures EdgeOf(RevokedRecord(r)) == EdgeOf(r)
  {
  }

  // ----- the theorem

  /** From any state, agreeing or not: a call leaves the two in agreement exactly when every edge comes to say what the
      Manager comes to hold there; when a camera has changed, when nothing is said at all. */
  lemma CallAgreesIff(s: Joint, c: Call, cap: nat)
    requires Runs.Good(s.ledger) && Kept(s.fabric, cap) && IsCall(s, c, cap)
    ensures Agrees(JointAfter(s, c, cap)) <==>
      if Ends(s.ledger.records, c.event) then forall key :: Heard(s.fabric, key) == None
      else forall key :: !Differs(s, c, cap, key)
  {
    hide Kept, Runs.Good, IsCall, Sent, Heard, Held, Agrees, Ends, Comes, Becomes, Runs.After, HasActive;
    var after := JointAfter(s, c, cap);
    SentIsKept(s, c, cap);
    AgreesIsMatches(after, cap);
    if Ends(s.ledger.records, c.event) {
      CallHolds(s, c, cap, TransformHistory.EdgeKey("", ""));
      NothingSent(s, c, cap);
      forall key
        ensures Heard(after.fabric, key) == Held(after.ledger.records, key) <==> Heard(s.fabric, key) == None
      {
        CallHolds(s, c, cap, key);
      }
    } else {
      forall key
        ensures Heard(after.fabric, key) == Held(after.ledger.records, key) <==> !Differs(s, c, cap, key)
      {
        SentSays(s, c, cap, key);
        CallHolds(s, c, cap, key);
      }
    }
  }

  lemma NothingSent(s: Joint, c: Call, cap: nat)
    requires c.batch == []
    ensures Sent(s, c, cap).0 == s.fabric
  {
  }

  lemma SentIsKept(s: Joint, c: Call, cap: nat)
    requires Kept(s.fabric, cap)
    ensures Kept(Sent(s, c, cap).0, cap)
  {
    hide Kept, Delivered;
    DeliverKeeps(s.fabric, c.batch, c.t, s.me, cap);
  }

  /** Exactly when a handler call makes the answers of the Fabric differ from what the Manager holds, whatever the clock
      reads, whatever becomes of the publication and however full the edges are. */
  lemma CallKeepsSyncIff(s: Joint, c: Call, cap: nat)
    requires Runs.Good(s.ledger) && Kept(s.fabric, cap) && IsCall(s, c, cap) && Agrees(s)
    ensures Agrees(JointAfter(s, c, cap)) <==> !Breaks(s, c, cap)
  {
    hide Kept, Runs.Good, IsCall, JointAfter, Heard, Held, Agrees, Ends, Comes, Becomes, HasActive, EdgeOf;
    AgreesIsMatches(s, cap);
    CallAgreesIff(s, c, cap);
    if Ends(s.ledger.records, c.event) {
      EndsSomething(s, c, cap);
    } else {
      forall key | forall i :: 0 <= i < |c.batch| ==> EdgeOf(c.batch[i].record) != key
        ensures !Differs(s, c, cap, key)
      {
        UntouchedComes(s, c, cap, key);
        UntouchedBecomes(s, c, cap, key);
      }
    }
  }

  // An active record that is heard: something is.
  lemma EndsSomething(s: Joint, c: Call, cap: nat)
    requires Runs.Good(s.ledger) && IsCall(s, c, cap) && Matches(s) && Ends(s.ledger.records, c.event)
    ensures exists key :: Heard(s.fabric, key) != None
  {
    hide Runs.Good, IsCall, Heard, Held, Ends, Runs.OneActive;
    CallHolds(s, c, cap, TransformHistory.EdgeKey("", ""));
    GoodHasOneActive(s.ledger);
    var id :| id in s.ledger.records && s.ledger.records[id].state == Active;
    HeldIs(s.ledger.records, id, EdgeOf(s.ledger.records[id]));
    assert Heard(s.fabric, EdgeOf(s.ledger.records[id])) == Held(s.ledger.records, EdgeOf(s.ledger.records[id]));
  }

  /** A confirmed activation brings agreement back from any state, exactly when its edge comes to say the new
      calibration and every other edge comes to say nothing. */
  lemma ActivationRegainsIff(s: Joint, c: Call, cap: nat)
    requires Runs.Good(s.ledger) && Kept(s.fabric, cap) && IsCall(s, c, cap)
    requires c.event.Activate? && Offers(s.ledger.records, c.event) && Confirmed(c)
    ensures var built := c.event.built.value;
      Agrees(JointAfter(s, c, cap)) <==>
      && Comes(s, c, cap, EdgeOf(built)) == Some(CalibrationOf(built))
      && forall key :: key != EdgeOf(built) ==> Comes(s, c, cap, key) == None
  {
    hide Kept, Runs.Good, IsCall, JointAfter, Held, Agrees, Comes, Confirmed, EdgeOf, CalibrationOf;
    CallAgreesIff(s, c, cap);
    hide Offers;
    var built := c.event.built.value;
    forall key
      ensures Differs(s, c, cap, key) <==>
              Comes(s, c, cap, key) != if key == EdgeOf(built) then Some(CalibrationOf(built)) else None
    {
    }
  }

  // ----- whole runs

  /** A handler call; an observation of anyone else; a restart of the Manager under new identifiers, which forgets its
      records; or a restart of the Fabric, which forgets its samples. */
  datatype Step =
    | Handler(call: Call)
    | Foreign(o: FabricIngest.Observation)
    | Restart(origin: Origin)
    | FabricRestart

  function StepAfter(s: Joint, step: Step, cap: nat): Joint {
    match step
    case Handler(c) => JointAfter(s, c, cap)
    case Foreign(o) => s.(fabric := FabricIngest.Inserted(s.fabric, o, cap))
    case Restart(origin) => Joint(Runs.EMPTY, s.fabric, origin)
    case FabricRestart => s.(fabric := FabricIngest.EMPTY)
  }

  function JointRun(steps: seq<Step>, me: Origin, cap: nat): Joint {
    if steps == [] then Joint(Runs.EMPTY, FabricIngest.EMPTY, me)
    else StepAfter(JointRun(steps[..|steps| - 1], me, cap), steps[|steps| - 1], cap)
  }

  /** The step is one that can happen: others do not speak for the Manager's calibrations. */
  ghost predicate IsPossible(s: Joint, step: Step, cap: nat) {
    match step
    case Handler(c) => IsCall(s, c, cap)
    case Foreign(o) => IsForeign(o)
    case _ => true
  }

  /** A foreign sample breaks when it drives out the deciding sample of its edge and the next in line says something
      else; a restart of either service breaks when a record is active. */
  ghost predicate StepBreaks(s: Joint, step: Step, cap: nat) {
    match step
    case Handler(c) => Breaks(s, c, cap)
    case Foreign(o) =>
      && o.payload.Transform? && TakesRoom(s.fabric, o, o.payload.key)
      && Evicts(LineOn(s.fabric, o.payload.key), cap)
    case _ => HasActive(s.ledger.records)
  }

  ghost predicate PossibleRun(steps: seq<Step>, me: Origin, cap: nat) {
    forall i :: 0 <= i < |steps| ==> IsPossible(JointRun(steps[..i], me, cap), steps[i], cap)
  }

  ghost predicate IsConsistent(s: Joint, cap: nat) {
    Runs.Good(s.ledger) && Kept(s.fabric, cap)
  }

  lemma StepKeepsConsistent(s: Joint, step: Step, cap: nat)
    requires IsConsistent(s, cap) && IsPossible(s, step, cap)
    ensures IsConsistent(StepAfter(s, step, cap), cap)
  {
    hide Runs.Good, Kept, Runs.After, Sent, IsForeign, IsBatchFor, Runs.IsSound, Offers, FabricIngest.Inserted;
    match step
    case Handler(c) =>
      Runs.StepIsGood(s.ledger, c.event);
      SentIsKept(s, c, cap);
    case Foreign(o) => ForeignKeeps(s.fabric, o, cap);
    case Restart(_) => EmptyIsGood();
    case FabricRestart => StartIsKept(cap);
  }

  lemma EmptyIsGood()
    ensures Runs.Good(Runs.EMPTY)
  {
  }

  lemma EmptyIsSilent(key: EdgeKey)
    ensures Heard(FabricIngest.EMPTY, key) == None
  {
  }

  lemma ForeignIff(s: Joint, o: FabricIngest.Observation, cap: nat)
    requires Kept(s.fabric, cap) && Matches(s) && IsForeign(o)
    ensures Matches(StepAfter(s, Step.Foreign(o), cap)) <==> !StepBreaks(s, Step.Foreign(o), cap)
  {
    hide Kept, Held, FabricIngest.Inserted, LineOn, Voice, TransformHistory.LastN, Evicts, FabricIngest.OutcomeOf,
         IsForeign;
    var after := FabricIngest.Inserted(s.fabric, o, cap);
    forall key
      ensures Heard(after, key) != Heard(s.fabric, key) <==>
              TakesRoom(s.fabric, o, key) && Evicts(LineOn(s.fabric, key), cap)
    {
      ForeignLine(s.fabric, o, cap, key);
      KeptIsBounded(s.fabric, cap, key);
      EvictsIff(LineOn(s.fabric, key), cap);
    }
    if StepBreaks(s, Step.Foreign(o), cap) {
      assert Heard(after, o.payload.key) != Heard(s.fabric, o.payload.key);
    }
  }

  lemma RestartIff(s: Joint, origin: Origin)
    requires Runs.OneActive(s.ledger.records) && Matches(s)
    ensures Matches(Joint(Runs.EMPTY, s.fabric, origin)) <==> !HasActive(s.ledger.records)
    ensures Matches(s.(fabric := FabricIngest.EMPTY)) <==> !HasActive(s.ledger.records)
  {
    hide Held, Heard, Runs.OneActive;
    forall key
      ensures Held(map[], key) == None && Heard(FabricIngest.EMPTY, key) == None
    {
      NoneHeld(map[], key);
      EmptyIsSilent(key);
    }
    var records := s.ledger.records;
    if id :| id in records && records[id].state == Active {
      HeldIs(records, id, EdgeOf(records[id]));
      assert Heard(s.fabric, EdgeOf(records[id])) == Held(records, EdgeOf(records[id]));
      assert !Matches(Joint(Runs.EMPTY, s.fabric, origin));
    } else {
      forall key
        ensures Held(records, key) == None
      {
        NoneHeld(records, key);
      }
    }
  }

  /** Exactly when a step makes the two disagree. */
  lemma StepKeepsSyncIff(s: Joint, step: Step, cap: nat)
    requires IsConsistent(s, cap) && Agrees(s) && IsPossible(s, step, cap)
    ensures Agrees(StepAfter(s, step, cap)) <==> !StepBreaks(s, step, cap)
  {
    StepKeepsConsistent(s, step, cap);
    AgreesIsMatches(s, cap);
    AgreesIsMatches(StepAfter(s, step, cap), cap);
    hide Runs.Good, Kept, JointAfter, FabricIngest.Inserted, IsForeign, IsCall, Breaks, Matches, HasActive, Agrees,
         Evicts, TakesRoom, LineOn;
    match step
    case Handler(c) => CallKeepsSyncIff(s, c, cap);
    case Foreign(o) => ForeignIff(s, o, cap);
    case Restart(origin) =>
      GoodHasOneActive(s.ledger);
      RestartIff(s, origin);
    case FabricRestart =>
      GoodHasOneActive(s.ledger);
      RestartIff(s, s.me);
  }

  lemma PossiblePrefix(steps: seq<Step>, me: Origin, cap: nat, n: nat)
    requires PossibleRun(steps, me, cap) && n <= |steps|
    ensures PossibleRun(steps[..n], me, cap)
  {
    hide JointRun, IsPossible;
    forall i | 0 <= i < n
      ensures IsPossible(JointRun(steps[..n][..i], me, cap), steps[..n][i], cap)
    {
      assert steps[..n][..i] == steps[..i];
    }
  }

  lemma {:induction false} EveryRunIsConsistent(steps: seq<Step>, me: Origin, cap: nat)
    requires PossibleRun(steps, me, cap)
    ensures IsConsistent(JointRun(steps, me, cap), cap)
  {
    hide IsPossible, StepAfter, Runs.Good, Kept;
    if steps == [] {
      EmptyIsGood();
      StartIsKept(cap);
    } else {
      var n := |steps| - 1;
      assert IsPossible(JointRun(steps[..n], me, cap), steps[n], cap);
      PossiblePrefix(steps, me, cap, n);
      EveryRunIsConsistent(steps[..n], me, cap);
      StepKeepsConsistent(JointRun(steps[..n], me, cap), steps[n], cap);
    }
  }

  /** The two agree after each of the first `n` steps, and before them. */
  ghost predicate AgreesThroughout(steps: seq<Step>, me: Origin, cap: nat, n: nat)
    requires n <= |steps|
  {
    forall i :: 0 <= i <= n ==> Agrees(JointRun(steps[..i], me, cap))
  }

  /** None of the first `n` steps breaks. */
  ghost predicate NothingBreaks(steps: seq<Step>, me: Origin, cap: nat, n: nat)
    requires n <= |steps|
  {
    forall i :: 0 <= i < n ==> !StepBreaks(JointRun(steps[..i], me, cap), steps[i], cap)
  }

  lemma StartAgrees(me: Origin, cap: nat)
    ensures Agrees(JointRun([], me, cap))
  {
  }

  lemma LastStep(steps: seq<Step>, me: Origin, cap: nat, n: nat)
    requires n < |steps|
    ensures JointRun(steps[..n + 1], me, cap) == StepAfter(JointRun(steps[..n], me, cap), steps[n], cap)
  {
    hide StepAfter;
    assert steps[..n + 1][..n] == steps[..n];
  }

  /** Every run: the two agree at each of its moments exactly when none of its steps breaks. */
  lemma {:induction false} RunAgreesIff(steps: seq<Step>, me: Origin, cap: nat, n: nat)
    requires PossibleRun(steps, me, cap) && n <= |steps|
    ensures AgreesThroughout(steps, me, cap, n) <==> NothingBreaks(steps, me, cap, n)
  {
    hide IsPossible, StepAfter, IsConsistent, Agrees, StepBreaks, JointRun;
    if n == 0 {
      StartAgrees(me, cap);
      assert steps[..0] == [];
    } else {
      RunAgreesIff(steps, me, cap, n - 1);
      var before := JointRun(steps[..n - 1], me, cap);
      LastStep(steps, me, cap, n - 1);
      if Agrees(before) {
        PossiblePrefix(steps, me, cap, n - 1);
        EveryRunIsConsistent(steps[..n - 1], me, cap);
        StepKeepsSyncIff(before, steps[n - 1], cap);
      }
    }
  }

  // ----- what the Fabric answers

  /** In every run without a breaking step, to every query on every edge, the Fabric answers under the Manager's
      authority exactly the record the Manager holds active there, and nothing when there is none. */
  lemma FabricAnswersActive(steps: seq<Step>, me: Origin, cap: nat, key: EdgeKey, q: TransformResolution.EdgeQuery,
                            slerp: TransformResolution.Slerp)
    requires PossibleRun(steps, me, cap) && NothingBreaks(steps, me, cap, |steps|)
    ensures var s := JointRun(steps, me, cap);
      var answer := Answer(s.fabric, key, q, slerp);
      var records := s.ledger.records;
      && (answer.Some? <==> HasActiveOn(records, key))
      && forall id :: id in records && records[id].state == Active && EdgeOf(records[id]) == key ==>
           && answer.value.parentFromChild == PoseOf(records[id].worldFromBase)
           && answer.value.calibrationRevision == Some(records[id].calibrationRevision)
           && answer.value.sessionEpoch == Some(records[id].sessionEpoch)
  {
    hide *;
    EveryRunIsConsistent(steps, me, cap);
    RunAgreesIff(steps, me, cap, |steps|);
    AgreesAtEnd(steps, me, cap);
    AgreedAnswer(JointRun(steps, me, cap), cap, key, q, slerp);
  }

  lemma AgreesAtEnd(steps: seq<Step>, me: Origin, cap: nat)
    requires AgreesThroughout(steps, me, cap, |steps|)
    ensures Agrees(JointRun(steps, me, cap))
  {
    hide JointRun, Agrees;
    assert steps[..|steps|] == steps;
  }

  lemma AgreedAnswer(s: Joint, cap: nat, key: EdgeKey, q: TransformResolution.EdgeQuery,
                     slerp: TransformResolution.Slerp)
    requires IsConsistent(s, cap) && Agrees(s)
    ensures var answer := Answer(s.fabric, key, q, slerp);
      var records := s.ledger.records;
      && (answer.Some? <==> HasActiveOn(records, key))
      && forall id :: id in records && records[id].state == Active && EdgeOf(records[id]) == key ==>
           && answer.value.parentFromChild == PoseOf(records[id].worldFromBase)
           && answer.value.calibrationRevision == Some(records[id].calibrationRevision)
           && answer.value.sessionEpoch == Some(records[id].sessionEpoch)
  {
    hide Answer, Kept, Runs.Good, Runs.OneActive;
    GoodHasOneActive(s.ledger);
    var records := s.ledger.records;
    assert CalibrationIn(Answer(s.fabric, key, q, slerp)) == Held(records, key);
    hide Agrees;
    forall id | id in records && records[id].state == Active && EdgeOf(records[id]) == key
      ensures Held(records, key) == Some(CalibrationOf(records[id]))
    {
      HeldIs(records, id, key);
    }
  }
}
