/** The seam between the Manager's calibration handlers and the Fabric: which published transitions the Fabric takes,
    and what it then says of each edge under the Manager's authority.  Nothing is assumed of the Manager's clock. */
module CalibrationSeam {
  import opened Common
  import opened RigidTransforms
  import opened TransformHistory
  import opened TransformResolution
  import opened FabricIngest
  import opened Calibration
  import Text

  const STREAM := "transform.world.arm_base"
  const RECORD_STREAM := "manager.workcell_calibration.activation"
  const AUTHORITY := "manager.workcell_calibration_activation"
  const PROVIDER := "manager.workcell_calibration"

  /** The Manager's instance and boot identifiers. */
  datatype Origin = Origin(instanceId: string, bootId: string)

  // ----- what the Manager publishes

  function EdgeOf(r: Record): EdgeKey {
    EdgeKey(r.worldFrame, r.armBaseFrame)
  }

  function PoseOf(p: Calibration.Payload): Rigid {
    Rigid(p.translation.value, p.rotation.value)
  }

  /** The sample of a transition published at `t`, before the Fabric gives it an id. */
  function SampleOf(tr: Transition, t: nat, instanceId: string): Sample {
    var r := tr.record;
    Sample(0, t, AUTHORITY, true, Some(r.sessionEpoch), Some(r.calibrationRevision), PROVIDER, instanceId, Some(true),
           if tr.active then None else Some(t + 1_000_000), Some(tr.active), false, PoseOf(r.worldFromBase))
  }

  /** The two observations of a transition, from its sequence base. */
  function TransformObservation(tr: Transition, t: nat, base: nat, me: Origin): Observation {
    Observation(STREAM, "physical_agent.transform", me.instanceId, me.bootId, base,
                Transform(EdgeOf(tr.record), SampleOf(tr, t, me.instanceId)))
  }

  function RecordObservation(base: nat, me: Origin): Observation {
    Observation(RECORD_STREAM, "physical_agent.workcell_calibration_activation", me.instanceId, me.bootId, base + 1,
                Other(true))
  }

  /** `workcell_calibration_transition_observations`: one clock reading, sequence bases four apart. */
  function Observations(batch: seq<Transition>, t: nat, me: Origin): seq<Observation> {
    if batch == [] then []
    else
      var n := |batch| - 1;
      Observations(batch[..n], t, me)
          + [TransformObservation(batch[n], t, t + 4 * n, me), RecordObservation(t + 4 * n, me)]
  }

  /** The Fabric takes the record's frames. */
  predicate HasValidFrames(r: Record) {
    Text.Trim(r.worldFrame) != "" && Text.Trim(r.armBaseFrame) != "" && r.worldFrame != r.armBaseFrame
  }

  lemma TransformIsValid(tr: Transition, t: nat, base: nat, me: Origin)
    ensures IsValid(TransformObservation(tr, t, base, me)) <==> HasValidFrames(tr.record)
    ensures IsValid(RecordObservation(base, me))
  {
    assert Text.IsTrimmed(STREAM) && Text.IsTrimmed("physical_agent.transform");
    assert Text.IsTrimmed(RECORD_STREAM) && Text.IsTrimmed("physical_agent.workcell_calibration_activation");
    Text.TrimmedIsFixed(STREAM);
    Text.TrimmedIsFixed(RECORD_STREAM);
    Text.TrimmedIsFixed("physical_agent.transform");
    Text.TrimmedIsFixed("physical_agent.workcell_calibration_activation");
    hide Text.Trim, Text.IsTrimmed;
  }

  // ----- what the Fabric says

  /** What an answer tells of a calibration. */
  datatype Calibrated = Calibrated(pose: Rigid, revision: Option<string>, epoch: Option<string>)

  /** A retained sample of the Manager: when it was observed, and the calibration it gives, or that there is none. */
  datatype Utterance = Utterance(atUs: nat, says: Option<Calibrated>)

  /** The retained samples of an edge in arrival order; those of others only take room. */
  type Line = seq<Option<Utterance>>

  function CalibrationOf(r: Record): Calibrated {
    Calibrated(PoseOf(r.worldFromBase), Some(r.calibrationRevision), Some(r.sessionEpoch))
  }

  function SaysOf(tr: Transition): Option<Calibrated> {
    if tr.active then Some(CalibrationOf(tr.record)) else None
  }

  function Uttered(s: Sample): Option<Utterance> {
    if s.authority != AUTHORITY then None
    else Some(Utterance(s.observedAtUs, if s.motionUsable == Some(true)
                                        then Some(Calibrated(s.pose, s.calibrationRevision, s.sessionEpoch)) else None))
  }

  function LineOf(fifo: seq<Sample>): (line: Line)
    ensures |line| == |fifo|
  {
    seq(|fifo|, i requires 0 <= i < |fifo| => Uttered(fifo[i]))
  }

  function LineOn(f: Fabric, key: EdgeKey): Line {
    LineOf(SamplesOf(f, key))
  }

  /** The latest utterance by time, of equal ones the last to arrive. */
  function LatestOf(line: Line): Option<Utterance> {
    if line == [] then None
    else
      var n := |line| - 1;
      var earlier := LatestOf(line[..n]);
      if line[n].None? || (earlier.Some? && line[n].value.atUs < earlier.value.atUs) then earlier else line[n]
  }

  function Voice(line: Line): Option<Calibrated> {
    var latest := LatestOf(line);
    if latest.Some? then latest.value.says else None
  }

  /** What the Fabric says of an edge under the Manager's authority. */
  function Heard(f: Fabric, key: EdgeKey): Option<Calibrated> {
    Voice(LineOn(f, key))
  }

  /** No later utterance stands in the line. */
  predicate IsInTime(latest: Option<Utterance>, t: nat) {
    latest.Some? ==> latest.value.atUs <= t
  }

  // ----- offering

  /** The sequence is newer than what the Fabric holds of the same instance and boot on the stream, if anything. */
  predicate Passes(f: Fabric, sequence: nat, me: Origin) {
    STREAM in f.latest && f.latest[STREAM].providerInstanceId == me.instanceId && f.latest[STREAM].bootId == me.bootId
    ==> f.latest[STREAM].sequence < sequence
  }

  /** One transition offered, its frames being valid. */
  function Offered(f: Fabric, tr: Transition, t: nat, base: nat, me: Origin, cap: nat): Fabric {
    Inserted(Inserted(f, TransformObservation(tr, t, base, me), cap), RecordObservation(base, me), cap)
  }

  /** The first `n` transitions of a batch offered. */
  function OfferedUpTo(f: Fabric, batch: seq<Transition>, t: nat, me: Origin, cap: nat, n: nat): Fabric
    requires n <= |batch|
  {
    if n == 0 then f
    else Offered(OfferedUpTo(f, batch, t, me, cap, n - 1), batch[n - 1], t, t + 4 * (n - 1), me, cap)
  }

  /** The number of leading transitions with valid frames: the Fabric stops a batch at the first without. */
  function ValidPrefix(batch: seq<Transition>): (n: nat)
    ensures n <= |batch|
    ensures forall i :: 0 <= i < n ==> HasValidFrames(batch[i].record)
    ensures n < |batch| ==> !HasValidFrames(batch[n].record)
  {
    if batch == [] || !HasValidFrames(batch[0].record) then 0 else 1 + ValidPrefix(batch[1..])
  }

  function Delivered(f: Fabric, batch: seq<Transition>, t: nat, me: Origin, cap: nat): (Fabric, bool) {
    (OfferedUpTo(f, batch, t, me, cap, ValidPrefix(batch)), ValidPrefix(batch) == |batch|)
  }

  /** An observation that does not speak for the Manager's calibrations. */
  predicate IsForeign(o: Observation) {
    o.payload.Transform? ==> o.payload.sample.authority != AUTHORITY
  }

  /** The observation is taken as a sample of the edge. */
  predicate TakesRoom(f: Fabric, o: Observation, key: EdgeKey) {
    OutcomeOf(f, o) == Accepted && o.payload.Transform? && o.payload.key == key
  }

  // ----- delivering is publishing

  lemma PublishedOne(f: Fabric, o: Observation, cap: nat)
    ensures Published(f, [o], cap) == if IsValid(o) then (Inserted(f, o, cap), true) else (f, false)
  {
    hide IsValid, IsStale;
    assert [o][1..] == [];
  }

  // One transition of a batch.
  lemma PublishedPair(f: Fabric, o: Observation, p: Observation, cap: nat)
    requires IsValid(p)
    ensures Published(f, [o, p], cap) ==
            if IsValid(o) then (Inserted(Inserted(f, o, cap), p, cap), true) else (f, false)
  {
    hide *;
    PublishedOne(f, o, cap);
    PublishedOne(Inserted(f, o, cap), p, cap);
    PublishedJoin(f, [o], [p], cap);
    assert [o] + [p] == [o, p];
  }

  // The observations of one transition more.
  lemma ObservationsStep(batch: seq<Transition>, t: nat, me: Origin, m: nat)
    requires m < |batch|
    ensures Observations(batch[..m + 1], t, me) ==
            Observations(batch[..m], t, me)
            + [TransformObservation(batch[m], t, t + 4 * m, me), RecordObservation(t + 4 * m, me)]
  {
    hide TransformObservation, RecordObservation;
    assert batch[..m + 1][..m] == batch[..m];
  }

  // One transition more published, after a prefix that was taken whole.
  lemma PublishedStep(f: Fabric, g: Fabric, batch: seq<Transition>, t: nat, me: Origin, cap: nat, m: nat)
    requires m < |batch| && Published(f, Observations(batch[..m], t, me), cap) == (g, true)
    ensures var o := TransformObservation(batch[m], t, t + 4 * m, me);
      Published(f, Observations(batch[..m + 1], t, me), cap) ==
      if HasValidFrames(batch[m].record)
      then (Inserted(Inserted(g, o, cap), RecordObservation(t + 4 * m, me), cap), true)
      else (g, false)
  {
    hide *;
    ObservationsStep(batch, t, me, m);
    TransformIsValid(batch[m], t, t + 4 * m, me);
    var o, p := TransformObservation(batch[m], t, t + 4 * m, me), RecordObservation(t + 4 * m, me);
    PublishedPair(g, o, p, cap);
    PublishedJoin(f, Observations(batch[..m], t, me), [o, p], cap);
  }

  // Nothing of a batch is published after a rejection.
  lemma PublishedStopped(f: Fabric, g: Fabric, batch: seq<Transition>, t: nat, me: Origin, cap: nat, m: nat)
    requires m < |batch| && Published(f, Observations(batch[..m], t, me), cap) == (g, false)
    ensures Published(f, Observations(batch[..m + 1], t, me), cap) == (g, false)
  {
    hide *;
    ObservationsStep(batch, t, me, m);
    PublishedJoin(f, Observations(batch[..m], t, me),
                  [TransformObservation(batch[m], t, t + 4 * m, me), RecordObservation(t + 4 * m, me)], cap);
  }

  lemma {:induction false} OfferedIsPublished(f: Fabric, batch: seq<Transition>, t: nat, me: Origin, cap: nat, n: nat)
    requires n <= |batch| && forall i :: 0 <= i < n ==> HasValidFrames(batch[i].record)
    ensures Published(f, Observations(batch[..n], t, me), cap) ==
            (OfferedUpTo(f, batch, t, me, cap, n), true)
  {
    hide *;
    if n == 0 {
      NothingOffered(f, batch, t, me, cap);
    } else {
      OfferedIsPublished(f, batch, t, me, cap, n - 1);
      PublishedStep(f, OfferedUpTo(f, batch, t, me, cap, n - 1), batch, t, me, cap, n - 1);
      OfferedOneMore(f, batch, t, me, cap, n - 1);
    }
  }

  lemma NothingOffered(f: Fabric, batch: seq<Transition>, t: nat, me: Origin, cap: nat)
    ensures OfferedUpTo(f, batch, t, me, cap, 0) == f
    ensures Published(f, Observations(batch[..0], t, me), cap) == (f, true)
  {
    assert batch[..0] == [];
  }

  lemma OfferedOneMore(f: Fabric, batch: seq<Transition>, t: nat, me: Origin, cap: nat, m: nat)
    requires m < |batch|
    ensures OfferedUpTo(f, batch, t, me, cap, m + 1) ==
            Inserted(Inserted(OfferedUpTo(f, batch, t, me, cap, m),
                              TransformObservation(batch[m], t, t + 4 * m, me), cap),
                     RecordObservation(t + 4 * m, me), cap)
  {
    hide Inserted, TransformObservation, RecordObservation;
  }

  lemma {:induction false} RejectedStops(f: Fabric, g: Fabric, batch: seq<Transition>, t: nat, me: Origin, cap: nat,
                                         n: nat, m: nat)
    requires n < m <= |batch| && !HasValidFrames(batch[n].record)
    requires Published(f, Observations(batch[..n], t, me), cap) == (g, true)
    ensures Published(f, Observations(batch[..m], t, me), cap) == (g, false)
  {
    hide *;
    if m - 1 > n {
      RejectedStops(f, g, batch, t, me, cap, n, m - 1);
      PublishedStopped(f, g, batch, t, me, cap, m - 1);
    } else {
      PublishedStep(f, g, batch, t, me, cap, n);
    }
  }

  /** Delivering the transitions is publishing the batch of their observations. */
  lemma DeliveredIsPublished(f: Fabric, batch: seq<Transition>, t: nat, me: Origin, cap: nat)
    ensures var (after, ok) := Delivered(f, batch, t, me, cap);
      Published(f, Observations(batch, t, me), cap) == (after, ok)
  {
    hide HasValidFrames, Inserted, OfferedUpTo, Published, Observations;
    var n := ValidPrefix(batch);
    OfferedIsPublished(f, batch, t, me, cap, n);
    assert batch[..|batch|] == batch;
    if n < |batch| {
      RejectedStops(f, OfferedUpTo(f, batch, t, me, cap, n), batch, t, me, cap, n, |batch|);
    }
  }

  // ----- the invariant

  /** How the Manager writes its samples. */
  predicate IsOurs(s: Sample) {
    && s.isStatic && s.valid == Some(true) && !s.reviewRequired
    && ((s.motionUsable == Some(true) && s.expiresAtUs == None) || s.motionUsable == Some(false))
  }

  ghost predicate EdgeKept(fifo: seq<Sample>, nextId: nat, cap: nat) {
    && |fifo| <= cap && Arrivals(fifo)
    && forall s :: s in fifo ==> s.insertionId < nextId && (s.authority == AUTHORITY ==> IsOurs(s))
  }

  ghost predicate Kept(f: Fabric, cap: nat) {
    forall key :: EdgeKept(SamplesOf(f, key), f.nextId, cap)
  }

  lemma StartIsKept(cap: nat)
    ensures Kept(EMPTY, cap)
  {
  }

  lemma AppendKeeps(fifo: seq<Sample>, s: Sample, cap: nat)
    requires EdgeKept(fifo, s.insertionId, cap) && (s.authority == AUTHORITY ==> IsOurs(s))
    ensures EdgeKept(LastN(fifo + [s], cap), s.insertionId + 1, cap)
  {
    hide IsOurs, EdgeKept, LastN;
    OneMoreKept(fifo, s, cap);
    SuffixKeeps(fifo + [s], s.insertionId + 1, cap + 1, cap);
  }

  lemma OneMoreKept(fifo: seq<Sample>, s: Sample, cap: nat)
    requires EdgeKept(fifo, s.insertionId, cap) && (s.authority == AUTHORITY ==> IsOurs(s))
    ensures EdgeKept(fifo + [s], s.insertionId + 1, cap + 1)
  {
    hide IsOurs;
    assert forall i :: 0 <= i < |fifo| ==> fifo[i] in fifo;
  }

  lemma SuffixKeeps(all: seq<Sample>, nextId: nat, room: nat, cap: nat)
    requires EdgeKept(all, nextId, room)
    ensures EdgeKept(LastN(all, cap), nextId, cap)
  {
    hide IsOurs;
    var k := if |all| > cap then |all| - cap else 0;
    var rest := LastN(all, cap);
    assert rest == all[k..];
    assert forall i :: 0 <= i < |rest| ==> rest[i] == all[k + i];
  }

  lemma LaterKeeps(fifo: seq<Sample>, nextId: nat, laterId: nat, cap: nat)
    requires EdgeKept(fifo, nextId, cap) && nextId <= laterId
    ensures EdgeKept(fifo, laterId, cap)
  {
    hide IsOurs, Arrivals;
  }

  // The line of a bounded list with one sample more.
  lemma AppendLine(fifo: seq<Sample>, s: Sample, cap: nat)
    ensures LineOf(LastN(fifo + [s], cap)) == LastN(LineOf(fifo) + [Uttered(s)], cap)
  {
    hide Uttered;
  }

  lemma LastNJoins<T>(a: seq<T>, b: seq<T>, cap: nat)
    ensures LastN(LastN(a, cap) + b, cap) == LastN(a + b, cap)
  {
  }

  // ----- what inserting does to the edges

  lemma AcceptedTransform(f: Fabric, o: Observation, cap: nat)
    requires OutcomeOf(f, o) == Accepted && o.payload.Transform?
    ensures var g := Inserted(f, o, cap);
      && g.nextId == f.nextId + 1 && g.latest == f.latest[o.stream := StampOf(o)]
      && SamplesOf(g, o.payload.key) ==
          LastN(SamplesOf(f, o.payload.key) + [o.payload.sample.(insertionId := f.nextId)], cap)
      && forall key :: key != o.payload.key ==> SamplesOf(g, key) == SamplesOf(f, key)
  {
    hide IsValid, IsStale;
  }

  lemma OtherKeepsEdges(f: Fabric, o: Observation, cap: nat)
    requires o.payload.Other?
    ensures var g := Inserted(f, o, cap);
      && g.edges == f.edges && g.nextId == f.nextId
      && (g.latest == f.latest || g.latest == f.latest[o.stream := StampOf(o)])
  {
    hide IsValid, IsStale;
  }

  /** An offer is taken exactly when its sequence passes; the stamp of the stream then is its own. */
  lemma OfferShape(f: Fabric, tr: Transition, t: nat, base: nat, me: Origin, cap: nat)
    requires HasValidFrames(tr.record)
    ensures var g := Offered(f, tr, t, base, me, cap);
      var key := EdgeOf(tr.record);
      && OutcomeOf(f, TransformObservation(tr, t, base, me)) == (if Passes(f, base, me) then Accepted else Ignored)
      && (STREAM in g.latest <==> STREAM in f.latest || Passes(f, base, me))
      && (Passes(f, base, me) ==> STREAM in g.latest && g.latest[STREAM] == Stamp(me.instanceId, me.bootId, base))
      && (STREAM in f.latest && !Passes(f, base, me) ==> g.latest[STREAM] == f.latest[STREAM])
      && g.nextId == (if Passes(f, base, me) then f.nextId + 1 else f.nextId)
      && SamplesOf(g, key) == (if Passes(f, base, me)
                               then LastN(SamplesOf(f, key)
                                          + [SampleOf(tr, t, me.instanceId).(insertionId := f.nextId)], cap)
                               else SamplesOf(f, key))
      && forall other :: other != key ==> SamplesOf(g, other) == SamplesOf(f, other)
  {
    hide IsValid, HasValidFrames, SampleOf, LastN;
    TransformIsValid(tr, t, base, me);
    var o := TransformObservation(tr, t, base, me);
    if Passes(f, base, me) {
      AcceptedTransform(f, o, cap);
    }
    OtherKeepsEdges(Inserted(f, o, cap), RecordObservation(base, me), cap);
    assert STREAM != RECORD_STREAM;
  }

  lemma SampleIsOurs(tr: Transition, t: nat, instanceId: string, id: nat)
    ensures var s := SampleOf(tr, t, instanceId).(insertionId := id);
      IsOurs(s) && s.authority == AUTHORITY && Uttered(s) == Some(Utterance(t, SaysOf(tr)))
  {
  }

  /** What an offer does to the lines: if its sequence passes, its utterance stands last on its edge. */
  lemma OfferLine(f: Fabric, tr: Transition, t: nat, base: nat, me: Origin, cap: nat, key: EdgeKey)
    requires HasValidFrames(tr.record)
    ensures LineOn(Offered(f, tr, t, base, me, cap), key) ==
            if Passes(f, base, me) && EdgeOf(tr.record) == key
            then LastN(LineOn(f, key) + [Some(Utterance(t, SaysOf(tr)))], cap)
            else LineOn(f, key)
  {
    hide HasValidFrames, Offered, OutcomeOf, SamplesOf, EdgeOf, LastN, SampleOf, LineOf, SaysOf, Passes;
    OfferShape(f, tr, t, base, me, cap);
    SampleIsOurs(tr, t, me.instanceId, f.nextId);
    AppendLine(SamplesOf(f, key), SampleOf(tr, t, me.instanceId).(insertionId := f.nextId), cap);
  }

  /** Whatever the clock and the sequence, an offer keeps every edge in order and within its bound. */
  lemma OfferKeeps(f: Fabric, tr: Transition, t: nat, base: nat, me: Origin, cap: nat)
    requires Kept(f, cap) && HasValidFrames(tr.record)
    ensures Kept(Offered(f, tr, t, base, me, cap), cap)
  {
    hide HasValidFrames, Offered, OutcomeOf, SamplesOf, EdgeOf, LastN, SampleOf, EdgeKept, Passes;
    OfferShape(f, tr, t, base, me, cap);
    SampleIsOurs(tr, t, me.instanceId, f.nextId);
    var g := Offered(f, tr, t, base, me, cap);
    forall key
      ensures EdgeKept(SamplesOf(g, key), g.nextId, cap)
    {
      assert EdgeKept(SamplesOf(f, key), f.nextId, cap);
      LaterKeeps(SamplesOf(f, key), f.nextId, g.nextId, cap);
      AppendKeeps(SamplesOf(f, key), SampleOf(tr, t, me.instanceId).(insertionId := f.nextId), cap);
    }
  }

  lemma {:induction false} OfferedKeeps(f: Fabric, batch: seq<Transition>, t: nat, me: Origin, cap: nat, n: nat)
    requires Kept(f, cap) && n <= |batch| && forall i :: 0 <= i < n ==> HasValidFrames(batch[i].record)
    ensures Kept(OfferedUpTo(f, batch, t, me, cap, n), cap)
  {
    hide Kept, HasValidFrames, Offered;
    if n > 0 {
      OfferedKeeps(f, batch, t, me, cap, n - 1);
      OfferKeeps(OfferedUpTo(f, batch, t, me, cap, n - 1), batch[n - 1], t, t + 4 * (n - 1), me, cap);
    }
  }

  lemma DeliverKeeps(f: Fabric, batch: seq<Transition>, t: nat, me: Origin, cap: nat)
    requires Kept(f, cap)
    ensures Kept(Delivered(f, batch, t, me, cap).0, cap)
  {
    hide Kept, HasValidFrames, OfferedUpTo;
    OfferedKeeps(f, batch, t, me, cap, ValidPrefix(batch));
  }

  /** A foreign sample takes room on its edge and says nothing. */
  lemma ForeignLine(f: Fabric, o: Observation, cap: nat, key: EdgeKey)
    requires IsForeign(o)
    ensures LineOn(Inserted(f, o, cap), key) ==
            if TakesRoom(f, o, key) then LastN(LineOn(f, key) + [None], cap) else LineOn(f, key)
  {
    hide Inserted, SamplesOf, LastN, OutcomeOf, LineOf;
    if OutcomeOf(f, o) != Accepted {
      NotAccepted(f, o, cap);
    } else if o.payload.Other? {
      OtherIsSilent(f, o, cap, key);
    } else {
      AcceptedTransform(f, o, cap);
      AppendLine(SamplesOf(f, key), o.payload.sample.(insertionId := f.nextId), cap);
    }
  }

  lemma NotAccepted(f: Fabric, o: Observation, cap: nat)
    requires OutcomeOf(f, o) != Accepted
    ensures Inserted(f, o, cap) == f
  {
    hide OutcomeOf;
  }

  lemma OtherIsSilent(f: Fabric, o: Observation, cap: nat, key: EdgeKey)
    requires o.payload.Other?
    ensures SamplesOf(Inserted(f, o, cap), key) == SamplesOf(f, key) && Inserted(f, o, cap).nextId == f.nextId
  {
    OtherKeepsEdges(f, o, cap);
    hide Inserted;
  }

  lemma ForeignKeeps(f: Fabric, o: Observation, cap: nat)
    requires Kept(f, cap) && IsForeign(o)
    ensures Kept(Inserted(f, o, cap), cap)
  {
    hide EdgeKept, Inserted, SamplesOf, LastN, OutcomeOf;
    forall key
      ensures EdgeKept(SamplesOf(Inserted(f, o, cap), key), Inserted(f, o, cap).nextId, cap)
    {
      assert EdgeKept(SamplesOf(f, key), f.nextId, cap);
      if OutcomeOf(f, o) != Accepted {
        NotAccepted(f, o, cap);
      } else if o.payload.Other? {
        OtherIsSilent(f, o, cap, key);
      } else {
        AcceptedTransform(f, o, cap);
        LaterKeeps(SamplesOf(f, key), f.nextId, f.nextId + 1, cap);
        AppendKeeps(SamplesOf(f, o.payload.key), o.payload.sample.(insertionId := f.nextId), cap);
      }
    }
  }

  // ----- which transitions of a batch are taken

  /** A later sequence passes where an earlier one does. */
  lemma PassesIsUpward(f: Fabric, a: nat, b: nat, me: Origin)
    requires Passes(f, a, me) && a <= b
    ensures Passes(f, b, me)
  {
  }

  // After some offers of a batch the sequences still to come pass exactly when they passed before it.
  lemma {:induction false} PassesAsBefore(f: Fabric, batch: seq<Transition>, t: nat, me: Origin, cap: nat, n: nat,
                                          sequence: nat)
    requires n <= |batch| && t + 4 * n <= sequence && forall i :: 0 <= i < n ==> HasValidFrames(batch[i].record)
    ensures Passes(OfferedUpTo(f, batch, t, me, cap, n), sequence, me) <==> Passes(f, sequence, me)
  {
    hide HasValidFrames, Offered, OutcomeOf, SamplesOf;
    if n > 0 {
      var before := OfferedUpTo(f, batch, t, me, cap, n - 1);
      PassesAsBefore(f, batch, t, me, cap, n - 1, sequence);
      OfferShape(before, batch[n - 1], t, t + 4 * (n - 1), me, cap);
    }
  }

  /** In a batch published at `t` the Fabric takes transition `i` exactly when `t + 4 i` passes what it held of the same
      boot before the batch; so the ones it takes are the last of the batch. */
  lemma TakenIff(f: Fabric, batch: seq<Transition>, t: nat, me: Origin, cap: nat, i: nat)
    requires i < ValidPrefix(batch)
    ensures OutcomeOf(OfferedUpTo(f, batch, t, me, cap, i), TransformObservation(batch[i], t, t + 4 * i, me)) ==
            if Passes(f, t + 4 * i, me) then Accepted else Ignored
    ensures forall j :: i <= j && Passes(f, t + 4 * i, me) ==> Passes(f, t + 4 * j, me)
  {
    hide HasValidFrames, OfferedUpTo, OutcomeOf, SamplesOf;
    PassesAsBefore(f, batch, t, me, cap, i, t + 4 * i);
    OfferShape(OfferedUpTo(f, batch, t, me, cap, i), batch[i], t, t + 4 * i, me, cap);
  }


  /** What the first `n` transitions of a batch add to the line of an edge: those on it that are taken. */
  function TakenOn(f: Fabric, batch: seq<Transition>, t: nat, me: Origin, n: nat, key: EdgeKey): Line
    requires n <= |batch|
  {
    if n == 0 then []
    else
      TakenOn(f, batch, t, me, n - 1, key)
      + if Passes(f, t + 4 * (n - 1), me) && EdgeOf(batch[n - 1].record) == key
        then [Some(Utterance(t, SaysOf(batch[n - 1])))] else []
  }

  lemma {:induction false} OfferedLine(f: Fabric, batch: seq<Transition>, t: nat, me: Origin, cap: nat, n: nat,
                                       key: EdgeKey)
    requires n <= |batch| && |LineOn(f, key)| <= cap && forall i :: 0 <= i < n ==> HasValidFrames(batch[i].record)
    ensures LineOn(OfferedUpTo(f, batch, t, me, cap, n), key) ==
            LastN(LineOn(f, key) + TakenOn(f, batch, t, me, n, key), cap)
  {
    hide HasValidFrames, Offered, EdgeOf, LastN, SaysOf, LineOn, Passes;
    var line := LineOn(f, key);
    if n == 0 {
      ShortIsWhole(line, cap);
    } else {
      var before := OfferedUpTo(f, batch, t, me, cap, n - 1);
      OfferedLine(f, batch, t, me, cap, n - 1, key);
      PassesAsBefore(f, batch, t, me, cap, n - 1, t + 4 * (n - 1));
      OfferLine(before, batch[n - 1], t, t + 4 * (n - 1), me, cap, key);
      var u := [Some(Utterance(t, SaysOf(batch[n - 1])))];
      var taken := TakenOn(f, batch, t, me, n - 1, key);
      LastNJoins(line + taken, u, cap);
      JoinThree(line, taken, u);
      assert taken + [] == taken;
    }
  }

  lemma ShortIsWhole<T>(line: seq<T>, cap: nat)
    requires |line| <= cap
    ensures LastN(line + [], cap) == line
  {
    assert line + [] == line;
  }

  lemma JoinThree<T>(a: seq<T>, b: seq<T>, c: seq<T>)
    ensures a + b + c == a + (b + c)
  {
  }

  /** The line of an edge after a batch: what it held and what is taken, within the bound. */
  function LineAfter(f: Fabric, batch: seq<Transition>, t: nat, me: Origin, cap: nat, key: EdgeKey): Line {
    LastN(LineOn(f, key) + TakenOn(f, batch, t, me, ValidPrefix(batch), key), cap)
  }

  lemma KeptIsBounded(f: Fabric, cap: nat, key: EdgeKey)
    requires Kept(f, cap)
    ensures |LineOn(f, key)| <= cap
  {
    hide IsOurs, Arrivals;
    assert EdgeKept(SamplesOf(f, key), f.nextId, cap);
  }

  /** After a batch an edge says what the latest of those says: of all it held and all taken there, within the bound. */
  lemma BatchDecides(f: Fabric, batch: seq<Transition>, t: nat, me: Origin, cap: nat, key: EdgeKey)
    requires Kept(f, cap)
    ensures LineOn(Delivered(f, batch, t, me, cap).0, key) == LineAfter(f, batch, t, me, cap, key)
    ensures Heard(Delivered(f, batch, t, me, cap).0, key) == Voice(LineAfter(f, batch, t, me, cap, key))
  {
    hide Kept, HasValidFrames, OfferedUpTo, LineOn, TakenOn, LastN, Voice;
    KeptIsBounded(f, cap, key);
    OfferedLine(f, batch, t, me, cap, ValidPrefix(batch), key);
  }

  lemma {:induction false} NothingTaken(f: Fabric, batch: seq<Transition>, t: nat, me: Origin, n: nat, key: EdgeKey)
    requires n <= |batch| && forall i :: 0 <= i < n ==> EdgeOf(batch[i].record) != key
    ensures TakenOn(f, batch, t, me, n, key) == []
  {
    hide EdgeOf, Passes, SaysOf;
    if n > 0 {
      NothingTaken(f, batch, t, me, n - 1, key);
    }
  }

  /** A batch touches an edge when the Fabric gets to a transition on it. */
  predicate Touches(batch: seq<Transition>, key: EdgeKey) {
    exists i :: 0 <= i < ValidPrefix(batch) && EdgeOf(batch[i].record) == key
  }

  lemma UntouchedKeepsLine(f: Fabric, batch: seq<Transition>, t: nat, me: Origin, cap: nat, key: EdgeKey)
    requires Kept(f, cap) && !Touches(batch, key)
    ensures LineOn(Delivered(f, batch, t, me, cap).0, key) == LineOn(f, key)
  {
    hide Kept, EdgeOf, HasValidFrames, Delivered, LastN, LineOn;
    BatchDecides(f, batch, t, me, cap, key);
    NothingTaken(f, batch, t, me, ValidPrefix(batch), key);
    KeptIsBounded(f, cap, key);
    ShortIsWhole(LineOn(f, key), cap);
  }

  // ----- the voice of a line with more room taken

  /** One utterance more, with room for it: it is heard, unless a later one stays. */
  lemma UtteredIsHeard(line: Line, u: Utterance, cap: nat)
    requires cap > 0
    ensures var stays := LastN(line, cap - 1);
      && LastN(line + [Some(u)], cap) == stays + [Some(u)]
      && Voice(LastN(line + [Some(u)], cap)) == if IsInTime(LatestOf(stays), u.atUs) then u.says else Voice(stays)
  {
    var stays := LastN(line, cap - 1);
    assert LastN(line + [Some(u)], cap) == stays + [Some(u)];
    assert (stays + [Some(u)])[..|stays|] == stays;
    hide LastN;
  }

  function Nones(k: nat): (line: Line)
    ensures |line| == k
  {
    seq(k, i => None)
  }

  lemma {:induction false} SilenceKeepsVoice(line: Line, k: nat)
    ensures LatestOf(line + Nones(k)) == LatestOf(line)
  {
    if k == 0 {
      assert line + Nones(0) == line;
    } else {
      SilenceKeepsVoice(line, k - 1);
      assert (line + Nones(k))[..|line| + k - 1] == line + Nones(k - 1);
    }
  }

  /** The deciding utterance is the oldest sample retained: all later arrivals were observed before it. */
  predicate OldestDecides(line: Line) {
    && line != [] && line[0].Some?
    && forall i :: 0 < i < |line| && line[i].Some? ==> line[i].value.atUs < line[0].value.atUs
  }

  lemma {:induction false} LatestIsLatest(line: Line)
    ensures LatestOf(line).Some? ==> LatestOf(line) in line
    ensures forall u :: u in line && u.Some? ==> LatestOf(line).Some? && u.value.atUs <= LatestOf(line).value.atUs
  {
    if line != [] {
      var n := |line| - 1;
      LatestIsLatest(line[..n]);
      assert line == line[..n] + [line[n]];
    }
  }

  lemma {:induction false} OldestGone(line: Line)
    requires line != []
    ensures LatestOf(line) == if OldestDecides(line) then line[0] else LatestOf(line[1..])
  {
    var n := |line| - 1;
    if n == 0 {
      assert line[..0] == [] && line[1..] == [];
    } else {
      OldestGone(line[..n]);
      assert line[..n][1..] == line[1..][..n - 1];
      LatestIsLatest(line[1..][..n - 1]);
      LatestIsLatest(line[..n]);
      OldestShape(line);
    }
  }

  lemma OldestShape(line: Line)
    requires |line| > 1
    ensures var n := |line| - 1;
      OldestDecides(line) <==>
        OldestDecides(line[..n]) && (line[n].Some? ==> line[n].value.atUs < line[0].value.atUs)
  {
    var n := |line| - 1;
    assert forall i :: 0 <= i < n ==> line[..n][i] == line[i];
  }

  /** A foreign sample changes what is heard exactly when the line is full, its oldest sample is the deciding one, and
      the next in line says something else. */
  predicate Evicts(line: Line, cap: nat) {
    |line| >= cap && OldestDecides(line) && Voice(line[1..]) != Voice(line)
  }

  lemma EvictsIff(line: Line, cap: nat)
    requires |line| <= cap
    ensures Voice(LastN(line + [None], cap)) != Voice(line) <==> Evicts(line, cap)
  {
    var more := line + [None];
    assert line == more[..|line|];
    if |line| < cap {
      assert LastN(more, cap) == more;
    } else if line == [] {
      assert LastN(more, cap) == [];
    } else {
      OldestGone(line);
      var rest := line[1..] + [None];
      assert LastN(more, cap) == rest;
      assert rest[..|rest| - 1] == line[1..];
    }
  }

  // ----- what is heard is what is answered

  /** What the Fabric answers under the Manager's authority. */
  function Answer(f: Fabric, key: EdgeKey, q: EdgeQuery, slerp: Slerp): Option<ResolvedEdge> {
    ScanAuthority(key, SamplesOf(f, key), AUTHORITY, q, slerp)
  }

  /** What an answer tells of the calibration. */
  function CalibrationIn(answer: Option<ResolvedEdge>): Option<Calibrated> {
    if answer.None? then None
    else
      var e := answer.value;
      Some(Calibrated(e.parentFromChild, e.calibrationRevision, e.sessionEpoch))
  }

  // One sample more.
  lemma LatestOfMore(fifo: seq<Sample>)
    requires fifo != []
    ensures var n := |fifo| - 1;
      var earlier, last := LatestOf(LineOf(fifo[..n])), Uttered(fifo[n]);
      LatestOf(LineOf(fifo)) ==
      if last.None? || (earlier.Some? && last.value.atUs < earlier.value.atUs) then earlier else last
  {
    hide Uttered;
    assert LineOf(fifo)[..|fifo| - 1] == LineOf(fifo[..|fifo| - 1]);
  }

  // The sample the latest utterance comes from.
  lemma {:induction false} LatestSample(fifo: seq<Sample>) returns (i: nat)
    requires Arrivals(fifo) && exists s :: s in fifo && s.authority == AUTHORITY
    ensures i < |fifo| && fifo[i].authority == AUTHORITY && LatestOf(LineOf(fifo)) == Uttered(fifo[i])
    ensures forall j :: 0 <= j < |fifo| && fifo[j].authority == AUTHORITY && j != i ==> Before(fifo[j], fifo[i])
  {
    hide LatestOf, LineOf, Before, Arrivals;
    var n := |fifo| - 1;
    LatestOfMore(fifo);
    PrefixArrives(fifo);
    if s :| s in fifo[..n] && s.authority == AUTHORITY {
      i := LatestSample(fifo[..n]);
      forall j | 0 <= j < n && fifo[j].authority == AUTHORITY && j != i
        ensures Before(fifo[j], fifo[i])
      {
        assert fifo[..n][j] == fifo[j];
      }
      LastOrNot(fifo, i);
      if fifo[n].authority == AUTHORITY && fifo[i].observedAtUs <= fifo[n].observedAtUs {
        i := n;
      }
    } else {
      assert fifo == fifo[..n] + [fifo[n]];
      NoUtterance(fifo[..n]);
      forall j | 0 <= j < n
        ensures fifo[j].authority != AUTHORITY
      {
        assert fifo[..n][j] in fifo[..n];
      }
      i := n;
    }
  }

  lemma PrefixArrives(fifo: seq<Sample>)
    requires Arrivals(fifo) && fifo != []
    ensures Arrivals(fifo[..|fifo| - 1])
  {
  }

  // The last arrival against the latest before it.
  lemma LastOrNot(fifo: seq<Sample>, i: nat)
    requires Arrivals(fifo) && i < |fifo| - 1
    requires forall j :: 0 <= j < |fifo| - 1 && fifo[j].authority == AUTHORITY && j != i ==> Before(fifo[j], fifo[i])
    ensures var n := |fifo| - 1;
      if fifo[i].observedAtUs <= fifo[n].observedAtUs
      then forall j :: 0 <= j < n && fifo[j].authority == AUTHORITY ==> Before(fifo[j], fifo[n])
      else Before(fifo[n], fifo[i])
  {
    assert fifo[i].insertionId < fifo[|fifo| - 1].insertionId;
  }

  lemma {:induction false} NoUtterance(fifo: seq<Sample>)
    requires forall s :: s in fifo ==> s.authority != AUTHORITY
    ensures LatestOf(LineOf(fifo)) == None
  {
    if fifo == [] {
      NothingHeard();
    } else {
      hide LatestOf, LineOf;
      LatestOfMore(fifo);
      NoUtterance(fifo[..|fifo| - 1]);
    }
  }

  lemma Silent(fifo: seq<Sample>, key: EdgeKey, q: EdgeQuery, slerp: Slerp)
    requires forall s :: s in fifo ==> s.authority != AUTHORITY
    ensures ScanAuthority(key, fifo, AUTHORITY, q, slerp) == None
  {
  }

  /** To every query, at every time and for every session, the Fabric answers what is heard on the edge. */
  lemma DecidingAnswers(f: Fabric, cap: nat, key: EdgeKey, q: EdgeQuery, slerp: Slerp)
    requires Kept(f, cap)
    ensures CalibrationIn(Answer(f, key, q, slerp)) == Heard(f, key)
  {
    hide Kept, LatestOf, LineOf, ScanAuthority;
    var fifo := SamplesOf(f, key);
    EdgeIsKept(f, cap, key);
    if s :| s in fifo && s.authority == AUTHORITY {
      var i := LatestSample(fifo);
      LatestAnswers(fifo, f.nextId, cap, i, key, q, slerp);
    } else {
      NoUtterance(fifo);
      Silent(fifo, key, q, slerp);
    }
  }

  /** What becomes of it in the answer for the edge as a whole: it stands while no other authority speaks there, and
      conflicts with one that does. */
  lemma EdgeAnswers(f: Fabric, key: EdgeKey, q: EdgeQuery, slerp: Slerp)
    ensures var fifo := SamplesOf(f, key);
      var others := Speaking(key, fifo, q, slerp) - {AUTHORITY};
      && (others == {} ==> ScanEdge(key, fifo, q, slerp) == Unambiguous(Answer(f, key, q, slerp)))
      && (others != {} && Answer(f, key, q, slerp).Some? ==> ScanEdge(key, fifo, q, slerp).Conflicting?)
  {
    hide ScanAuthority, SamplesOf;
    var fifo := SamplesOf(f, key);
    var speaking := Speaking(key, fifo, q, slerp);
    if forall s :: s in fifo ==> s.authority != AUTHORITY {
      Silent(fifo, key, q, slerp);
    }
    assert AUTHORITY in speaking <==> Answer(f, key, q, slerp).Some?;
    if speaking - {AUTHORITY} == {} {
      assert speaking == {} || speaking == {AUTHORITY};
    } else if AUTHORITY in speaking {
      var other :| other in speaking - {AUTHORITY};
      assert {AUTHORITY, other} <= speaking;
      SubsetSize({AUTHORITY, other}, speaking);
    }
  }

  lemma {:induction false} SubsetSize<T>(a: set<T>, b: set<T>)
    requires a <= b
    ensures |a| <= |b|
    decreases a
  {
    if x :| x in a {
      SubsetSize(a - {x}, b - {x});
    }
  }

  lemma EdgeIsKept(f: Fabric, cap: nat, key: EdgeKey)
    requires Kept(f, cap)
    ensures EdgeKept(SamplesOf(f, key), f.nextId, cap)
  {
    hide EdgeKept;
  }

  lemma LatestAnswers(fifo: seq<Sample>, nextId: nat, cap: nat, i: nat, key: EdgeKey, q: EdgeQuery, slerp: Slerp)
    requires EdgeKept(fifo, nextId, cap) && i < |fifo| && fifo[i].authority == AUTHORITY
    requires forall j :: 0 <= j < |fifo| && fifo[j].authority == AUTHORITY && j != i ==> Before(fifo[j], fifo[i])
    ensures CalibrationIn(ScanAuthority(key, fifo, AUTHORITY, q, slerp)) == Uttered(fifo[i]).value.says
  {
    hide ScanAuthority, Before, Arrivals;
    var s := fifo[i];
    assert IsOurs(s);
    forall t | t in fifo && IsStaticOf(t, s.authority)
      ensures t == s || Before(t, s)
    {
      var j :| 0 <= j < |fifo| && fifo[j] == t;
    }
    LatestStaticDecides(key, fifo, s, q, slerp);
  }

  // ----- every run

  datatype Event = Deliver(batch: seq<Transition>, t: nat, me: Origin) | Foreign(o: Observation)

  function After(f: Fabric, e: Event, cap: nat): Fabric {
    match e
    case Deliver(batch, t, me) => Delivered(f, batch, t, me, cap).0
    case Foreign(o) => Inserted(f, o, cap)
  }

  function Run(events: seq<Event>, cap: nat): Fabric {
    if events == [] then EMPTY else After(Run(events[..|events| - 1], cap), events[|events| - 1], cap)
  }

  predicate IsAllowed(e: Event) {
    e.Foreign? ==> IsForeign(e.o)
  }

  /** Others do not speak for the Manager's calibrations; nothing else is asked. */
  predicate AllowedRun(events: seq<Event>) {
    forall i :: 0 <= i < |events| ==> IsAllowed(events[i])
  }

  lemma StepKeeps(f: Fabric, e: Event, cap: nat)
    requires Kept(f, cap) && IsAllowed(e)
    ensures Kept(After(f, e, cap), cap)
  {
    hide Kept, Delivered, Inserted, IsForeign;
    match e
    case Deliver(batch, t, me) => DeliverKeeps(f, batch, t, me, cap);
    case Foreign(o) => ForeignKeeps(f, o, cap);
  }

  lemma {:induction false} EveryRunIsKept(events: seq<Event>, cap: nat)
    requires AllowedRun(events)
    ensures Kept(Run(events, cap), cap)
  {
    hide IsAllowed, Kept, After;
    if events == [] {
      StartIsKept(cap);
    } else {
      var n := |events| - 1;
      EveryRunIsKept(events[..n], cap);
      StepKeeps(Run(events[..n], cap), events[n], cap);
    }
  }

  // ----- the latest publication

  predicate Publishes(e: Event, key: EdgeKey) {
    e.Deliver? && Touches(e.batch, key)
  }

  /** The samples others have put on an edge since the first `n` events. */
  function Since(events: seq<Event>, cap: nat, n: nat, key: EdgeKey): nat {
    if |events| <= n then 0
    else
      var m := |events| - 1;
      Since(events[..m], cap, n, key)
      + if events[m].Foreign? && TakesRoom(Run(events[..m], cap), events[m].o, key) then 1 else 0
  }

  lemma QuietStep(f: Fabric, e: Event, cap: nat, key: EdgeKey)
    requires Kept(f, cap) && IsAllowed(e) && !Publishes(e, key)
    ensures LineOn(After(f, e, cap), key) ==
            if e.Foreign? && TakesRoom(f, e.o, key) then LastN(LineOn(f, key) + [None], cap) else LineOn(f, key)
  {
    hide Kept, Delivered, Inserted, Touches, TakesRoom, LineOn, LastN;
    match e
    case Deliver(batch, t, me) => UntouchedKeepsLine(f, batch, t, me, cap, key);
    case Foreign(o) => ForeignLine(f, o, cap, key);
  }

  lemma OneMoreNone(line: Line, k: nat, cap: nat)
    ensures LastN(LastN(line + Nones(k), cap) + [None], cap) == LastN(line + Nones(k + 1), cap)
  {
    LastNJoins(line + Nones(k), [None], cap);
    assert line + Nones(k) + [None] == line + Nones(k + 1);
  }

  lemma {:induction false} QuietLine(events: seq<Event>, cap: nat, n: nat, key: EdgeKey)
    requires AllowedRun(events) && n <= |events| && forall k :: n <= k < |events| ==> !Publishes(events[k], key)
    ensures LineOn(Run(events, cap), key) ==
            LastN(LineOn(Run(events[..n], cap), key) + Nones(Since(events, cap, n, key)), cap)
    decreases |events|
  {
    hide IsAllowed, Kept, After, LineOn, LastN, Publishes, TakesRoom;
    var line := LineOn(Run(events[..n], cap), key);
    if n == |events| {
      assert events[..n] == events;
      EveryRunIsKept(events, cap);
      KeptIsBounded(Run(events, cap), cap, key);
      ShortIsWhole(line, cap);
      assert Nones(0) == [];
    } else {
      var m := |events| - 1;
      QuietLine(events[..m], cap, n, key);
      assert events[..m][..n] == events[..n];
      EveryRunIsKept(events[..m], cap);
      QuietStep(Run(events[..m], cap), events[m], cap, key);
      OneMoreNone(line, Since(events[..m], cap, n, key), cap);
    }
  }

  /** Transition `i` is the last of the batch on its edge, and the Fabric gets to it. */
  predicate IsLastOnEdge(batch: seq<Transition>, i: nat) {
    && i < ValidPrefix(batch)
    && forall j :: i < j < ValidPrefix(batch) ==> EdgeOf(batch[j].record) != EdgeOf(batch[i].record)
  }

  lemma {:induction false} LastTaken(f: Fabric, batch: seq<Transition>, t: nat, me: Origin, i: nat, n: nat,
                                     key: EdgeKey)
    requires i < n <= |batch| && EdgeOf(batch[i].record) == key
    requires forall j :: i < j < n ==> EdgeOf(batch[j].record) != key
    ensures TakenOn(f, batch, t, me, n, key) ==
            TakenOn(f, batch, t, me, i, key)
            + if Passes(f, t + 4 * i, me) then [Some(Utterance(t, SaysOf(batch[i])))] else []
  {
    hide EdgeOf, Passes, SaysOf;
    if n > i + 1 {
      LastTaken(f, batch, t, me, i, n - 1, key);
    }
  }

  /** What is heard of a line after `k` samples of others: its last utterance `u`, if there is one, while the samples
      since leave room for it and nothing later that still stands; else what still stands. */
  function HeardAfter(older: Line, u: Option<Utterance>, k: nat, cap: nat): Option<Calibrated> {
    if k >= cap then None
    else if u.None? then Voice(LastN(older, cap - k))
    else if IsInTime(LatestOf(LastN(older, cap - k - 1)), u.value.atUs) then u.value.says
    else Voice(LastN(older, cap - k - 1))
  }

  lemma VoiceAfter(older: Line, u: Option<Utterance>, k: nat, cap: nat)
    ensures Voice(LastN(older + (if u.Some? then [u] else []) + Nones(k), cap)) == HeardAfter(older, u, k, cap)
  {
    hide LatestOf;
    var line := older + if u.Some? then [u] else [];
    if k >= cap {
      assert LastN(line + Nones(k), cap) == [] + Nones(cap);
      SilenceKeepsVoice([], cap);
      NothingHeard();
    } else {
      assert LastN(line + Nones(k), cap) == LastN(line, cap - k) + Nones(k);
      SilenceKeepsVoice(LastN(line, cap - k), k);
      if u.Some? {
        UtteredIsHeard(older, u.value, cap - k);
      } else {
        assert line == older;
      }
    }
  }

  lemma NothingHeard()
    ensures LatestOf([]) == None
  {
  }

  /** The latest publication, exactly.  Let event `n` be the last to publish on an edge, and its transition `i` the
      last of its batch there.  In every run, whatever the clock did and however many samples of others arrived since,
      the Fabric says what that transition says if it was taken, fewer than the cap of samples were taken since, and
      nothing observed later still stands; otherwise what still stands says, or nothing. */
  lemma LatestPublicationWinsIff(events: seq<Event>, cap: nat, n: nat, i: nat, key: EdgeKey)
    requires AllowedRun(events) && n < |events| && events[n].Deliver?
    requires IsLastOnEdge(events[n].batch, i) && EdgeOf(events[n].batch[i].record) == key
    requires forall k :: n < k < |events| ==> !Publishes(events[k], key)
    ensures var before, e := Run(events[..n], cap), events[n];
      var older := LineOn(before, key) + TakenOn(before, e.batch, e.t, e.me, i, key);
      Heard(Run(events, cap), key) ==
      HeardAfter(older, if Passes(before, e.t + 4 * i, e.me) then Some(Utterance(e.t, SaysOf(e.batch[i]))) else None,
                 Since(events, cap, n + 1, key), cap)
  {
    hide Kept, Passes, SaysOf, Voice, HeardAfter, LineOn, LastN, Publishes, Delivered, IsAllowed, EdgeOf, TakenOn,
         Since, HasValidFrames;
    var before, e, k := Run(events[..n], cap), events[n], Since(events, cap, n + 1, key);
    var u := if Passes(before, e.t + 4 * i, e.me) then Some(Utterance(e.t, SaysOf(e.batch[i]))) else None;
    var line, taken := LineOn(before, key), TakenOn(before, e.batch, e.t, e.me, i, key);
    QuietLine(events, cap, n + 1, key);
    assert events[..n + 1][..n] == events[..n];
    EveryRunIsKept(events[..n], cap);
    BatchDecides(before, e.batch, e.t, e.me, cap, key);
    LastTaken(before, e.batch, e.t, e.me, i, ValidPrefix(e.batch), key);
    var last: Line := if u.Some? then [u] else [];
    JoinThree(line, taken, last);
    LastNJoins(line + taken + last, Nones(k), cap);
    VoiceAfter(line + taken, u, k, cap);
  }

  // ----- with a clock that advances

  function MaxInt(a: int, b: int): int {
    if a < b then b else a
  }

  /** The highest sequence base a batch uses. */
  function UsedBy(e: Event): int {
    if e.Deliver? && ValidPrefix(e.batch) > 0 then e.t + 4 * (ValidPrefix(e.batch) - 1) else -1
  }

  function Used(events: seq<Event>): int {
    if events == [] then -1 else MaxInt(Used(events[..|events| - 1]), UsedBy(events[|events| - 1]))
  }

  /** One Manager, whose clock passes the highest sequence it used before each batch, and whose identifiers nobody else
      uses. */
  predicate IsOrderly(used: int, e: Event, me: Origin) {
    match e
    case Deliver(_, t, origin) => origin == me && used < t
    case Foreign(o) => IsForeign(o) && (o.providerInstanceId != me.instanceId || o.bootId != me.bootId)
  }

  predicate OrderlyRun(events: seq<Event>, me: Origin) {
    forall k :: 0 <= k < |events| ==> IsOrderly(Used(events[..k]), events[k], me)
  }

  /** What the Fabric holds of the Manager is no newer than what the Manager used: its stamp, and its utterances. */
  ghost predicate StreamKept(f: Fabric, used: int, me: Origin) {
    forall sequence: nat :: used < sequence ==> Passes(f, sequence, me)
  }

  predicate NoneLater(line: Line, used: int) {
    forall u :: u in line && u.Some? ==> u.value.atUs <= used
  }

  ghost predicate TimesKept(f: Fabric, used: int) {
    forall key :: NoneLater(LineOn(f, key), used)
  }

  lemma OfferKeepsStream(f: Fabric, tr: Transition, t: nat, base: nat, me: Origin, cap: nat, used: int)
    requires StreamKept(f, used, me) && HasValidFrames(tr.record) && used <= base
    ensures StreamKept(Offered(f, tr, t, base, me, cap), base, me)
  {
    hide HasValidFrames, Offered, OutcomeOf, SamplesOf, EdgeOf, LastN, SampleOf;
    OfferShape(f, tr, t, base, me, cap);
    forall sequence: nat | base < sequence
      ensures Passes(Offered(f, tr, t, base, me, cap), sequence, me)
    {
      assert Passes(f, sequence, me);
    }
  }

  lemma {:induction false} OfferedKeepsStream(f: Fabric, batch: seq<Transition>, t: nat, me: Origin, cap: nat, n: nat,
                                              used: int)
    requires StreamKept(f, used, me) && used < t && n <= |batch|
    requires forall i :: 0 <= i < n ==> HasValidFrames(batch[i].record)
    ensures StreamKept(OfferedUpTo(f, batch, t, me, cap, n), if n > 0 then t + 4 * (n - 1) else used, me)
  {
    hide HasValidFrames, Offered, StreamKept;
    if n > 0 {
      OfferedKeepsStream(f, batch, t, me, cap, n - 1, used);
      OfferKeepsStream(OfferedUpTo(f, batch, t, me, cap, n - 1), batch[n - 1], t, t + 4 * (n - 1), me, cap,
                       if n > 1 then t + 4 * (n - 2) else used);
    }
  }

  lemma {:induction false} TakenTimes(f: Fabric, batch: seq<Transition>, t: nat, me: Origin, n: nat, key: EdgeKey)
    requires n <= |batch|
    ensures forall u :: u in TakenOn(f, batch, t, me, n, key) ==> u.Some? && u.value.atUs == t
  {
    hide EdgeOf, Passes, SaysOf;
    if n > 0 {
      TakenTimes(f, batch, t, me, n - 1, key);
    }
  }

  lemma JoinedTimes(line: Line, more: Line, cap: nat, used: int, later: int)
    requires NoneLater(line, used) && used <= later && NoneLater(more, later)
    ensures NoneLater(LastN(line + more, cap), later)
  {
    assert forall u :: u in LastN(line + more, cap) ==> u in line || u in more;
  }

  lemma DeliverTimes(f: Fabric, batch: seq<Transition>, t: nat, me: Origin, cap: nat, used: int)
    requires Kept(f, cap) && TimesKept(f, used) && used < t
    ensures TimesKept(Delivered(f, batch, t, me, cap).0, MaxInt(used, UsedBy(Deliver(batch, t, me))))
  {
    hide Kept, Delivered, LineOn, TakenOn, HasValidFrames, LastN, Voice;
    var later := MaxInt(used, UsedBy(Deliver(batch, t, me)));
    forall key
      ensures NoneLater(LineOn(Delivered(f, batch, t, me, cap).0, key), later)
    {
      BatchDecides(f, batch, t, me, cap, key);
      TakenTimes(f, batch, t, me, ValidPrefix(batch), key);
      NothingIsEmpty(f, batch, t, me, key);
      JoinedTimes(LineOn(f, key), TakenOn(f, batch, t, me, ValidPrefix(batch), key), cap, used, later);
    }
  }

  lemma NothingIsEmpty(f: Fabric, batch: seq<Transition>, t: nat, me: Origin, key: EdgeKey)
    ensures TakenOn(f, batch, t, me, 0, key) == []
  {
  }

  lemma ForeignStamps(f: Fabric, o: Observation, cap: nat)
    ensures var g := Inserted(f, o, cap); g.latest == f.latest || g.latest == f.latest[o.stream := StampOf(o)]
  {
    hide OutcomeOf, LastN;
  }

  lemma ForeignKeepsStream(f: Fabric, o: Observation, me: Origin, cap: nat, used: int)
    requires StreamKept(f, used, me) && (o.providerInstanceId != me.instanceId || o.bootId != me.bootId)
    ensures StreamKept(Inserted(f, o, cap), used, me)
  {
    hide Inserted, OutcomeOf;
    ForeignStamps(f, o, cap);
    forall sequence: nat | used < sequence
      ensures Passes(Inserted(f, o, cap), sequence, me)
    {
      assert Passes(f, sequence, me);
    }
  }

  lemma ForeignTimes(f: Fabric, o: Observation, cap: nat, used: int)
    requires TimesKept(f, used) && IsForeign(o)
    ensures TimesKept(Inserted(f, o, cap), used)
  {
    hide Inserted, TakesRoom, LastN, LineOn, NoneLater;
    forall key
      ensures NoneLater(LineOn(Inserted(f, o, cap), key), used)
    {
      ForeignLine(f, o, cap, key);
      JoinedTimes(LineOn(f, key), [None], cap, used, used) by {
        OneNone(used);
      }
    }
  }

  lemma OneNone(used: int)
    ensures NoneLater([None], used)
  {
  }

  lemma OrderlyStep(f: Fabric, e: Event, me: Origin, cap: nat, used: int)
    requires Kept(f, cap) && StreamKept(f, used, me) && TimesKept(f, used) && IsOrderly(used, e, me)
    ensures StreamKept(After(f, e, cap), MaxInt(used, UsedBy(e)), me)
    ensures TimesKept(After(f, e, cap), MaxInt(used, UsedBy(e)))
    ensures IsAllowed(e)
  {
    hide Kept, StreamKept, TimesKept, HasValidFrames, OfferedUpTo, Inserted, IsForeign;
    StreamGrows(f, used, MaxInt(used, UsedBy(e)), me);
    match e
    case Deliver(batch, t, _) =>
      var n := ValidPrefix(batch);
      OfferedKeepsStream(f, batch, t, me, cap, n, used);
      StreamGrows(OfferedUpTo(f, batch, t, me, cap, n), if n > 0 then t + 4 * (n - 1) else used,
                  MaxInt(used, UsedBy(e)),
                  me);
      DeliverTimes(f, batch, t, me, cap, used);
    case Foreign(o) =>
      ForeignKeepsStream(f, o, me, cap, used);
      ForeignTimes(f, o, cap, used);
      StreamGrows(Inserted(f, o, cap), used, MaxInt(used, UsedBy(e)), me);
      TimesGrow(Inserted(f, o, cap), used, MaxInt(used, UsedBy(e)));
  }

  lemma StreamGrows(f: Fabric, used: int, later: int, me: Origin)
    requires StreamKept(f, used, me) && used <= later
    ensures StreamKept(f, later, me)
  {
    hide Passes;
  }

  lemma TimesGrow(f: Fabric, used: int, later: int)
    requires TimesKept(f, used) && used <= later
    ensures TimesKept(f, later)
  {
    hide LineOn;
    forall key
      ensures NoneLater(LineOn(f, key), later)
    {
      assert NoneLater(LineOn(f, key), used);
    }
  }

  lemma OrderlyPrefix(events: seq<Event>, me: Origin, n: nat)
    requires OrderlyRun(events, me) && n <= |events|
    ensures OrderlyRun(events[..n], me)
  {
    hide IsOrderly, Used;
    forall k | 0 <= k < n
      ensures IsOrderly(Used(events[..n][..k]), events[..n][k], me)
    {
      assert events[..n][..k] == events[..k];
    }
  }

  lemma {:induction false} OrderlyIsKept(events: seq<Event>, me: Origin, cap: nat)
    requires OrderlyRun(events, me)
    ensures AllowedRun(events) && Kept(Run(events, cap), cap)
    ensures StreamKept(Run(events, cap), Used(events), me) && TimesKept(Run(events, cap), Used(events))
  {
    if events == [] {
      StartIsKept(cap);
    } else {
      var n := |events| - 1;
      hide StreamKept, TimesKept, After, Kept, IsAllowed, UsedBy;
      assert IsOrderly(Used(events[..n]), events[n], me);
      OrderlyPrefix(events, me, n);
      OrderlyIsKept(events[..n], me, cap);
      OrderlyStep(Run(events[..n], cap), events[n], me, cap, Used(events[..n]));
      StepKeeps(Run(events[..n], cap), events[n], cap);
      assert forall i :: 0 <= i < n ==> events[..n][i] == events[i];
    }
  }

  lemma SomeStillInTime(older: Line, cap: nat, t: nat)
    requires NoneLater(older, t)
    ensures IsInTime(LatestOf(LastN(older, cap)), t)
  {
    LatestIsLatest(LastN(older, cap));
    hide LatestOf;
  }

  /** So when the clock passes the last sequence used before each batch, the latest publication wins while fewer than
      the cap of samples of others are taken after it. */
  lemma LatestPublicationWins(events: seq<Event>, me: Origin, cap: nat, n: nat, i: nat, key: EdgeKey)
    requires OrderlyRun(events, me) && n < |events| && events[n].Deliver?
    requires IsLastOnEdge(events[n].batch, i) && EdgeOf(events[n].batch[i].record) == key
    requires forall k :: n < k < |events| ==> !Publishes(events[k], key)
    ensures Heard(Run(events, cap), key) ==
            if Since(events, cap, n + 1, key) < cap then SaysOf(events[n].batch[i]) else None
  {
    hide Kept, TimesKept, StreamKept, Run, IsLastOnEdge, Publishes, Passes, Used, TakenOn, LineOn, LatestOf, Voice,
         Since, LastN, SaysOf, NoneLater, OrderlyRun, AllowedRun;
    var before, e := Run(events[..n], cap), events[n];
    OrderlyIsKept(events, me, cap);
    OrderlyPasses(events, me, cap, n, i);
    LastIsReached(e.batch, i);
    OlderTimes(before, e.batch, e.t, me, i, key, Used(events[..n]));
    var older := LineOn(before, key) + TakenOn(before, e.batch, e.t, me, i, key);
    var k := Since(events, cap, n + 1, key);
    if k < cap {
      SomeStillInTime(older, cap - k - 1, e.t);
    }
    LatestPublicationWinsIff(events, cap, n, i, key);
  }

  lemma OrderlyPasses(events: seq<Event>, me: Origin, cap: nat, n: nat, i: nat)
    requires OrderlyRun(events, me) && n < |events| && events[n].Deliver?
    ensures var before, e, used := Run(events[..n], cap), events[n], Used(events[..n]);
      && e.me == me && used < e.t && TimesKept(before, used) && Passes(before, e.t + 4 * i, me)
  {
    hide Kept, TimesKept, Run, Passes, Used, AllowedRun;
    assert IsOrderly(Used(events[..n]), events[n], me);
    OrderlyPrefix(events, me, n);
    OrderlyIsKept(events[..n], me, cap);
  }

  lemma LastIsReached(batch: seq<Transition>, i: nat)
    requires IsLastOnEdge(batch, i)
    ensures i < ValidPrefix(batch)
  {
  }

  lemma OlderTimes(f: Fabric, batch: seq<Transition>, t: nat, me: Origin, i: nat, key: EdgeKey, used: int)
    requires TimesKept(f, used) && used < t && i <= |batch|
    ensures NoneLater(LineOn(f, key) + TakenOn(f, batch, t, me, i, key), t)
  {
    hide LineOn, TakenOn;
    assert NoneLater(LineOn(f, key), used);
    TakenTimes(f, batch, t, me, i, key);
  }

  // ----- clocks that do not advance

  /** A batch of two on different edges, three ticks after the last sequence's base: the first transition is dropped,
      the second taken, and the publication reports success. */
  lemma HalfIsDropped(f: Fabric, a: Transition, b: Transition, t: nat, me: Origin, cap: nat)
    requires Kept(f, cap) && cap > 0
    requires HasValidFrames(a.record) && HasValidFrames(b.record) && EdgeOf(a.record) != EdgeOf(b.record)
    requires STREAM in f.latest && f.latest[STREAM] == Stamp(me.instanceId, me.bootId, t + 3)
    requires NoneLater(LineOn(f, EdgeOf(b.record)), t)
    ensures var (after, ok) := Delivered(f, [a, b], t, me, cap);
      && ok && Heard(after, EdgeOf(a.record)) == Heard(f, EdgeOf(a.record))
      && Heard(after, EdgeOf(b.record)) == SaysOf(b)
  {
    hide HasValidFrames, EdgeOf, Kept, LineOn, LatestOf, OfferedUpTo, LastN, SaysOf;
    assert [a, b][1..] == [b] && [b][1..] == [];
    assert ValidPrefix([a, b]) == 2;
    hide ValidPrefix;
    BatchDecides(f, [a, b], t, me, cap, EdgeOf(a.record));
    BatchDecides(f, [a, b], t, me, cap, EdgeOf(b.record));
    TakenOfTwo(f, [a, b], t, me, EdgeOf(a.record));
    TakenOfTwo(f, [a, b], t, me, EdgeOf(b.record));
    KeptIsBounded(f, cap, EdgeOf(a.record));
    ShortIsWhole(LineOn(f, EdgeOf(a.record)), cap);
    var u: Line := [Some(Utterance(t, SaysOf(b)))];
    assert [] + u == u && TakenOn(f, [a, b], t, me, 2, EdgeOf(b.record)) == [] + u;
    assert TakenOn(f, [a, b], t, me, 2, EdgeOf(a.record)) == [] + [];
    UtteredIsHeard(LineOn(f, EdgeOf(b.record)), Utterance(t, SaysOf(b)), cap);
    SomeStillInTime(LineOn(f, EdgeOf(b.record)), cap - 1, t);
  }

  lemma TakenOfTwo(f: Fabric, batch: seq<Transition>, t: nat, me: Origin, key: EdgeKey)
    requires |batch| == 2
    ensures TakenOn(f, batch, t, me, 2, key) ==
            (if Passes(f, t, me) && EdgeOf(batch[0].record) == key then [Some(Utterance(t, SaysOf(batch[0])))] else [])
            + (if Passes(f, t + 4, me) && EdgeOf(batch[1].record) == key
               then [Some(Utterance(t, SaysOf(batch[1])))] else [])
  {
    hide EdgeOf, Passes, SaysOf;
    assert TakenOn(f, batch, t, me, 0, key) == [];
    assert TakenOn(f, batch, t, me, 1, key) ==
           [] + if Passes(f, t + 4 * 0, me) && EdgeOf(batch[0].record) == key
                then [Some(Utterance(t, SaysOf(batch[0])))] else [];
  }
}
