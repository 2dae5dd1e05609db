/** What every run of the calibration handlers keeps: one active record at most, ended for ever, and for each record a
    chain of adopted refinements that determines it. */
module CalibrationRuns {
  import opened Common
  import opened RigidTransforms
  import opened Decimals
  import opened Calibration
  import TransformHistory
  import Text

  datatype Event =
    | ListAll(seen: Reports)
    | Activate(configured: bool, activation: ActivationRequest, built: Option<Record>, published: bool)
    | Refine(request: RefineRequest, digest: string, reports: Reports, evidence: bool, published: bool)
    | Revoke(id: string, revocation: RevokeRequest, published: bool)

  /** A refinement that took effect, with the digest it was stored under. */
  datatype Adopted = Adopted(request: RefineRequest, digest: string)

  /** The records, and beside them what happened to each: how it started and the refinements it adopted. */
  datatype Ledger = Ledger(records: Records, starts: Records, adopted: map<string, seq<Adopted>>)

  const EMPTY := Ledger(map[], map[], map[])

  function RecordsAfter(records: Records, e: Event): Records {
    match e
    case ListAll(seen) => RefreshAll(records, seen)
    case Activate(configured, activation, built, published) =>
      Activated(records, configured, activation, built, published)
    case Refine(request, digest, reports, evidence, published) =>
      Refined(records, request, digest, reports, evidence, published).0
    case Revoke(id, revocation, published) => RevokedBy(records, id, revocation, published).0
  }

  /** The refinement takes effect: it is offered, and published. */
  predicate TakesEffect(records: Records, request: RefineRequest, reports: Reports, evidence: bool, published: bool) {
    OffersRefinement(records, request, reports, evidence) && published
  }

  function After(l: Ledger, e: Event): Ledger {
    var records := RecordsAfter(l.records, e);
    match e
    case Activate(_, _, built, _) =>
      if records == l.records || built.None? then l.(records := records)
      else Ledger(records, l.starts[built.value.activationId := built.value], l.adopted[built.value.activationId := []])
    case Refine(request, digest, reports, evidence, published) =>
      var id := Text.Trim(request.activationId);
      if TakesEffect(l.records, request, reports, evidence, published) && id in l.adopted
      then Ledger(records, l.starts, l.adopted[id := l.adopted[id] + [Adopted(request, digest)]])
      else l.(records := records)
    case _ => l.(records := records)
  }

  function Run(events: seq<Event>): Ledger {
    if events == [] then EMPTY else After(Run(events[..|events| - 1]), events[|events| - 1])
  }

  /** What the review checks hand over is new and made for the request. */
  ghost predicate IsSound(l: Ledger, e: Event) {
    e.Activate? && e.built.Some? ==> exists digest :: IsBuiltFor(e.built.value, e.activation, digest, l.records)
  }

  ghost predicate SoundRun(events: seq<Event>) {
    forall i :: 0 <= i < |events| ==> IsSound(Run(events[..i]), events[i])
  }

  // ----- the life of a record

  ghost predicate OneActive(records: Records) {
    forall i, j :: i in records && j in records && i != j ==> records[i].state != Active || records[j].state != Active
  }

  ghost predicate JournalIdsDistinct(journal: seq<Entry>) {
    forall i, j :: 0 <= i < j < |journal| ==> journal[i].requestId != journal[j].requestId
  }

  ghost predicate Proper(r: Record) {
    && (r.motionUsable ==> r.state == Active)
    && Text.IsTrimmed(r.requestId) && r.requestId != ""
    && JournalIdsDistinct(r.journal)
  }

  predicate SameOrigin(a: Record, b: Record) {
    && a.activationId == b.activationId && a.requestId == b.requestId && a.digest == b.digest
    && a.candidateId == b.candidateId && a.worldFrame == b.worldFrame && a.armBaseFrame == b.armBaseFrame
    && a.cameraId == b.cameraId && a.cameraDevice == b.cameraDevice && a.cameraRevision == b.cameraRevision
    && a.sessionEpoch == b.sessionEpoch
  }

  /** A step on one record: it keeps its origin and its rotation, its revision never falls, and leaving ACTIVE is for
      good, as is being REVOKED. */
  predicate Evolves(a: Record, b: Record) {
    && SameOrigin(a, b)
    && a.worldFromBase.rotation == b.worldFromBase.rotation
    && a.refinementRevision <= b.refinementRevision
    && (a.state != Active ==>
        b == a.(state := b.state, motionUsable := b.motionUsable) && (b.state == a.state || b.state == Revoked))
  }

  ghost predicate AllEvolve(before: Records, after: Records) {
    before.Keys <= after.Keys && forall id :: id in before ==> Evolves(before[id], after[id])
  }

  // ----- the chain of refinements

  /** The payload after the first `k` adopted refinements. */
  function PayloadAt(start: Record, adopted: seq<Adopted>, k: nat): Payload
    requires k <= |adopted|
  {
    if k == 0 then start.worldFromBase else adopted[k - 1].request.proposed
  }

  function NameAt(candidateId: string, k: nat): string {
    if k == 0 then candidateId else RefinedName(candidateId, k)
  }

  /** The journal entry of the `k`-th adopted refinement, linked to its predecessor. */
  function EntryAt(start: Record, adopted: seq<Adopted>, k: nat): Entry
    requires k < |adopted|
  {
    var request := adopted[k].request;
    Entry(Text.Trim(request.requestId), adopted[k].digest, k, k + 1,
          NameAt(start.candidateId, k), NameAt(start.candidateId, k + 1),
          PayloadAt(start, adopted, k).translation.value, request.proposed.translation.value, request.delta)
  }

  function Entries(start: Record, adopted: seq<Adopted>): (r: seq<Entry>)
    ensures |r| == |adopted|
  {
    seq(|adopted|, k requires 0 <= k < |adopted| => EntryAt(start, adopted, k))
  }

  /** The `k`-th refinement was made for revision `k`, from the payload then in force, at the same rotation. */
  predicate IsLink(start: Record, adopted: seq<Adopted>, k: nat)
    requires k < |adopted|
  {
    var request := adopted[k].request;
    && request.expectedRevision == k
    && request.source == PayloadAt(start, adopted, k)
    && request.proposed.rotation == start.worldFromBase.rotation
    && IsNearVector(request.proposed.translation.value, Plus(request.source.translation.value, request.delta))
  }

  /** The record is what its start and its adopted refinements determine. */
  ghost predicate IsChain(start: Record, adopted: seq<Adopted>, r: Record) {
    && start.refinementRevision == 0 && start.journal == [] && start.calibrationRevision == start.candidateId
    && SameOrigin(start, r)
    && r.refinementRevision == |adopted|
    && r.calibrationRevision == NameAt(start.candidateId, |adopted|)
    && r.worldFromBase == PayloadAt(start, adopted, |adopted|)
    && r.worldFromBase.rotation == start.worldFromBase.rotation
    && r.journal == TransformHistory.LastN(Entries(start, adopted), JOURNAL_CAPACITY)
    && forall k :: 0 <= k < |adopted| ==> IsLink(start, adopted, k)
  }

  ghost predicate IsWellKept(start: Record, adopted: seq<Adopted>, r: Record) {
    IsChain(start, adopted, r) && Proper(r)
  }

  ghost predicate Good(l: Ledger) {
    && OneActive(l.records)
    && l.records.Keys == l.starts.Keys == l.adopted.Keys
    && forall id :: id in l.records ==>
         l.records[id].activationId == id && IsWellKept(l.starts[id], l.adopted[id], l.records[id])
  }

  // ----- one record at a time

  lemma RefreshEvolves(start: Record, adopted: seq<Adopted>, r: Record, reports: Reports)
    requires IsWellKept(start, adopted, r)
    ensures var s := Refresh(r, reports);
      && Evolves(r, s) && (s.state == Active ==> r.state == Active) && s.journal == r.journal
      && IsWellKept(start, adopted, s)
  {
    hide Text.IsTrimmed, JournalIdsDistinct;
    ChainIgnoresState(start, adopted, r, Refresh(r, reports));
    hide IsChain;
  }

  // Only the state and the usability differ, so the chain is the same.
  lemma ChainIgnoresState(start: Record, adopted: seq<Adopted>, r: Record, s: Record)
    requires IsChain(start, adopted, r) && s == r.(state := s.state, motionUsable := s.motionUsable)
    ensures IsChain(start, adopted, s)
  {
    hide IsLink, Entries;
  }

  lemma FreshIsWellKept(r: Record, request: ActivationRequest, digest: string, records: Records)
    requires IsBuiltFor(r, request, digest, records)
    ensures IsWellKept(r, [], r)
  {
    Text.TrimIsTrimmed(request.requestId);
    hide Text.Trim, Text.IsTrimmed;
  }

  lemma ApplyIsWellKept(start: Record, adopted: seq<Adopted>, r: Record, request: RefineRequest, digest: string,
                        evidence: bool)
    requires IsWellKept(start, adopted, r) && Refinable(r, request, evidence)
    requires FindEntry(r.journal, Text.Trim(request.requestId)).None?
    ensures IsWellKept(start, adopted + [Adopted(request, digest)], Apply(r, request, digest))
    ensures Evolves(r, Apply(r, request, digest))
  {
    ApplyChain(start, adopted, r, request, digest, evidence);
    JournalGrows(r.journal, EntryFor(r, request, digest));
    hide IsChain, Text.IsTrimmed, Text.Trim, RefinedName, JournalIdsDistinct, IsNearVector;
  }

  lemma JournalGrows(journal: seq<Entry>, entry: Entry)
    requires JournalIdsDistinct(journal) && FindEntry(journal, entry.requestId).None?
    ensures JournalIdsDistinct(TransformHistory.LastN(journal + [entry], JOURNAL_CAPACITY))
  {
  }

  lemma ApplyChain(start: Record, adopted: seq<Adopted>, r: Record, request: RefineRequest, digest: string,
                   evidence: bool)
    requires IsChain(start, adopted, r) && Refinable(r, request, evidence)
    ensures IsChain(start, adopted + [Adopted(request, digest)], Apply(r, request, digest))
  {
    var more := adopted + [Adopted(request, digest)];
    hide RefinedName, IsNearVector;
    EntriesGrow(start, adopted, Adopted(request, digest));
    forall k | 0 <= k < |more|
      ensures IsLink(start, more, k)
    {
      if k < |adopted| {
        assert IsLink(start, adopted, k);
      }
    }
    assert EntryFor(r, request, digest) == EntryAt(start, more, |adopted|);
    TrimLastN(Entries(start, adopted), EntryAt(start, more, |adopted|));
    hide Entries, IsLink;
  }

  lemma EntriesGrow(start: Record, adopted: seq<Adopted>, a: Adopted)
    ensures Entries(start, adopted + [a]) == Entries(start, adopted) + [EntryAt(start, adopted + [a], |adopted|)]
  {
    hide RefinedName;
    forall k | 0 <= k < |adopted|
      ensures EntryAt(start, adopted + [a], k) == EntryAt(start, adopted, k)
    {
    }
  }

  lemma TrimLastN<T>(s: seq<T>, x: T)
    ensures TransformHistory.LastN(TransformHistory.LastN(s, JOURNAL_CAPACITY) + [x], JOURNAL_CAPACITY)
            == TransformHistory.LastN(s + [x], JOURNAL_CAPACITY)
  {
  }

  // ----- each event keeps the invariant

  /** `s` may stand where the record `id` stands: nothing newly adopted, nothing newly active. */
  ghost predicate MaySucceed(l: Ledger, id: string, s: Record)
    requires id in l.records && id in l.starts && id in l.adopted
  {
    && IsWellKept(l.starts[id], l.adopted[id], s) && Evolves(l.records[id], s)
    && s.activationId == id && (s.state == Active ==> l.records[id].state == Active)
  }

  lemma SuccessorsAreGood(l: Ledger, after: Records)
    requires Good(l) && after.Keys == l.records.Keys
    requires forall id :: id in after ==> MaySucceed(l, id, after[id])
    ensures Good(l.(records := after)) && AllEvolve(l.records, after)
  {
    hide IsWellKept, Evolves;
  }

  lemma GoodAt(l: Ledger, id: string)
    requires Good(l) && id in l.records
    ensures id in l.starts && id in l.adopted && IsWellKept(l.starts[id], l.adopted[id], l.records[id])
    ensures l.records[id].activationId == id
  {
    hide IsWellKept;
  }

  lemma RefreshMaySucceed(l: Ledger, id: string, reports: Reports)
    requires Good(l) && id in l.records
    ensures MaySucceed(l, id, Refresh(l.records[id], reports))
  {
    GoodAt(l, id);
    RefreshEvolves(l.starts[id], l.adopted[id], l.records[id], reports);
    hide IsWellKept, Refresh, Good;
  }

  lemma ListIsGood(l: Ledger, reports: Reports)
    requires Good(l)
    ensures Good(l.(records := RefreshAll(l.records, reports))) && AllEvolve(l.records, RefreshAll(l.records, reports))
  {
    hide Refresh, MaySucceed, IsWellKept, OneActive, AllEvolve;
    forall id | id in l.records
      ensures MaySucceed(l, id, Refresh(l.records[id], reports))
    {
      RefreshMaySucceed(l, id, reports);
    }
    SuccessorsAreGood(l, RefreshAll(l.records, reports));
  }

  lemma SupersededMaySucceed(l: Ledger, id: string)
    requires Good(l) && id in l.records
    ensures MaySucceed(l, id, SupersededOf(l.records[id]))
  {
    GoodAt(l, id);
    var r := l.records[id];
    ChainIgnoresState(l.starts[id], l.adopted[id], r, SupersededOf(r));
    hide IsChain, Text.IsTrimmed, JournalIdsDistinct, Good;
  }

  lemma SupersedeIsGood(l: Ledger)
    requires Good(l)
    ensures Good(l.(records := SupersedeAll(l.records))) && AllEvolve(l.records, SupersedeAll(l.records))
  {
    hide SupersededOf, MaySucceed, IsWellKept, OneActive, AllEvolve;
    forall id | id in l.records
      ensures MaySucceed(l, id, SupersededOf(l.records[id]))
    {
      SupersededMaySucceed(l, id);
    }
    SuccessorsAreGood(l, SupersedeAll(l.records));
  }

  lemma AddIsGood(l: Ledger, built: Record)
    requires Good(l) && built.activationId !in l.records && IsWellKept(built, [], built)
    requires forall id :: id in l.records ==> l.records[id].state != Active
    ensures Good(Ledger(l.records[built.activationId := built], l.starts[built.activationId := built],
                        l.adopted[built.activationId := []]))
    ensures AllEvolve(l.records, l.records[built.activationId := built])
  {
    hide IsWellKept;
  }

  lemma NoneActive(records: Records)
    ensures forall id :: id in SupersedeAll(records) ==> SupersedeAll(records)[id].state != Active
  {
  }

  lemma ActivateAfter(l: Ledger, e: Event)
    requires e.Activate? && IsSound(l, e)
    ensures || After(l, e) == l
            || (&& e.built.Some? && (exists digest :: IsBuiltFor(e.built.value, e.activation, digest, l.records))
                && var built := e.built.value;
                   After(l, e) == Ledger(SupersedeAll(l.records)[built.activationId := built],
                                         l.starts[built.activationId := built], l.adopted[built.activationId := []]))
  {
    hide SupersedeAll, KnowsRequest, IsBuiltFor;
  }

  lemma ActivateIsGood(l: Ledger, e: Event)
    requires Good(l) && e.Activate? && IsSound(l, e)
    ensures Good(After(l, e)) && AllEvolve(l.records, After(l, e).records)
  {
    EvolvesReflexive(l.records);
    ActivateAfter(l, e);
    hide *;
    if After(l, e) != l {
      var built := e.built.value;
      var digest :| IsBuiltFor(built, e.activation, digest, l.records);
      NewIsWellKept(built, e.activation, digest, l.records);
      SupersedeIsGood(l);
      NoneActive(l.records);
      AddIsGood(l.(records := SupersedeAll(l.records)), built);
      EvolvesTransitive(l.records, SupersedeAll(l.records), After(l, e).records);
    }
  }

  lemma NewIsWellKept(r: Record, request: ActivationRequest, digest: string, records: Records)
    requires IsBuiltFor(r, request, digest, records)
    ensures IsWellKept(r, [], r) && r.activationId !in SupersedeAll(records)
  {
    FreshIsWellKept(r, request, digest, records);
  }

  lemma EvolvesReflexive(records: Records)
    ensures AllEvolve(records, records)
  {
  }

  // One record replaced by a later form of itself.
  lemma ReplaceIsGood(l: Ledger, id: string, s: Record, adopted: seq<Adopted>)
    requires Good(l) && id in l.records && IsWellKept(l.starts[id], adopted, s)
    requires Evolves(l.records[id], s) && s.activationId == id && (s.state == Active ==> l.records[id].state == Active)
    ensures Good(Ledger(l.records[id := s], l.starts, l.adopted[id := adopted]))
    ensures AllEvolve(l.records, l.records[id := s])
  {
    hide IsWellKept, Evolves;
    forall other | other in l.records
      ensures Evolves(l.records[other], l.records[other])
    {
      EvolvesItself(l.records[other]);
    }
  }

  lemma EvolvesItself(r: Record)
    ensures Evolves(r, r)
  {
  }

  // The same, when nothing was adopted.
  lemma ReplaceState(l: Ledger, id: string, s: Record)
    requires Good(l) && id in l.records && id in l.starts && id in l.adopted && MaySucceed(l, id, s)
    ensures Good(l.(records := l.records[id := s])) && AllEvolve(l.records, l.records[id := s])
  {
    SameAdopted(l, id);
    ReplaceIsGood(l, id, s, l.adopted[id]);
    hide *;
  }

  lemma SameAdopted(l: Ledger, id: string)
    requires id in l.adopted
    ensures l.adopted[id := l.adopted[id]] == l.adopted
  {
  }

  lemma RefineAfter(l: Ledger, e: Event, id: string)
    requires e.Refine? && id == Text.Trim(e.request.activationId) && l.records.Keys == l.adopted.Keys
    ensures
      if !IsNamed(e.request) || id !in l.records
          || FindEntry(l.records[id].journal, Text.Trim(e.request.requestId)).Some?
      then After(l, e) == l
      else
        var refreshed := Refresh(l.records[id], e.reports);
        if Refinable(refreshed, e.request, e.evidence) && e.published
        then After(l, e) == Ledger(l.records[id := Apply(refreshed, e.request, e.digest)], l.starts,
                                   l.adopted[id := l.adopted[id] + [Adopted(e.request, e.digest)]])
        else After(l, e) == l.(records := l.records[id := refreshed])
  {
    hide Refinable, Apply, Refresh, IsNamed, FindEntry, Text.Trim;
  }

  lemma RefineIsGood(l: Ledger, e: Event)
    requires Good(l) && e.Refine?
    ensures Good(After(l, e)) && AllEvolve(l.records, After(l, e).records)
  {
    var id := Text.Trim(e.request.activationId);
    EvolvesReflexive(l.records);
    RefineAfter(l, e, id);
    hide *;
    if id in l.records && FindEntry(l.records[id].journal, Text.Trim(e.request.requestId)).None? {
      var refreshed := Refresh(l.records[id], e.reports);
      RefreshMaySucceed(l, id, e.reports);
      KeepsJournal(l.records[id], e.reports);
      ReplaceState(l, id, refreshed);
      if Refinable(refreshed, e.request, e.evidence) {
        RefineOne(l, e, id, refreshed);
      }
    }
  }

  lemma KeepsJournal(r: Record, reports: Reports)
    ensures Refresh(r, reports).journal == r.journal
  {
  }

  lemma RefineOne(l: Ledger, e: Event, id: string, refreshed: Record)
    requires Good(l) && e.Refine? && id in l.records && MaySucceed(l, id, refreshed)
    requires FindEntry(refreshed.journal, Text.Trim(e.request.requestId)).None?
    requires Refinable(refreshed, e.request, e.evidence)
    ensures var s := Apply(refreshed, e.request, e.digest);
      && Good(Ledger(l.records[id := s], l.starts, l.adopted[id := l.adopted[id] + [Adopted(e.request, e.digest)]]))
      && AllEvolve(l.records, l.records[id := s])
  {
    var s := Apply(refreshed, e.request, e.digest);
    ApplyIsWellKept(l.starts[id], l.adopted[id], refreshed, e.request, e.digest, e.evidence);
    OneEvolvesTransitive(l.records[id], refreshed, s);
    IdOf(l, id, s);
    ReplaceIsGood(l, id, s, l.adopted[id] + [Adopted(e.request, e.digest)]);
    hide *;
  }

  lemma IdOf(l: Ledger, id: string, s: Record)
    requires Good(l) && id in l.records && Evolves(l.records[id], s)
    ensures s.activationId == id && (s.state == Active ==> l.records[id].state == Active)
  {
    hide IsWellKept;
  }

  lemma OneEvolvesTransitive(a: Record, b: Record, c: Record)
    requires Evolves(a, b) && Evolves(b, c)
    ensures Evolves(a, c)
  {
  }

  lemma RevokedMaySucceed(l: Ledger, id: string)
    requires Good(l) && id in l.records
    ensures MaySucceed(l, id, l.records[id].(state := Revoked, motionUsable := false))
  {
    GoodAt(l, id);
    var r := l.records[id];
    ChainIgnoresState(l.starts[id], l.adopted[id], r, r.(state := Revoked, motionUsable := false));
    hide IsChain, Text.IsTrimmed, JournalIdsDistinct, Good;
  }

  lemma RevokeAfter(l: Ledger, e: Event)
    requires e.Revoke?
    ensures After(l, e) == l || (e.id in l.records &&
      After(l, e) == l.(records := l.records[e.id := l.records[e.id].(state := Revoked, motionUsable := false)]))
  {
    hide Text.Trim;
  }

  lemma RevokeIsGood(l: Ledger, e: Event)
    requires Good(l) && e.Revoke?
    ensures Good(After(l, e)) && AllEvolve(l.records, After(l, e).records)
  {
    EvolvesReflexive(l.records);
    RevokeAfter(l, e);
    hide *;
    if e.id in l.records {
      RevokedMaySucceed(l, e.id);
      ReplaceState(l, e.id, l.records[e.id].(state := Revoked, motionUsable := false));
    }
  }

  lemma StepIsGood(l: Ledger, e: Event)
    requires Good(l) && IsSound(l, e)
    ensures Good(After(l, e)) && AllEvolve(l.records, After(l, e).records)
  {
    hide Good, AllEvolve, IsSound, RefreshAll, Activated, Refined, RevokedBy, TakesEffect;
    match e
    case ListAll(seen) => ListIsGood(l, seen);
    case Activate(_, _, _, _) => ActivateIsGood(l, e);
    case Refine(_, _, _, _, _) => RefineIsGood(l, e);
    case Revoke(_, _, _) => RevokeIsGood(l, e);
  }

  /** In every run at most one record is active, a usable record is active, and each record is the chain of the
      refinements it adopted. */
  lemma {:induction false} EveryRunIsGood(events: seq<Event>)
    requires SoundRun(events)
    ensures Good(Run(events))
  {
    if events != [] {
      var n := |events| - 1;
      PrefixIsSound(events, n);
      EveryRunIsGood(events[..n]);
      hide Good, IsSound;
      StepIsGood(Run(events[..n]), events[n]);
    }
  }

  lemma PrefixIsSound(events: seq<Event>, n: nat)
    requires SoundRun(events) && n <= |events|
    ensures SoundRun(events[..n])
  {
    hide Run, IsSound;
    forall i | 0 <= i < n
      ensures IsSound(Run(events[..n][..i]), events[..n][i])
    {
      assert events[..n][..i] == events[..i];
    }
  }

  lemma EvolvesTransitive(a: Records, b: Records, c: Records)
    requires AllEvolve(a, b) && AllEvolve(b, c)
    ensures AllEvolve(a, c)
  {
    forall id | id in a
      ensures Evolves(a[id], c[id])
    {
      OneEvolvesTransitive(a[id], b[id], c[id]);
    }
    hide Evolves;
  }

  lemma LastStepEvolves(events: seq<Event>)
    requires SoundRun(events) && events != []
    ensures AllEvolve(Run(events[..|events| - 1]).records, Run(events).records)
  {
    var m := |events| - 1;
    PrefixIsSound(events, m);
    EveryRunIsGood(events[..m]);
    assert events[..m] == events[..|events| - 1];
    assert IsSound(Run(events[..m]), events[m]);
    hide Good, IsSound, AllEvolve, After, SoundRun;
    StepIsGood(Run(events[..m]), events[m]);
  }

  /** From any moment of a run to any later one every record only evolves; in particular none becomes ACTIVE again. */
  lemma {:induction false} EndedForEver(events: seq<Event>, n: nat)
    requires SoundRun(events) && n <= |events|
    ensures AllEvolve(Run(events[..n]).records, Run(events).records)
    decreases |events|
  {
    hide *;
    if n == |events| {
      assert events[..n] == events;
      EvolvesReflexive(Run(events).records);
    } else {
      var m := |events| - 1;
      PrefixIsSound(events, m);
      EndedForEver(events[..m], n);
      assert events[..m][..n] == events[..n];
      LastStepEvolves(events);
      EvolvesTransitive(Run(events[..n]).records, Run(events[..m]).records, Run(events).records);
    }
  }

  // ----- replayed requests

  /** An activation that took effect is recognised afterwards exactly when its request identifier came trimmed: the
      stored identifier is trimmed and the lookup is not.  Recognised, it changes nothing. */
  lemma ReplayRecognisedIff(l: Ledger, id: string, request: ActivationRequest)
    requires Good(l) && id in l.records && l.records[id].requestId == Text.Trim(request.requestId)
    ensures KnowsRequest(l.records, request.requestId) <==> Text.IsTrimmed(request.requestId)
    ensures Text.IsTrimmed(request.requestId) ==> forall configured, built, published ::
        Activated(l.records, configured, request, built, published) == l.records
  {
    Text.TrimIsTrimmed(request.requestId);
    if Text.IsTrimmed(request.requestId) {
      Text.TrimmedIsFixed(request.requestId);
    }
    hide Text.IsTrimmed, Text.Trim, IsChain, JournalIdsDistinct;
  }

  /** An activation that is built and published anew under the identifier of an active record supersedes that record
      exactly when the identifier did not come trimmed; the request then has two records, the newer one active. */
  lemma ReplaySupersedesIff(l: Ledger, id: string, request: ActivationRequest, digest: string, built: Record)
    requires Good(l) && id in l.records && l.records[id].state == Active
    requires l.records[id].requestId == Text.Trim(request.requestId) && IsBuiltFor(built, request, digest, l.records)
    ensures var after := Activated(l.records, true, request, Some(built), true);
      && id in after && (after[id].state == Superseded <==> !Text.IsTrimmed(request.requestId))
      && (!Text.IsTrimmed(request.requestId) ==>
            && built.activationId in after && built.activationId != id && after[built.activationId].state == Active
            && after[built.activationId].requestId == after[id].requestId)
  {
    hide Text.IsTrimmed, Text.Trim, Good, KnowsRequest;
    ReplayRecognisedIff(l, id, request);
  }

  /** The record of the request `" a"` under an identifier of its own. */
  function PaddedRecord(id: string): Record {
    Record(id, "a", "digest", "candidate", "candidate", Active, true, "world", "base", "camera", "device",
           "revision", "epoch", Payload(Spelled("", ZERO), Spelled("", ONE), ""), 0, [])
  }

  function PaddedActivation(id: string): Event {
    Activate(true, ActivationRequest(" a", "reviewer", ""), Some(PaddedRecord(id)), true)
  }

  /** Sent twice, a request whose identifier starts with a space leaves two records: its first effect is superseded. */
  lemma PaddedRequestRunsTwice()
    ensures var events := [PaddedActivation("1"), PaddedActivation("2")];
      && SoundRun(events)
      && Run(events).records == map["1" := PaddedRecord("1").(state := Superseded, motionUsable := false),
                                    "2" := PaddedRecord("2")]
  {
    var events := [PaddedActivation("1"), PaddedActivation("2")];
    assert " a"[1..] == "a";
    assert Text.Trim(" a") == "a";
    hide Text.Trim;
    assert events[..0] == [] && events[..1] == [PaddedActivation("1")] && events[..1][..0] == [];
    assert IsBuiltFor(PaddedRecord("1"), events[0].activation, "digest", map[]);
    assert Run(events[..1]).records == map["1" := PaddedRecord("1")];
    assert IsBuiltFor(PaddedRecord("2"), events[1].activation, "digest", Run(events[..1]).records);
  }

  lemma LinkOf(l: Ledger, id: string, k: nat)
    requires Good(l) && id in l.records && k < |l.adopted[id]|
    ensures l.adopted[id][k].request.expectedRevision == k < l.records[id].refinementRevision
  {
    assert IsChain(l.starts[id], l.adopted[id], l.records[id]);
    assert IsLink(l.starts[id], l.adopted[id], k);
    hide IsNearVector, PayloadAt, NameAt, Entries;
  }

  /** Two refinements that took effect on one record are different requests. */
  lemma AdoptedOnce(l: Ledger, id: string, i: nat, j: nat)
    requires Good(l) && id in l.records && i < j < |l.adopted[id]|
    ensures l.adopted[id][i].request != l.adopted[id][j].request
  {
    LinkOf(l, id, i);
    LinkOf(l, id, j);
    hide *;
  }

  /** A request that took effect never does again, also after its journal entry is drained: the revision it expects has
      passed.  Repeating it changes at most the usability and state that refreshing sets. */
  lemma ReplayedRefinementIsInert(l: Ledger, id: string, k: nat, digest: string, reports: Reports, evidence: bool,
                                  published: bool)
    requires Good(l) && id in l.records && k < |l.adopted[id]| && Text.Trim(l.adopted[id][k].request.activationId) == id
    ensures var request := l.adopted[id][k].request;
      && !TakesEffect(l.records, request, reports, evidence, published)
      && var after := Refined(l.records, request, digest, reports, evidence, published).0;
         after == l.records || after == l.records[id := Refresh(l.records[id], reports)]
  {
    LinkOf(l, id, k);
    hide *;
    GoodAt(l, id);
    StaleIsInert(l.records, id, l.adopted[id][k].request, digest, reports, evidence, published);
  }

  lemma StaleIsInert(records: Records, id: string, request: RefineRequest, digest: string, reports: Reports,
                     evidence: bool, published: bool)
    requires id in records && Text.Trim(request.activationId) == id
    requires request.expectedRevision < records[id].refinementRevision
    ensures !TakesEffect(records, request, reports, evidence, published)
    ensures var after := Refined(records, request, digest, reports, evidence, published).0;
      after == records || after == records[id := Refresh(records[id], reports)]
  {
    StaleIsNotRefinable(records[id], reports, request, evidence);
    hide Refresh, FindEntry, Text.Trim, Refinable, Apply, IsNamed;
  }

  lemma StaleIsNotRefinable(r: Record, reports: Reports, request: RefineRequest, evidence: bool)
    requires request.expectedRevision < r.refinementRevision
    ensures !Refinable(Refresh(r, reports), request, evidence)
  {
  }

  /** Within the journal's reach the replay answers with the record itself, and nothing at all changes. */
  lemma JournaledReplayAnswers(l: Ledger, id: string, k: nat, reports: Reports, evidence: bool, published: bool)
    requires Good(l) && id in l.records && k < |l.adopted[id]| <= k + JOURNAL_CAPACITY
    requires var request := l.adopted[id][k].request; IsNamed(request) && Text.Trim(request.activationId) == id
    ensures Refined(l.records, l.adopted[id][k].request, l.adopted[id][k].digest, reports, evidence, published)
            == (l.records, Ok(l.records[id]))
  {
    var entry := EntryAt(l.starts[id], l.adopted[id], k);
    EntryIsKept(l.starts[id], l.adopted[id], l.records[id], k);
    FoundIsEntry(l.records[id].journal, entry);
    hide Good, IsChain, Refresh, Refinable, FindEntry, Text.Trim, PayloadAt, NameAt, IsNamed;
  }

  lemma EntryIsKept(start: Record, adopted: seq<Adopted>, r: Record, k: nat)
    requires IsWellKept(start, adopted, r) && k < |adopted| <= k + JOURNAL_CAPACITY
    ensures EntryAt(start, adopted, k) in r.journal && JournalIdsDistinct(r.journal)
  {
    var drained := |adopted| - |r.journal|;
    assert r.journal[k - drained] == Entries(start, adopted)[k];
    hide IsLink, EntryAt, NameAt, PayloadAt;
  }

  lemma FoundIsEntry(journal: seq<Entry>, entry: Entry)
    requires JournalIdsDistinct(journal) && entry in journal
    ensures FindEntry(journal, entry.requestId) == Some(entry)
  {
    hide FindEntry;
  }

  // ----- drift

  function Sum(adopted: seq<Adopted>, axis: Vec3 -> real): real {
    if adopted == [] then 0.0
    else Sum(adopted[..|adopted| - 1], axis) + axis(adopted[|adopted| - 1].request.delta)
  }

  /** `axis` reads one coordinate. */
  ghost predicate IsAxis(axis: Vec3 -> real) {
    || (forall v: Vec3 :: axis(v) == v.x)
    || (forall v: Vec3 :: axis(v) == v.y)
    || (forall v: Vec3 :: axis(v) == v.z)
  }

  predicate Within(a: real, b: real, n: nat) {
    -(n as real) * TOLERANCE <= a - b <= n as real * TOLERANCE
  }

  /** After `n` refinements each coordinate is within `n` tolerances of the start plus the sum of the adopted deltas. */
  lemma {:induction false} DriftIsBounded(start: Record, adopted: seq<Adopted>, axis: Vec3 -> real)
    requires IsAxis(axis) && forall k :: 0 <= k < |adopted| ==> IsLink(start, adopted, k)
    ensures Within(axis(PayloadAt(start, adopted, |adopted|).translation.value),
                   axis(start.worldFromBase.translation.value) + Sum(adopted, axis), |adopted|)
  {
    if adopted != [] {
      var n := |adopted| - 1;
      forall k | 0 <= k < n
        ensures IsLink(start, adopted[..n], k)
      {
        assert IsLink(start, adopted, k);
      }
      DriftIsBounded(start, adopted[..n], axis);
      assert IsLink(start, adopted, n);
      var request := adopted[n].request;
      assert request.source == PayloadAt(start, adopted[..n], n);
      assert IsNear(axis(request.proposed.translation.value),
                    axis(request.source.translation.value) + axis(request.delta));
      hide IsLink, PayloadAt;
      OneMoreTolerance(axis(request.proposed.translation.value), axis(request.source.translation.value),
                       axis(request.delta), axis(start.worldFromBase.translation.value) + Sum(adopted[..n], axis), n);
    }
  }

  lemma OneMoreTolerance(proposed: real, source: real, delta: real, base: real, n: nat)
    requires Within(source, base, n) && IsNear(proposed, source + delta)
    ensures Within(proposed, base + delta, n + 1)
  {
    assert (n + 1) as real * TOLERANCE == n as real * TOLERANCE + TOLERANCE;
  }

  /** The names given to one record's successive calibrations all differ. */
  lemma NamesDiffer(candidateId: string, i: nat, j: nat)
    requires i != j
    ensures NameAt(candidateId, i) != NameAt(candidateId, j)
  {
    if i == 0 || j == 0 {
      assert |NameAt(candidateId, i)| != |NameAt(candidateId, j)|;
    } else if RefinedName(candidateId, i) == RefinedName(candidateId, j) {
      var prefix := candidateId + ":translation-refinement:";
      assert RefinedName(candidateId, i)[|prefix|..] == Decimal(i);
      assert RefinedName(candidateId, j)[|prefix|..] == Decimal(j);
      DecimalInjective(i, j);
    }
  }

  /** So in every run each coordinate of a record is within its revision times the tolerance of where it started plus
      the deltas it adopted. */
  lemma RefinedStaysNear(l: Ledger, id: string, axis: Vec3 -> real)
    requires Good(l) && id in l.records && IsAxis(axis)
    ensures Within(axis(l.records[id].worldFromBase.translation.value),
                   axis(l.starts[id].worldFromBase.translation.value) + Sum(l.adopted[id], axis),
                   l.records[id].refinementRevision)
  {
    hide *;
    GoodAt(l, id);
    ChainLinks(l.starts[id], l.adopted[id], l.records[id]);
    DriftIsBounded(l.starts[id], l.adopted[id], axis);
  }

  lemma ChainLinks(start: Record, adopted: seq<Adopted>, r: Record)
    requires IsWellKept(start, adopted, r)
    ensures r.refinementRevision == |adopted| && r.worldFromBase == PayloadAt(start, adopted, |adopted|)
    ensures forall k :: 0 <= k < |adopted| ==> IsLink(start, adopted, k)
  {
    hide IsLink, PayloadAt, Entries, NameAt;
  }
}
