/** Resolving one edge of the transform graph at a query time.  The indexed answer is compared with a plain scan
    of the retained samples, which never looks at the index. */
module TransformResolution {
  import opened Common
  import opened RigidTransforms
  import opened TransformHistory

  datatype ResolvedEdge = ResolvedEdge(
    key: EdgeKey,
    parentFromChild: Rigid, authority: string,
    providerId: string, providerInstanceId: string,
    observedAtUs: nat, interpolated: bool,
    extrapolatedByUs: nat, sessionEpoch: Option<string>,
    calibrationRevision: Option<string>)

  /** What the caller asked for; `nowUs` is the clock reading the expiry test uses. */
  datatype EdgeQuery = EdgeQuery(atUs: nat, maxExtrapolationUs: nat, sessionEpoch: Option<string>, nowUs: nat)

  datatype EdgeOutcome =
    | Unambiguous(edge: Option<ResolvedEdge>)
    | Conflicting(authorities: set<string>)

  type Slerp = (UnitQuat, UnitQuat, real) -> UnitQuat

  /** `iter().rev().find(p)` */
  function FindLast(v: seq<Sample>, p: Sample -> bool): (r: Option<Sample>)
    ensures r.None? ==> forall s :: s in v ==> !p(s)
    ensures r.Some? ==> exists i ::
        0 <= i < |v| && v[i] == r.value && p(v[i]) && forall j :: i < j < |v| ==> !p(v[j])
  {
    if v == [] then None
    else if p(v[|v| - 1]) then Some(v[|v| - 1])
    else FindLast(v[..|v| - 1], p)
  }

  /** `iter().find(p)` */
  function FindFirst(v: seq<Sample>, p: Sample -> bool): (r: Option<Sample>)
    ensures r.None? ==> forall s :: s in v ==> !p(s)
    ensures r.Some? ==> exists i ::
        0 <= i < |v| && v[i] == r.value && p(v[i]) && forall j :: 0 <= j < i ==> !p(v[j])
  {
    if v == [] then None
    else if p(v[0]) then Some(v[0])
    else FindFirst(v[1..], p)
  }

  predicate GraphUsable(s: Sample, nowUs: nat) {
    && s.valid != Some(false)
    && !(s.expiresAtUs.Some? && nowUs > s.expiresAtUs.value)
    && s.motionUsable != Some(false)
    && !s.reviewRequired
  }

  predicate Eligible(s: Sample, q: EdgeQuery) {
    GraphUsable(s, q.nowUs) && (q.sessionEpoch.Some? ==> s.sessionEpoch == q.sessionEpoch)
  }

  function Lerp(left: real, right: real, alpha: real): real {
    left + (right - left) * alpha
  }

  function FromSample(key: EdgeKey, authority: string, s: Sample, extrapolatedByUs: nat): ResolvedEdge {
    ResolvedEdge(key, s.pose, authority, s.providerId, s.providerInstanceId, s.observedAtUs, false,
                 extrapolatedByUs, s.sessionEpoch, s.calibrationRevision)
  }

  function Interpolated(key: EdgeKey, authority: string, left: Sample, right: Sample, atUs: nat, slerp: Slerp)
    : ResolvedEdge
    requires left.observedAtUs < right.observedAtUs
  {
    var span := right.observedAtUs - left.observedAtUs;
    var alpha := (atUs - left.observedAtUs) as real / span as real;
    var a, b := left.pose.translation, right.pose.translation;
    ResolvedEdge(key,
                 Rigid(Vec3(Lerp(a.x, b.x, alpha), Lerp(a.y, b.y, alpha), Lerp(a.z, b.z, alpha)),
                       slerp(left.pose.rotation, right.pose.rotation, alpha)),
                 authority, right.providerId, right.providerInstanceId, atUs, true, 0,
                 right.sessionEpoch, right.calibrationRevision)
  }

  /** The choice between the eligible neighbours of the query time. */
  function Decide(key: EdgeKey, authority: string, before: Option<Sample>, after: Option<Sample>,
                  q: EdgeQuery, slerp: Slerp): Option<ResolvedEdge>
    requires before.Some? ==> before.value.observedAtUs <= q.atUs
    requires after.Some? ==> after.value.observedAtUs >= q.atUs
  {
    if before.Some? && after.Some? && before.value.observedAtUs != after.value.observedAtUs
       && before.value.sessionEpoch == after.value.sessionEpoch
    then Some(Interpolated(key, authority, before.value, after.value, q.atUs, slerp))
    else if before.Some? then
      var delta := q.atUs - before.value.observedAtUs;
      if delta > q.maxExtrapolationUs then None else Some(FromSample(key, authority, before.value, delta))
    else if after.Some? then
      var delta := after.value.observedAtUs - q.atUs;
      if delta > q.maxExtrapolationUs then None else Some(FromSample(key, authority, after.value, delta))
    else None
  }

  /** The search in a sorted dynamic vector. */
  function ResolveAuthoritySamples(key: EdgeKey, authority: string, samples: seq<Sample>, q: EdgeQuery, slerp: Slerp)
    : Option<ResolvedEdge>
    requires Sorted(samples)
  {
    if samples == [] then None
    else
      var beforeEnd := PartitionPoint(samples, (s: Sample) => s.observedAtUs <= q.atUs);
      var before := FindLast(samples[..beforeEnd], (s: Sample) => Eligible(s, q));
      var afterStart := PartitionPoint(samples, (s: Sample) => s.observedAtUs < q.atUs);
      var after := FindFirst(samples[afterStart..], (s: Sample) => Eligible(s, q));
      Decide(key, authority, before, after, q, slerp)
  }

  // ----- the plain scan

  /** The greatest sample of `fifo` satisfying `p`, by time and then insertion id. */
  function Latest(fifo: seq<Sample>, p: Sample -> bool): (r: Option<Sample>)
    ensures r.None? ==> forall s :: s in fifo ==> !p(s)
    ensures r.Some? ==> r.value in fifo && p(r.value) && forall s :: s in fifo && p(s) ==> !Before(r.value, s)
  {
    if fifo == [] then None
    else
      var r, s := Latest(fifo[..|fifo| - 1], p), fifo[|fifo| - 1];
      if p(s) && (r.None? || Before(r.value, s)) then Some(s) else r
  }

  /** The least sample of `fifo` satisfying `p`. */
  function Earliest(fifo: seq<Sample>, p: Sample -> bool): (r: Option<Sample>)
    ensures r.None? ==> forall s :: s in fifo ==> !p(s)
    ensures r.Some? ==> r.value in fifo && p(r.value) && forall s :: s in fifo && p(s) ==> !Before(s, r.value)
  {
    if fifo == [] then None
    else
      var r, s := Earliest(fifo[..|fifo| - 1], p), fifo[|fifo| - 1];
      if p(s) && (r.None? || Before(s, r.value)) then Some(s) else r
  }

  predicate IsStaticOf(s: Sample, authority: string) {
    s.authority == authority && s.isStatic
  }

  predicate IsCandidate(s: Sample, authority: string, q: EdgeQuery) {
    s.authority == authority && !s.isStatic && Eligible(s, q)
  }

  function LatestStatic(fifo: seq<Sample>, authority: string): Option<Sample> {
    Latest(fifo, (s: Sample) => IsStaticOf(s, authority))
  }

  function LatestUpTo(fifo: seq<Sample>, authority: string, q: EdgeQuery): Option<Sample> {
    Latest(fifo, (s: Sample) => IsCandidate(s, authority, q) && s.observedAtUs <= q.atUs)
  }

  function EarliestFrom(fifo: seq<Sample>, authority: string, q: EdgeQuery): Option<Sample> {
    Earliest(fifo, (s: Sample) => IsCandidate(s, authority, q) && q.atUs <= s.observedAtUs)
  }

  /** What one authority says: its latest static sample decides, usable or not; otherwise its dynamic samples. */
  function ScanAuthority(key: EdgeKey, fifo: seq<Sample>, authority: string, q: EdgeQuery, slerp: Slerp)
    : Option<ResolvedEdge>
  {
    var fixed := LatestStatic(fifo, authority);
    if fixed.Some? then
      if GraphUsable(fixed.value, q.nowUs) then Some(FromSample(key, authority, fixed.value, 0)) else None
    else
      Decide(key, authority, LatestUpTo(fifo, authority, q), EarliestFrom(fifo, authority, q), q, slerp)
  }

  /** The authorities with an answer. */
  ghost function Speaking(key: EdgeKey, fifo: seq<Sample>, q: EdgeQuery, slerp: Slerp): set<string> {
    set s | s in fifo && ScanAuthority(key, fifo, s.authority, q, slerp).Some? :: s.authority
  }

  /** One speaking authority answers the edge, several conflict, none leaves it out. */
  ghost function ScanEdge(key: EdgeKey, fifo: seq<Sample>, q: EdgeQuery, slerp: Slerp): EdgeOutcome {
    var speaking := Speaking(key, fifo, q, slerp);
    if |speaking| > 1 then Conflicting(speaking)
    else if speaking == {} then Unambiguous(None)
    else var authority :| authority in speaking; Unambiguous(ScanAuthority(key, fifo, authority, q, slerp))
  }

  // ----- the index agrees with the scan

  lemma Unordered(fifo: seq<Sample>, a: Sample, b: Sample)
    requires Arrivals(fifo) && a in fifo && b in fifo && !Before(a, b) && !Before(b, a)
    ensures a == b
  {
    SameId(fifo, a, b);
  }

  lemma FindLastIsGreatest(v: seq<Sample>, p: Sample -> bool)
    requires Sorted(v)
    ensures var r := FindLast(v, p);
            r.Some? ==> r.value in v && p(r.value) && forall s :: s in v && p(s) ==> !Before(r.value, s)
  {
    var r := FindLast(v, p);
    if r.Some? {
      var i :| 0 <= i < |v| && v[i] == r.value && p(v[i]) && forall j :: i < j < |v| ==> !p(v[j]);
      forall s | s in v && p(s)
        ensures !Before(r.value, s)
      {
        var j :| 0 <= j < |v| && v[j] == s;
        assert j < i ==> Before(v[j], v[i]);
      }
    }
  }

  lemma FindFirstIsLeast(v: seq<Sample>, p: Sample -> bool)
    requires Sorted(v)
    ensures var r := FindFirst(v, p);
            r.Some? ==> r.value in v && p(r.value) && forall s :: s in v && p(s) ==> !Before(s, r.value)
  {
    var r := FindFirst(v, p);
    if r.Some? {
      var i :| 0 <= i < |v| && v[i] == r.value && p(v[i]) && forall j :: 0 <= j < i ==> !p(v[j]);
      forall s | s in v && p(s)
        ensures !Before(s, r.value)
      {
        var j :| 0 <= j < |v| && v[j] == s;
        assert i < j ==> Before(v[i], v[j]);
      }
    }
  }

  // Splitting a sorted vector at a partition point of the query time.
  lemma SliceUpTo(v: seq<Sample>, atUs: nat)
    requires Sorted(v)
    ensures var k := PartitionPoint(v, (s: Sample) => s.observedAtUs <= atUs);
            Sorted(v[..k]) && forall s :: s in v[..k] <==> s in v && s.observedAtUs <= atUs
  {
    var k := PartitionPoint(v, (s: Sample) => s.observedAtUs <= atUs);
    TimesAfter(v, k);
    SplitMembers(v, k);
  }

  lemma SliceFrom(v: seq<Sample>, atUs: nat)
    requires Sorted(v)
    ensures var k := PartitionPoint(v, (s: Sample) => s.observedAtUs < atUs);
            Sorted(v[k..]) && forall s :: s in v[k..] <==> s in v && atUs <= s.observedAtUs
  {
    var k := PartitionPoint(v, (s: Sample) => s.observedAtUs < atUs);
    TimesAfter(v, k);
    SplitMembers(v, k);
  }

  lemma TimesAfter(v: seq<Sample>, k: nat)
    requires Sorted(v) && k <= |v|
    ensures forall s :: k < |v| && s in v[k..] ==> v[k].observedAtUs <= s.observedAtUs
  {
    forall i | k < i < |v|
      ensures v[k].observedAtUs <= v[i].observedAtUs
    {
      assert Before(v[k], v[i]);
    }
  }

  lemma SplitMembers(v: seq<Sample>, k: nat)
    requires k <= |v|
    ensures forall s :: s in v <==> s in v[..k] || s in v[k..]
  {
    assert v == v[..k] + v[k..];
  }

  // The last of a sorted vector is its greatest element, so it is the one the scan finds.
  lemma LastIsLatest(v: seq<Sample>, fifo: seq<Sample>, authority: string)
    requires Arrivals(fifo) && VectorOf(v, fifo, authority, true)
    ensures LatestStatic(fifo, authority) == if v == [] then None else Some(v[|v| - 1])
  {
    var r := LatestStatic(fifo, authority);
    if v != [] {
      var last := v[|v| - 1];
      assert last in v;
      var i :| 0 <= i < |v| && v[i] == r.value;
      assert i < |v| - 1 ==> Before(v[i], last);
    }
  }

  lemma FoundBefore(v: seq<Sample>, fifo: seq<Sample>, authority: string, q: EdgeQuery)
    requires Arrivals(fifo) && VectorOf(v, fifo, authority, false)
    ensures var k := PartitionPoint(v, (s: Sample) => s.observedAtUs <= q.atUs);
            FindLast(v[..k], (s: Sample) => Eligible(s, q)) == LatestUpTo(fifo, authority, q)
  {
    var k := PartitionPoint(v, (s: Sample) => s.observedAtUs <= q.atUs);
    var f, r := FindLast(v[..k], (s: Sample) => Eligible(s, q)), LatestUpTo(fifo, authority, q);
    SliceUpTo(v, q.atUs);
    FindLastIsGreatest(v[..k], (s: Sample) => Eligible(s, q));
    hide Before, Sorted, Arrivals, Eligible, FindLast, Latest;
    if f.Some? && r.Some? {
      Unordered(fifo, f.value, r.value);
    }
  }

  lemma FoundAfter(v: seq<Sample>, fifo: seq<Sample>, authority: string, q: EdgeQuery)
    requires Arrivals(fifo) && VectorOf(v, fifo, authority, false)
    ensures var k := PartitionPoint(v, (s: Sample) => s.observedAtUs < q.atUs);
            FindFirst(v[k..], (s: Sample) => Eligible(s, q)) == EarliestFrom(fifo, authority, q)
  {
    var k := PartitionPoint(v, (s: Sample) => s.observedAtUs < q.atUs);
    var f, r := FindFirst(v[k..], (s: Sample) => Eligible(s, q)), EarliestFrom(fifo, authority, q);
    SliceFrom(v, q.atUs);
    FindFirstIsLeast(v[k..], (s: Sample) => Eligible(s, q));
    hide Before, Sorted, Arrivals, Eligible, FindFirst, Earliest;
    if f.Some? && r.Some? {
      Unordered(fifo, f.value, r.value);
    }
  }

  /** One authority's indexed answer: the static vector's last sample, or the search in the dynamic vector. */
  function IndexedAuthority(key: EdgeKey, authority: string, fixed: seq<Sample>, dynamic: seq<Sample>,
                            q: EdgeQuery, slerp: Slerp): Option<ResolvedEdge>
    requires Sorted(dynamic)
  {
    if fixed != [] then
      var latest := fixed[|fixed| - 1];
      if GraphUsable(latest, q.nowUs) then Some(FromSample(key, authority, latest, 0)) else None
    else
      ResolveAuthoritySamples(key, authority, dynamic, q, slerp)
  }

  lemma IndexAgreesWithScan(key: EdgeKey, authority: string, fixed: seq<Sample>, dynamic: seq<Sample>,
                            fifo: seq<Sample>, q: EdgeQuery, slerp: Slerp)
    requires Arrivals(fifo)
    requires VectorOf(fixed, fifo, authority, true) && VectorOf(dynamic, fifo, authority, false)
    ensures IndexedAuthority(key, authority, fixed, dynamic, q, slerp) == ScanAuthority(key, fifo, authority, q, slerp)
  {
    LastIsLatest(fixed, fifo, authority);
    FoundBefore(dynamic, fifo, authority, q);
    FoundAfter(dynamic, fifo, authority, q);
  }

  function AuthoritiesOf(candidates: seq<ResolvedEdge>): set<string> {
    set i | 0 <= i < |candidates| :: candidates[i].authority
  }

  /** The candidates are the answers of the speaking authorities among `heard`, one each. */
  ghost predicate Collected(key: EdgeKey, fifo: seq<Sample>, candidates: seq<ResolvedEdge>, heard: set<string>,
                            q: EdgeQuery, slerp: Slerp)
  {
    && (forall i :: 0 <= i < |candidates| ==>
          && candidates[i].authority in heard
          && ScanAuthority(key, fifo, candidates[i].authority, q, slerp) == Some(candidates[i]))
    && (forall i, j :: 0 <= i < j < |candidates| ==> candidates[i].authority != candidates[j].authority)
    && (forall a :: a in heard && ScanAuthority(key, fifo, a, q, slerp).Some? ==>
          exists i :: 0 <= i < |candidates| && candidates[i].authority == a)
  }

  lemma CollectOne(key: EdgeKey, fifo: seq<Sample>, candidates: seq<ResolvedEdge>, heard: set<string>,
                   authority: string, q: EdgeQuery, slerp: Slerp)
    requires Collected(key, fifo, candidates, heard, q, slerp) && authority !in heard
    ensures var answer := ScanAuthority(key, fifo, authority, q, slerp);
            Collected(key, fifo, if answer.Some? then candidates + [answer.value] else candidates,
                      heard + {authority}, q, slerp)
  {
    var answer := ScanAuthority(key, fifo, authority, q, slerp);
    ScanNamesAuthority(key, fifo, authority, q, slerp);
    hide ScanAuthority;
    var after := if answer.Some? then candidates + [answer.value] else candidates;
    forall a | a in heard + {authority} && ScanAuthority(key, fifo, a, q, slerp).Some?
      ensures exists i :: 0 <= i < |after| && after[i].authority == a
    {
      if a == authority {
        assert after[|candidates|].authority == a;
      } else {
        var i :| 0 <= i < |candidates| && candidates[i].authority == a;
        assert after[i].authority == a;
      }
    }
  }

  lemma ScanNamesAuthority(key: EdgeKey, fifo: seq<Sample>, authority: string, q: EdgeQuery, slerp: Slerp)
    ensures var answer := ScanAuthority(key, fifo, authority, q, slerp);
            answer.Some? ==> answer.value.authority == authority && answer.value.key == key
  {
  }

  /** `resolve_edge`: one pass over the indexed authorities; the scan of the retained samples is what it computes. */
  method ResolveEdge(key: EdgeKey, history: TransformEdgeHistory, q: EdgeQuery, slerp: Slerp)
    returns (outcome: EdgeOutcome)
    requires history.Valid()
    ensures outcome == ScanEdge(key, history.insertionOrder, q, slerp)
  {
    hide Collected, ScanAuthority, IndexedAuthority;
    var candidates: seq<ResolvedEdge> := [];
    var pending := history.authorities.Keys;
    ghost var fifo, all := history.insertionOrder, history.authorities.Keys;
    CollectNone(key, fifo, q, slerp);
    assert all - pending == {};
    while pending != {}
      invariant pending <= all
      invariant Collected(key, fifo, candidates, all - pending, q, slerp)
    {
      var authority :| authority in pending;
      CollectOne(key, fifo, candidates, all - pending, authority, q, slerp);
      assert all - (pending - {authority}) == (all - pending) + {authority};
      pending := pending - {authority};
      var candidate := ResolveAuthority(key, history.authorities[authority], authority, q, slerp, fifo);
      if candidate.Some? {
        candidates := candidates + [candidate.value];
      }
    }
    assert all - pending == all;
    CandidatesAreSpeaking(key, fifo, candidates, all, q, slerp);
    if |candidates| > 1 {
      outcome := Conflicting(AuthoritiesOf(candidates));
    } else if candidates == [] {
      outcome := Unambiguous(None);
    } else {
      outcome := Unambiguous(Some(candidates[0]));
    }
  }

  lemma CollectNone(key: EdgeKey, fifo: seq<Sample>, q: EdgeQuery, slerp: Slerp)
    ensures Collected(key, fifo, [], {}, q, slerp)
  {
  }

  // The body of that pass for one authority.
  method ResolveAuthority(key: EdgeKey, samples: TransformAuthorityHistory, authority: string, q: EdgeQuery,
                          slerp: Slerp, ghost fifo: seq<Sample>)
    returns (candidate: Option<ResolvedEdge>)
    requires Arrivals(fifo) && samples.Indexes(fifo, authority)
    ensures candidate == ScanAuthority(key, fifo, authority, q, slerp)
  {
    IndexAgreesWithScan(key, authority, samples.staticSamples, samples.dynamicSamples, fifo, q, slerp);
    if samples.staticSamples != [] {
      var latest := samples.staticSamples[|samples.staticSamples| - 1];
      if !GraphUsable(latest, q.nowUs) {
        return None;
      }
      return Some(FromSample(key, authority, latest, 0));
    }
    candidate := ResolveAuthoritySamples(key, authority, samples.dynamicSamples, q, slerp);
  }

  lemma CandidatesAreSpeaking(key: EdgeKey, fifo: seq<Sample>, candidates: seq<ResolvedEdge>, keys: set<string>,
                              q: EdgeQuery, slerp: Slerp)
    requires forall a :: a in keys <==> exists s :: s in fifo && s.authority == a
    requires Collected(key, fifo, candidates, keys, q, slerp)
    ensures Speaking(key, fifo, q, slerp) == AuthoritiesOf(candidates)
    ensures |Speaking(key, fifo, q, slerp)| == |candidates|
    ensures |candidates| == 1 ==>
        ScanAuthority(key, fifo, candidates[0].authority, q, slerp) == Some(candidates[0])
  {
    hide ScanAuthority;
    DistinctCount(candidates);
  }

  lemma {:induction false} DistinctCount(candidates: seq<ResolvedEdge>)
    requires forall i, j :: 0 <= i < j < |candidates| ==> candidates[i].authority != candidates[j].authority
    ensures |AuthoritiesOf(candidates)| == |candidates|
  {
    if candidates != [] {
      var n := |candidates| - 1;
      DistinctCount(candidates[..n]);
      AddAuthority(candidates[..n], candidates[n]);
      assert candidates == candidates[..n] + [candidates[n]];
    }
  }

  lemma AddAuthority(candidates: seq<ResolvedEdge>, e: ResolvedEdge)
    ensures AuthoritiesOf(candidates + [e]) == AuthoritiesOf(candidates) + {e.authority}
  {
    forall a
      ensures a in AuthoritiesOf(candidates + [e]) <==> a in AuthoritiesOf(candidates) + {e.authority}
    {
      assert (candidates + [e])[|candidates|] == e;
      if i :| 0 <= i < |candidates| && candidates[i].authority == a {
        assert (candidates + [e])[i].authority == a;
      }
    }
  }

  // ----- what the scan, and so the index, answers

  /** The latest static sample of an authority is its whole answer: usable it is returned, revoked it silences
      every older static and every dynamic sample. */
  lemma LatestStaticDecides(key: EdgeKey, fifo: seq<Sample>, s: Sample, q: EdgeQuery, slerp: Slerp)
    requires Arrivals(fifo) && s in fifo && s.isStatic
    requires forall t :: t in fifo && IsStaticOf(t, s.authority) ==> t == s || Before(t, s)
    ensures ScanAuthority(key, fifo, s.authority, q, slerp)
            == if GraphUsable(s, q.nowUs) then Some(FromSample(key, s.authority, s, 0)) else None
  {
    var r := LatestStatic(fifo, s.authority);
    assert IsStaticOf(s, s.authority);
    Unordered(fifo, r.value, s);
  }

  ghost predicate HasStatic(fifo: seq<Sample>, authority: string) {
    exists s :: s in fifo && IsStaticOf(s, authority)
  }

  /** Neighbours among the candidates, on either side of the query time. */
  ghost predicate Brackets(fifo: seq<Sample>, authority: string, q: EdgeQuery, left: Sample, right: Sample) {
    && left in fifo && IsCandidate(left, authority, q)
    && right in fifo && IsCandidate(right, authority, q)
    && left.observedAtUs < q.atUs < right.observedAtUs
    && forall s :: s in fifo && IsCandidate(s, authority, q)
                   ==> s == left || s == right || Before(s, left) || Before(right, s)
  }

  lemma BracketsAreFound(fifo: seq<Sample>, authority: string, q: EdgeQuery, left: Sample, right: Sample)
    requires Arrivals(fifo) && Brackets(fifo, authority, q, left, right)
    ensures LatestUpTo(fifo, authority, q) == Some(left) && EarliestFrom(fifo, authority, q) == Some(right)
  {
    var before, after := LatestUpTo(fifo, authority, q), EarliestFrom(fifo, authority, q);
    Unordered(fifo, before.value, left);
    Unordered(fifo, after.value, right);
  }

  /** Interpolation happens exactly between adjacent candidates of one epoch strictly around the query time, for
      an authority without static samples. */
  lemma InterpolationIsBracketed(key: EdgeKey, fifo: seq<Sample>, authority: string, q: EdgeQuery, slerp: Slerp)
    requires Arrivals(fifo)
    ensures var r := ScanAuthority(key, fifo, authority, q, slerp);
            r.Some? && r.value.interpolated
            <==> !HasStatic(fifo, authority) && exists left, right ::
                Brackets(fifo, authority, q, left, right) && left.sessionEpoch == right.sessionEpoch
    ensures forall left, right ::
        (!HasStatic(fifo, authority) && Brackets(fifo, authority, q, left, right)
         && left.sessionEpoch == right.sessionEpoch)
        ==> ScanAuthority(key, fifo, authority, q, slerp)
            == Some(Interpolated(key, authority, left, right, q.atUs, slerp))
  {
    var r := ScanAuthority(key, fifo, authority, q, slerp);
    if r.Some? && r.value.interpolated {
      var before, after := LatestUpTo(fifo, authority, q), EarliestFrom(fifo, authority, q);
      var left, right := before.value, after.value;
      NeighboursBracket(fifo, authority, q, left, right);
      assert Brackets(fifo, authority, q, left, right);
    }
    forall left, right | !HasStatic(fifo, authority) && Brackets(fifo, authority, q, left, right)
                         && left.sessionEpoch == right.sessionEpoch
      ensures ScanAuthority(key, fifo, authority, q, slerp)
              == Some(Interpolated(key, authority, left, right, q.atUs, slerp))
    {
      BracketsAreFound(fifo, authority, q, left, right);
    }
  }

  lemma NeighboursBracket(fifo: seq<Sample>, authority: string, q: EdgeQuery, left: Sample, right: Sample)
    requires Arrivals(fifo) && left.observedAtUs != right.observedAtUs
    requires LatestUpTo(fifo, authority, q) == Some(left) && EarliestFrom(fifo, authority, q) == Some(right)
    ensures Brackets(fifo, authority, q, left, right)
  {
    forall s | s in fifo && IsCandidate(s, authority, q)
      ensures s == left || s == right || Before(s, left) || Before(right, s)
    {
      if s.observedAtUs <= q.atUs {
        if !Before(s, left) {
          Unordered(fifo, s, left);
        }
      } else if !Before(right, s) {
        Unordered(fifo, s, right);
      }
    }
  }

  /** A candidate at exactly the query time answers, and of several the last inserted one. */
  lemma ExactHit(key: EdgeKey, fifo: seq<Sample>, s: Sample, q: EdgeQuery, slerp: Slerp)
    requires Arrivals(fifo) && !HasStatic(fifo, s.authority)
    requires s in fifo && IsCandidate(s, s.authority, q) && s.observedAtUs == q.atUs
    requires forall t :: t in fifo && IsCandidate(t, s.authority, q) && t.observedAtUs == q.atUs
                         ==> t.insertionId <= s.insertionId
    ensures ScanAuthority(key, fifo, s.authority, q, slerp) == Some(FromSample(key, s.authority, s, 0))
  {
    var before, after := LatestUpTo(fifo, s.authority, q), EarliestFrom(fifo, s.authority, q);
    Unordered(fifo, before.value, s);
    assert after.value.observedAtUs == q.atUs;
  }

  // ----- what the answer says, in terms of the samples

  /** `x` is where a point moving evenly from `left` at time `from` to `right` at time `to` is at time `at`. */
  predicate IsOnTheWay(from: nat, left: real, to: nat, right: real, at: nat, x: real) {
    (to - from) as real * (x - left) == (at - from) as real * (right - left)
  }

  /** The rotation is the one asked of `slerp` for the part of the way, from the left sample to the right one, that is
      covered at time `at`. */
  ghost predicate IsTurned(from: nat, left: UnitQuat, to: nat, right: UnitQuat, at: nat, slerp: Slerp, r: UnitQuat) {
    exists part: real :: 0.0 < part < 1.0 && part * (to - from) as real == (at - from) as real
        && r == slerp(left, right, part)
  }

  /** Between two bracketing samples the answer is the pose on the way from the earlier to the later at the query time,
      and names the later sample's origin. */
  lemma InterpolatedPose(key: EdgeKey, fifo: seq<Sample>, authority: string, q: EdgeQuery, slerp: Slerp, left: Sample,
                         right: Sample)
    requires Arrivals(fifo) && !HasStatic(fifo, authority) && Brackets(fifo, authority, q, left, right)
    requires left.sessionEpoch == right.sessionEpoch
    ensures var answer := ScanAuthority(key, fifo, authority, q, slerp);
      && answer.Some?
      && var (e, a, b) := (answer.value, left.pose, right.pose);
         && IsOnTheWay(left.observedAtUs, a.translation.x, right.observedAtUs, b.translation.x, q.atUs,
                       e.parentFromChild.translation.x)
         && IsOnTheWay(left.observedAtUs, a.translation.y, right.observedAtUs, b.translation.y, q.atUs,
                       e.parentFromChild.translation.y)
         && IsOnTheWay(left.observedAtUs, a.translation.z, right.observedAtUs, b.translation.z, q.atUs,
                       e.parentFromChild.translation.z)
         && IsTurned(left.observedAtUs, a.rotation, right.observedAtUs, b.rotation, q.atUs, slerp,
                     e.parentFromChild.rotation)
         && e == ResolvedEdge(key, e.parentFromChild, authority, right.providerId, right.providerInstanceId, q.atUs,
                              true, 0, right.sessionEpoch, right.calibrationRevision)
  {
    hide ScanAuthority, IsOnTheWay, Lerp, IsTurned;
    InterpolationIsBracketed(key, fifo, authority, q, slerp);
    var from, to, a, b := left.observedAtUs, right.observedAtUs, left.pose, right.pose;
    OnTheWay(from, a.translation.x, to, b.translation.x, q.atUs);
    OnTheWay(from, a.translation.y, to, b.translation.y, q.atUs);
    OnTheWay(from, a.translation.z, to, b.translation.z, q.atUs);
    Turned(from, a.rotation, to, b.rotation, q.atUs, slerp);
  }

  lemma OnTheWay(from: nat, left: real, to: nat, right: real, at: nat)
    requires from < at < to
    ensures IsOnTheWay(from, left, to, right, at, Lerp(left, right, (at - from) as real / (to - from) as real))
  {
    var span, part := (to - from) as real, (at - from) as real;
    var alpha := part / span;
    assert span * alpha == part;
    assert span * ((right - left) * alpha) == (span * alpha) * (right - left);
  }

  lemma Turned(from: nat, left: UnitQuat, to: nat, right: UnitQuat, at: nat, slerp: Slerp)
    requires from < at < to
    ensures IsTurned(from, left, to, right, at, slerp, slerp(left, right, (at - from) as real / (to - from) as real))
  {
    var alpha := (at - from) as real / (to - from) as real;
    assert alpha * (to - from) as real == (at - from) as real;
    assert 0.0 < alpha < 1.0;
  }

  /** A frame that moves evenly is answered where it is: two samples of the motion, the query between them. */
  lemma EvenMotionIsFollowed(key: EdgeKey, fifo: seq<Sample>, authority: string, q: EdgeQuery, slerp: Slerp,
                             left: Sample, right: Sample, start: Vec3, velocity: Vec3)
    requires Arrivals(fifo) && !HasStatic(fifo, authority) && Brackets(fifo, authority, q, left, right)
    requires left.sessionEpoch == right.sessionEpoch
    requires left.pose.translation == Moving(start, velocity, left.observedAtUs)
    requires right.pose.translation == Moving(start, velocity, right.observedAtUs)
    ensures var answer := ScanAuthority(key, fifo, authority, q, slerp);
      answer.Some? && answer.value.parentFromChild.translation == Moving(start, velocity, q.atUs)
  {
    hide ScanAuthority, Brackets, IsOnTheWay, IsTurned, HasStatic;
    InterpolatedPose(key, fifo, authority, q, slerp, left, right);
    BracketTimes(fifo, authority, q, left, right);
    var t := ScanAuthority(key, fifo, authority, q, slerp).value.parentFromChild.translation;
    MovingAxes(start, velocity, left.observedAtUs);
    MovingAxes(start, velocity, right.observedAtUs);
    hide Moving;
    var a, b := left.pose.translation, right.pose.translation;
    EvenOnAxis(left.observedAtUs, a.x, right.observedAtUs, b.x, q.atUs, start.x, velocity.x, t.x);
    EvenOnAxis(left.observedAtUs, a.y, right.observedAtUs, b.y, q.atUs, start.y, velocity.y, t.y);
    EvenOnAxis(left.observedAtUs, a.z, right.observedAtUs, b.z, q.atUs, start.z, velocity.z, t.z);
  }

  function Moving(start: Vec3, velocity: Vec3, t: nat): Vec3 {
    Vec3(start.x + velocity.x * t as real, start.y + velocity.y * t as real, start.z + velocity.z * t as real)
  }

  lemma MovingAxes(start: Vec3, velocity: Vec3, t: nat)
    ensures Moving(start, velocity, t).x == start.x + velocity.x * t as real
    ensures Moving(start, velocity, t).y == start.y + velocity.y * t as real
    ensures Moving(start, velocity, t).z == start.z + velocity.z * t as real
  {
  }

  lemma BracketTimes(fifo: seq<Sample>, authority: string, q: EdgeQuery, left: Sample, right: Sample)
    requires Brackets(fifo, authority, q, left, right)
    ensures left.observedAtUs < q.atUs < right.observedAtUs
  {
  }

  lemma EvenOnAxis(from: nat, left: real, to: nat, right: real, at: nat, start: real, velocity: real, x: real)
    requires from < at < to && IsOnTheWay(from, left, to, right, at, x)
    requires left == start + velocity * from as real && right == start + velocity * to as real
    ensures x == start + velocity * at as real
  {
    var span, part := (to - from) as real, (at - from) as real;
    assert right - left == velocity * span;
    assert span * (x - left) == part * (velocity * span) == span * (velocity * part);
    SameFactor(span, x - left, velocity * part);
  }

  lemma SameFactor(a: real, x: real, y: real)
    requires a != 0.0 && a * x == a * y
    ensures x == y
  {
    assert a * (x - y) == 0.0;
  }

  /** The sample's own account of itself: not marked invalid, not expired, not kept from motion, not under review. */
  predicate Stands(s: Sample, nowUs: nat) {
    && (s.valid.Some? ==> s.valid.value) && (s.motionUsable.Some? ==> s.motionUsable.value) && !s.reviewRequired
    && (s.expiresAtUs.Some? ==> nowUs <= s.expiresAtUs.value)
  }

  predicate IsOfSession(s: Sample, q: EdgeQuery) {
    q.sessionEpoch == None || s.sessionEpoch == q.sessionEpoch
  }

  function TimeApart(a: nat, b: nat): nat {
    if a < b then b - a else a - b
  }

  /** One sample alone is answered exactly when it stands and, if it moves, is of the session asked for and no further
      from the query time than the caller allows; and then it is answered as it is. */
  lemma LoneSample(key: EdgeKey, s: Sample, q: EdgeQuery, slerp: Slerp)
    ensures var answer := ScanAuthority(key, [s], s.authority, q, slerp);
      && (answer.Some? <==>
            Stands(s, q.nowUs)
            && (s.isStatic || (IsOfSession(s, q) && TimeApart(s.observedAtUs, q.atUs) <= q.maxExtrapolationUs)))
      && (answer.Some? ==>
            answer.value == ResolvedEdge(key, s.pose, s.authority, s.providerId, s.providerInstanceId, s.observedAtUs,
                                         false, if s.isStatic then 0 else TimeApart(s.observedAtUs, q.atUs),
                                         s.sessionEpoch, s.calibrationRevision))
  {
    LoneIsFound(s, q);
    hide Latest, Earliest, LatestStatic, LatestUpTo, EarliestFrom;
  }

  lemma LoneIsFound(s: Sample, q: EdgeQuery)
    ensures LatestStatic([s], s.authority) == if s.isStatic then Some(s) else None
    ensures var stands := !s.isStatic && Stands(s, q.nowUs) && IsOfSession(s, q);
      && LatestUpTo([s], s.authority, q) == (if stands && s.observedAtUs <= q.atUs then Some(s) else None)
      && EarliestFrom([s], s.authority, q) == (if stands && q.atUs <= s.observedAtUs then Some(s) else None)
  {
    assert s in [s] && [s][..0] == [];
    assert IsCandidate(s, s.authority, q) <==> !s.isStatic && Stands(s, q.nowUs) && IsOfSession(s, q);
  }

  /** The answer is the one sample as it is, within the reach the caller allows, or lies between two of the session
      asked for; and the samples stand. */
  ghost predicate ComesFrom(e: ResolvedEdge, fifo: seq<Sample>, authority: string, q: EdgeQuery, left: Sample,
                            right: Sample)
  {
    && left in fifo && left.authority == authority && Stands(left, q.nowUs)
    && right in fifo && right.authority == authority && Stands(right, q.nowUs)
    && if e.interpolated
       then
         && left.observedAtUs < q.atUs < right.observedAtUs && left.sessionEpoch == right.sessionEpoch
         && IsOfSession(left, q) && !left.isStatic && !right.isStatic
       else
         && left == right && e.parentFromChild == right.pose && e.observedAtUs == right.observedAtUs
         && (!right.isStatic ==>
               && IsOfSession(right, q)
               && e.extrapolatedByUs == TimeApart(right.observedAtUs, q.atUs) <= q.maxExtrapolationUs)
  }

  /** Whatever is answered for an authority comes from its samples that stand. */
  lemma AnswersComeFromSamples(key: EdgeKey, fifo: seq<Sample>, authority: string, q: EdgeQuery, slerp: Slerp)
    returns (left: Sample, right: Sample)
    requires ScanAuthority(key, fifo, authority, q, slerp).Some?
    ensures ComesFrom(ScanAuthority(key, fifo, authority, q, slerp).value, fifo, authority, q, left, right)
  {
    hide Latest, Earliest;
    var fixed, before, after :=
      LatestStatic(fifo, authority), LatestUpTo(fifo, authority, q), EarliestFrom(fifo, authority, q);
    if fixed.Some? {
      left, right := fixed.value, fixed.value;
    } else if before.Some? && after.Some? && before.value.observedAtUs != after.value.observedAtUs
              && before.value.sessionEpoch == after.value.sessionEpoch {
      left, right := before.value, after.value;
    } else {
      left := if before.Some? then before.value else after.value;
      right := left;
    }
  }

  lemma CandidateIff(s: Sample, authority: string, q: EdgeQuery)
    ensures IsCandidate(s, authority, q) <==>
      s.authority == authority && !s.isStatic && Stands(s, q.nowUs) && IsOfSession(s, q)
  {
  }

  /** The last of the authority's candidates up to the query time. */
  ghost predicate IsLastBefore(fifo: seq<Sample>, authority: string, q: EdgeQuery, s: Sample) {
    && s in fifo && IsCandidate(s, authority, q) && s.observedAtUs <= q.atUs
    && forall t :: t in fifo && IsCandidate(t, authority, q) && t.observedAtUs <= q.atUs ==> t == s || Before(t, s)
  }

  ghost predicate IsFirstAfter(fifo: seq<Sample>, authority: string, q: EdgeQuery, s: Sample) {
    && s in fifo && IsCandidate(s, authority, q) && s.observedAtUs >= q.atUs
    && forall t :: t in fifo && IsCandidate(t, authority, q) && t.observedAtUs >= q.atUs ==> t == s || Before(s, t)
  }

  ghost predicate IsBracketed(fifo: seq<Sample>, authority: string, q: EdgeQuery) {
    exists left, right :: Brackets(fifo, authority, q, left, right) && left.sessionEpoch == right.sessionEpoch
  }

  /** The sample itself, if the caller allows to go that far from it. */
  function AsItIs(key: EdgeKey, authority: string, s: Sample, q: EdgeQuery): Option<ResolvedEdge> {
    var apart := TimeApart(s.observedAtUs, q.atUs);
    if apart <= q.maxExtrapolationUs then
      Some(ResolvedEdge(key, s.pose, authority, s.providerId, s.providerInstanceId, s.observedAtUs, false, apart,
                        s.sessionEpoch, s.calibrationRevision))
    else None
  }

  /** An authority that moves and has no two samples to interpolate is answered with its last candidate up to the query
      time, and only when there is none with its first after it. */
  lemma WithoutBracket(key: EdgeKey, fifo: seq<Sample>, authority: string, q: EdgeQuery, slerp: Slerp, s: Sample)
    requires Arrivals(fifo) && !HasStatic(fifo, authority) && !IsBracketed(fifo, authority, q)
    requires || IsLastBefore(fifo, authority, q, s)
             || (IsFirstAfter(fifo, authority, q, s)
                 && forall t :: t in fifo && t.observedAtUs <= q.atUs ==> !IsCandidate(t, authority, q))
    ensures ScanAuthority(key, fifo, authority, q, slerp) == AsItIs(key, authority, s, q)
  {
    hide Eligible;
    var before, after := LatestUpTo(fifo, authority, q), EarliestFrom(fifo, authority, q);
    if before.Some? {
      assert IsCandidate(before.value, authority, q) && before.value.observedAtUs <= q.atUs;
      assert IsLastBefore(fifo, authority, q, s);
      Unordered(fifo, before.value, s);
      if after.Some? && s.observedAtUs != after.value.observedAtUs {
        NeighboursBracket(fifo, authority, q, s, after.value);
      }
    } else {
      assert IsFirstAfter(fifo, authority, q, s);
      Unordered(fifo, after.value, s);
    }
  }

  lemma NoCandidate(key: EdgeKey, fifo: seq<Sample>, authority: string, q: EdgeQuery, slerp: Slerp)
    requires !HasStatic(fifo, authority) && forall t :: t in fifo ==> !IsCandidate(t, authority, q)
    ensures ScanAuthority(key, fifo, authority, q, slerp) == None
  {
    hide Eligible;
  }

  // ----- several authorities

  /** The samples of one authority. */
  function Own(fifo: seq<Sample>, authority: string): seq<Sample> {
    if fifo == [] then []
    else
      var s := fifo[|fifo| - 1];
      Own(fifo[..|fifo| - 1], authority) + if s.authority == authority then [s] else []
  }

  lemma {:induction false} OwnAre(fifo: seq<Sample>, authority: string)
    ensures forall s :: s in Own(fifo, authority) <==> s in fifo && s.authority == authority
  {
    if fifo != [] {
      OwnAre(fifo[..|fifo| - 1], authority);
    }
  }

  lemma OwnStep(fifo: seq<Sample>, authority: string)
    requires fifo != []
    ensures var n := |fifo| - 1;
      Own(fifo, authority) ==
      if fifo[n].authority == authority then Own(fifo[..n], authority) + [fifo[n]] else Own(fifo[..n], authority)
  {
  }

  lemma LatestStep(fifo: seq<Sample>, s: Sample, p: Sample -> bool)
    ensures var r := Latest(fifo, p);
      Latest(fifo + [s], p) == if p(s) && (r.None? || Before(r.value, s)) then Some(s) else r
    ensures var r := Earliest(fifo, p);
      Earliest(fifo + [s], p) == if p(s) && (r.None? || Before(s, r.value)) then Some(s) else r
  {
    assert (fifo + [s])[..|fifo|] == fifo;
  }

  lemma {:induction false} LatestOfOwn(fifo: seq<Sample>, authority: string, p: Sample -> bool)
    requires forall s :: s in fifo && p(s) ==> s.authority == authority
    ensures Latest(Own(fifo, authority), p) == Latest(fifo, p)
    ensures Earliest(Own(fifo, authority), p) == Earliest(fifo, p)
  {
    hide *;
    if fifo == [] {
      NothingOwn(authority);
    } else {
      var n := |fifo| - 1;
      assert fifo == fifo[..n] + [fifo[n]];
      LatestOfOwn(fifo[..n], authority, p);
      OwnStep(fifo, authority);
      LatestStep(fifo[..n], fifo[n], p);
      LatestStep(Own(fifo[..n], authority), fifo[n], p);
    }
  }

  lemma NothingOwn(authority: string)
    ensures Own([], authority) == []
  {
  }

  /** What an authority says depends on its own samples only. */
  lemma SpeaksForItself(key: EdgeKey, fifo: seq<Sample>, authority: string, q: EdgeQuery, slerp: Slerp)
    ensures ScanAuthority(key, Own(fifo, authority), authority, q, slerp) ==
            ScanAuthority(key, fifo, authority, q, slerp)
  {
    hide Latest, Earliest, Eligible, Decide;
    LatestOfOwn(fifo, authority, (s: Sample) => IsStaticOf(s, authority));
    LatestOfOwn(fifo, authority, (s: Sample) => IsCandidate(s, authority, q) && s.observedAtUs <= q.atUs);
    LatestOfOwn(fifo, authority, (s: Sample) => IsCandidate(s, authority, q) && q.atUs <= s.observedAtUs);
  }

  /** The edge with the authority's samples alone. */
  ghost function Alone(key: EdgeKey, fifo: seq<Sample>, authority: string, q: EdgeQuery, slerp: Slerp): EdgeOutcome {
    ScanEdge(key, Own(fifo, authority), q, slerp)
  }

  lemma AloneIs(key: EdgeKey, fifo: seq<Sample>, authority: string, q: EdgeQuery, slerp: Slerp)
    ensures Alone(key, fifo, authority, q, slerp) ==
            Unambiguous(ScanAuthority(key, fifo, authority, q, slerp))
  {
    OwnAre(fifo, authority);
    SpeaksForItself(key, fifo, authority, q, slerp);
    NeedsSamples(key, Own(fifo, authority), authority, q, slerp);
    hide ScanAuthority, Own;
    var speaking := Speaking(key, Own(fifo, authority), q, slerp);
    if ScanAuthority(key, fifo, authority, q, slerp).Some? {
      assert speaking == {authority};
    } else {
      assert speaking == {};
    }
  }

  lemma NeedsSamples(key: EdgeKey, fifo: seq<Sample>, authority: string, q: EdgeQuery, slerp: Slerp)
    ensures ScanAuthority(key, fifo, authority, q, slerp).Some? ==> exists s :: s in fifo && s.authority == authority
  {
    hide Eligible;
  }

  /** An edge conflicts exactly when two authorities would each answer it alone, and names all that would; one that only
      one would answer is answered so; and one that none would is left out. */
  lemma EdgeOfAuthorities(key: EdgeKey, fifo: seq<Sample>, q: EdgeQuery, slerp: Slerp)
    ensures match ScanEdge(key, fifo, q, slerp)
      case Conflicting(authorities) =>
        && (exists a, b :: a in authorities && b in authorities && a != b)
        && forall a :: a in authorities <==> Alone(key, fifo, a, q, slerp) != Unambiguous(None)
      case Unambiguous(Some(e)) =>
        && Alone(key, fifo, e.authority, q, slerp) == Unambiguous(Some(e))
        && forall a :: a != e.authority ==> Alone(key, fifo, a, q, slerp) == Unambiguous(None)
      case Unambiguous(None) => forall a :: Alone(key, fifo, a, q, slerp) == Unambiguous(None)
  {
    hide ScanAuthority, Alone;
    forall a
      ensures Alone(key, fifo, a, q, slerp) == Unambiguous(ScanAuthority(key, fifo, a, q, slerp))
      ensures a in Speaking(key, fifo, q, slerp) <==> ScanAuthority(key, fifo, a, q, slerp).Some?
      ensures ScanAuthority(key, fifo, a, q, slerp).Some? ==>
        ScanAuthority(key, fifo, a, q, slerp).value.authority == a
    {
      AloneIs(key, fifo, a, q, slerp);
      NeedsSamples(key, fifo, a, q, slerp);
      ScanNamesAuthority(key, fifo, a, q, slerp);
    }
    var speaking := Speaking(key, fifo, q, slerp);
    if |speaking| > 1 {
      TwoOf(speaking);
    } else if speaking != {} {
      var a :| a in speaking;
      OnlyOne(speaking, a);
    }
  }

  lemma TwoOf(s: set<string>)
    requires |s| > 1
    ensures exists a, b :: a in s && b in s && a != b
  {
    var a :| a in s;
    assert |s - {a}| > 0;
    var b :| b in s - {a};
  }

  lemma OnlyOne(s: set<string>, a: string)
    requires |s| == 1 && a in s
    ensures s == {a}
  {
    assert |s - {a}| == 0;
  }

  /** What an edge holds after inserting `samples` one by one under the bound `cap`. */
  function RetainAll(samples: seq<Sample>, cap: nat): seq<Sample> {
    if samples == [] then []
    else LastN(RetainAll(samples[..|samples| - 1], cap) + [samples[|samples| - 1]], cap)
  }

  /** It is the last min(n, cap) of them: evictions never reach past the bound. */
  lemma {:induction false} RetainsLastInserted(samples: seq<Sample>, cap: nat)
    ensures RetainAll(samples, cap) == LastN(samples, cap)
  {
    if samples != [] {
      RetainsLastInserted(samples[..|samples| - 1], cap);
      assert samples == samples[..|samples| - 1] + [samples[|samples| - 1]];
    }
  }
}
