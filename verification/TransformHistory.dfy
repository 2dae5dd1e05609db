/** One edge of the World State Fabric's transform graph: the bounded FIFO of samples and the sorted index kept
    per authority beside it. */
module TransformHistory {
  import opened Common
  import opened RigidTransforms

  /** A stored transform.  `reviewRequired` is `review_state == "CANDIDATE_REVIEW_REQUIRED"`. */
  datatype Sample = Sample(
    insertionId: nat,
    observedAtUs: nat, authority: string,
    isStatic: bool, sessionEpoch: Option<string>,
    calibrationRevision: Option<string>, providerId: string,
    providerInstanceId: string, valid: Option<bool>,
    expiresAtUs: Option<nat>, motionUsable: Option<bool>,
    reviewRequired: bool, pose: Rigid)

  datatype EdgeKey = EdgeKey(parentFrame: string, childFrame: string)

  // ----- order and search over samples

  predicate Before(a: Sample, b: Sample) {
    a.observedAtUs < b.observedAtUs || (a.observedAtUs == b.observedAtUs && a.insertionId < b.insertionId)
  }

  ghost predicate Sorted(v: seq<Sample>) {
    forall i, j :: 0 <= i < j < |v| ==> Before(v[i], v[j])
  }

  ghost predicate Arrivals(fifo: seq<Sample>) {
    forall i, j :: 0 <= i < j < |fifo| ==> fifo[i].insertionId < fifo[j].insertionId
  }

  /** The library's `partition_point`: the length of the leading run satisfying `p`. */
  function PartitionPoint(v: seq<Sample>, p: Sample -> bool): (k: nat)
    ensures k <= |v|
    ensures forall i :: 0 <= i < k ==> p(v[i])
    ensures k < |v| ==> !p(v[k])
  {
    if v == [] || !p(v[0]) then 0 else 1 + PartitionPoint(v[1..], p)
  }

  // ----- the index of one authority

  class TransformAuthorityHistory {
    var staticSamples: seq<Sample>
    var dynamicSamples: seq<Sample>

    constructor ()
      ensures staticSamples == [] && dynamicSamples == []
    {
      staticSamples, dynamicSamples := [], [];
    }

    predicate IsEmpty()
      reads this
    {
      staticSamples == [] && dynamicSamples == []
    }

    ghost predicate Indexes(fifo: seq<Sample>, authority: string)
      reads this
    {
      && VectorOf(staticSamples, fifo, authority, true)
      && VectorOf(dynamicSamples, fifo, authority, false)
    }

    /** Inserts at the partition point, so a sorted vector stays sorted. */
    method Insert(sample: Sample, ghost fifo: seq<Sample>)
      requires Indexes(fifo, sample.authority) && Arrivals(fifo + [sample])
      modifies this
      ensures Indexes(fifo + [sample], sample.authority)
    {
      var samples := if sample.isStatic then staticSamples else dynamicSamples;
      var position := PartitionPoint(samples, current => Before(current, sample));
      InsertKeepsVector(samples, fifo, sample, position);
      samples := samples[..position] + [sample] + samples[position..];
      if sample.isStatic {
        staticSamples := samples;
      } else {
        dynamicSamples := samples;
      }
    }

    /** Removes the sample with this insertion id. */
    method Remove(sample: Sample, ghost fifo: seq<Sample>)
      requires Arrivals([sample] + fifo) && Indexes([sample] + fifo, sample.authority)
      modifies this
      ensures Indexes(fifo, sample.authority)
    {
      var samples := if sample.isStatic then staticSamples else dynamicSamples;
      var position := 0;
      while position < |samples| && samples[position].insertionId != sample.insertionId
        invariant position <= |samples|
        invariant forall i :: 0 <= i < position ==> samples[i].insertionId != sample.insertionId
      {
        position := position + 1;
      }
      assert sample in samples;
      RemoveKeepsVector(samples, fifo, sample, position);
      samples := samples[..position] + samples[position + 1..];
      if sample.isStatic {
        staticSamples := samples;
      } else {
        dynamicSamples := samples;
      }
    }
  }

  /** `v` lists exactly the samples of `fifo` with this authority and kind, in strictly increasing order. */
  ghost predicate VectorOf(v: seq<Sample>, fifo: seq<Sample>, authority: string, isStatic: bool) {
    && Sorted(v)
    && forall s :: s in v <==> s in fifo && s.authority == authority && s.isStatic == isStatic
  }

  lemma InsertKeepsVector(v: seq<Sample>, fifo: seq<Sample>, sample: Sample, k: nat)
    requires VectorOf(v, fifo, sample.authority, sample.isStatic) && Arrivals(fifo + [sample])
    requires k == PartitionPoint(v, current => Before(current, sample))
    ensures VectorOf(v[..k] + [sample] + v[k..], fifo + [sample], sample.authority, sample.isStatic)
  {
    forall i | k <= i < |v|
      ensures Before(sample, v[i])
    {
      assert v[i] in v && v[k] in v;
      OlderId(fifo, sample, v[i]);
      OlderId(fifo, sample, v[k]);
    }
    InsertKeepsSorted(v, sample, k);
    InsertMembers(v, sample, k);
  }

  lemma InsertKeepsSorted(v: seq<Sample>, sample: Sample, k: nat)
    requires Sorted(v) && k <= |v|
    requires forall i :: 0 <= i < k ==> Before(v[i], sample)
    requires forall i :: k <= i < |v| ==> Before(sample, v[i])
    ensures Sorted(v[..k] + [sample] + v[k..])
  {
  }

  lemma InsertMembers(v: seq<Sample>, sample: Sample, k: nat)
    requires k <= |v|
    ensures forall s :: s in v[..k] + [sample] + v[k..] <==> s in v || s == sample
  {
    assert v == v[..k] + v[k..];
  }

  lemma OlderId(fifo: seq<Sample>, sample: Sample, s: Sample)
    requires Arrivals(fifo + [sample]) && s in fifo
    ensures s.insertionId < sample.insertionId
  {
    var i :| 0 <= i < |fifo| && fifo[i] == s;
    assert (fifo + [sample])[i] == s && (fifo + [sample])[|fifo|] == sample;
  }

  lemma SameId(fifo: seq<Sample>, s: Sample, t: Sample)
    requires Arrivals(fifo) && s in fifo && t in fifo && s.insertionId == t.insertionId
    ensures s == t
  {
    var i :| 0 <= i < |fifo| && fifo[i] == s;
    var j :| 0 <= j < |fifo| && fifo[j] == t;
  }

  lemma OccursOnce(v: seq<Sample>, k: nat)
    requires Sorted(v) && k < |v|
    ensures v[k] !in v[..k] + v[k + 1..]
  {
    forall i | 0 <= i < |v| && i != k
      ensures v[i] != v[k]
    {
      assert Before(v[i], v[k]) || Before(v[k], v[i]);
    }
  }

  lemma FirstLeaves(sample: Sample, fifo: seq<Sample>)
    requires Arrivals([sample] + fifo)
    ensures sample !in fifo
  {
    forall i | 0 <= i < |fifo|
      ensures fifo[i] != sample
    {
      assert ([sample] + fifo)[0] == sample && ([sample] + fifo)[i + 1] == fifo[i];
    }
  }

  lemma RemoveKeepsVector(v: seq<Sample>, fifo: seq<Sample>, sample: Sample, k: nat)
    requires VectorOf(v, [sample] + fifo, sample.authority, sample.isStatic) && Arrivals([sample] + fifo)
    requires k < |v| && v[k].insertionId == sample.insertionId
    ensures VectorOf(v[..k] + v[k + 1..], fifo, sample.authority, sample.isStatic)
  {
    assert v[k] in v;
    SameId([sample] + fifo, v[k], sample);
    var w := v[..k] + v[k + 1..];
    OccursOnce(v, k);
    FirstLeaves(sample, fifo);
    forall s
      ensures s in w <==> s in fifo && s.authority == sample.authority && s.isStatic == sample.isStatic
    {
      assert v == v[..k] + [sample] + v[k + 1..];
      assert s in v <==> s in v[..k] || s == sample || s in v[k + 1..];
      assert s in [sample] + fifo <==> s == sample || s in fifo;
    }
  }

  lemma OtherAuthority(v: seq<Sample>, fifo: seq<Sample>, sample: Sample, authority: string, isStatic: bool)
    requires authority != sample.authority
    ensures VectorOf(v, fifo + [sample], authority, isStatic) <==> VectorOf(v, fifo, authority, isStatic)
    ensures VectorOf(v, [sample] + fifo, authority, isStatic) <==> VectorOf(v, fifo, authority, isStatic)
  {
    assert forall s :: s in fifo + [sample] <==> s in fifo || s == sample;
    assert forall s :: s in [sample] + fifo <==> s in fifo || s == sample;
  }

  lemma NewAuthority(fifo: seq<Sample>, authority: string)
    ensures (forall s :: s in fifo ==> s.authority != authority)
            ==> VectorOf([], fifo, authority, true) && VectorOf([], fifo, authority, false)
  {
  }

  lemma TailArrivals(sample: Sample, fifo: seq<Sample>)
    requires Arrivals([sample] + fifo)
    ensures Arrivals(fifo)
    ensures forall s :: s in [sample] + fifo <==> s == sample || s in fifo
  {
    forall i, j | 0 <= i < j < |fifo|
      ensures fifo[i].insertionId < fifo[j].insertionId
    {
      assert ([sample] + fifo)[i + 1] == fifo[i] && ([sample] + fifo)[j + 1] == fifo[j];
    }
  }

  lemma EmptyMeansAbsent(v: seq<Sample>, w: seq<Sample>, fifo: seq<Sample>, authority: string)
    requires VectorOf(v, fifo, authority, true) && VectorOf(w, fifo, authority, false)
    ensures v == [] && w == [] <==> !exists s :: s in fifo && s.authority == authority
  {
    if v != [] {
      assert v[0] in v;
    }
    if w != [] {
      assert w[0] in w;
    }
  }

  lemma AuthoritiesJoined(keys: set<string>, fifo: seq<Sample>, sample: Sample)
    requires forall a :: a in keys <==> exists s :: s in fifo && s.authority == a
    ensures var joined := keys + {sample.authority};
            forall a :: a in joined <==> exists s :: s in fifo + [sample] && s.authority == a
  {
    assert forall s :: s in fifo + [sample] <==> s in fifo || s == sample;
  }

  lemma AuthoritiesLeft(keys: set<string>, evicted: Sample, kept: seq<Sample>, gone: bool)
    requires forall a :: a in keys <==> exists s :: s in [evicted] + kept && s.authority == a
    requires gone <==> !exists s :: s in kept && s.authority == evicted.authority
    ensures var left := if gone then keys - {evicted.authority} else keys;
            forall a :: a in left <==> exists s :: s in kept && s.authority == a
  {
    forall a | a != evicted.authority
      ensures a in keys <==> exists s :: s in kept && s.authority == a
    {
      assert forall s :: s in [evicted] + kept <==> s == evicted || s in kept;
    }
  }

  // ----- the samples one edge retains

  /** The last `n` elements. */
  function LastN<T>(s: seq<T>, n: nat): seq<T> {
    if |s| > n then s[|s| - n..] else s
  }

  lemma DropFirst<T>(all: seq<T>, s: seq<T>)
    requires 0 < |s| <= |all| && s == all[|all| - |s|..]
    ensures s[1..] == all[|all| - (|s| - 1)..]
  {
  }

  class TransformEdgeHistory {
    var insertionOrder: seq<Sample>
    var authorities: map<string, TransformAuthorityHistory>

    constructor ()
      ensures Valid() && insertionOrder == [] && authorities == map[]
    {
      insertionOrder, authorities := [], map[];
    }

    /** The index is exactly the retained samples, sorted, with no empty entry and no shared entry. */
    ghost predicate Valid()
      reads this, authorities.Values
    {
      && Arrivals(insertionOrder)
      && (forall a :: a in authorities <==> exists s :: s in insertionOrder && s.authority == a)
      && Indexed(insertionOrder)
    }

    ghost predicate Indexed(fifo: seq<Sample>)
      reads this`authorities, authorities.Values
    {
      && (forall a :: a in authorities ==> authorities[a].Indexes(fifo, a))
      && (forall a, b :: a in authorities && b in authorities && a != b ==> authorities[a] != authorities[b])
    }

    /** Keeps the newest `maximumSamples`, the new sample included. */
    method Insert(sample: Sample, maximumSamples: nat)
      requires Valid() && Arrivals(insertionOrder + [sample])
      modifies this, authorities.Values
      ensures Valid() && insertionOrder == LastN(old(insertionOrder) + [sample], maximumSamples)
      ensures forall h :: h in authorities.Values ==> h in old(authorities.Values) || fresh(h)
    {
      AddSample(sample);
      ghost var all := insertionOrder;
      while |insertionOrder| > maximumSamples
        invariant Valid()
        invariant forall h :: h in authorities.Values ==> h in old(authorities.Values) || fresh(h)
        invariant |insertionOrder| <= |all| && insertionOrder == all[|all| - |insertionOrder|..]
        invariant |insertionOrder| >= maximumSamples || insertionOrder == all
      {
        DropFirst(all, insertionOrder);
        EvictOldest();
      }
    }

    method AddSample(sample: Sample)
      requires Valid() && Arrivals(insertionOrder + [sample])
      modifies this, authorities.Values
      ensures Valid() && insertionOrder == old(insertionOrder) + [sample]
      ensures forall h :: h in authorities.Values ==> h in old(authorities.Values) || fresh(h)
    {
      hide VectorOf, Arrivals;
      AuthoritiesJoined(authorities.Keys, insertionOrder, sample);
      IndexSample(sample);
      insertionOrder := insertionOrder + [sample];
    }

    method IndexSample(sample: Sample)
      requires Valid() && Arrivals(insertionOrder + [sample])
      modifies this`authorities, authorities.Values
      ensures Indexed(insertionOrder + [sample])
      ensures authorities.Keys == old(authorities.Keys) + {sample.authority}
      ensures forall h :: h in authorities.Values ==> h in old(authorities.Values) || fresh(h)
    {
      ghost var fifo := insertionOrder;
      hide VectorOf, Arrivals;
      EnsureEntry(sample.authority);
      var history := authorities[sample.authority];
      history.Insert(sample, fifo);
      forall a | a in authorities
        ensures authorities[a].Indexes(fifo + [sample], a)
      {
        if a != sample.authority {
          assert authorities[a] != history;
          OtherAuthority(authorities[a].staticSamples, fifo, sample, a, true);
          OtherAuthority(authorities[a].dynamicSamples, fifo, sample, a, false);
        }
      }
    }

    // `entry(authority).or_default()`
    method EnsureEntry(authority: string)
      requires Valid()
      modifies this`authorities
      ensures Indexed(insertionOrder) && authorities.Keys == old(authorities.Keys) + {authority}
      ensures forall h :: h in authorities.Values ==> h in old(authorities.Values) || fresh(h)
    {
      hide VectorOf, Arrivals;
      NewAuthority(insertionOrder, authority);
      if authority !in authorities {
        var history := new TransformAuthorityHistory();
        authorities := authorities[authority := history];
      }
    }

    method EvictOldest()
      requires Valid() && insertionOrder != []
      modifies this, authorities.Values
      ensures Valid() && insertionOrder == old(insertionOrder)[1..]
      ensures forall h :: h in authorities.Values ==> h in old(authorities.Values)
    {
      hide VectorOf, Arrivals;
      var evicted := insertionOrder[0];
      ghost var kept := insertionOrder[1..];
      assert insertionOrder == [evicted] + kept;
      TailArrivals(evicted, kept);
      insertionOrder := insertionOrder[1..];
      UnindexSample(evicted, kept);
    }

    method UnindexSample(evicted: Sample, ghost kept: seq<Sample>)
      requires Arrivals([evicted] + kept) && Indexed([evicted] + kept)
      requires forall a :: a in authorities <==> exists s :: s in [evicted] + kept && s.authority == a
      modifies this`authorities, authorities.Values
      ensures Indexed(kept)
      ensures forall a :: a in authorities <==> exists s :: s in kept && s.authority == a
      ensures forall h :: h in authorities.Values ==> h in old(authorities.Values)
    {
      hide VectorOf, Arrivals;
      if evicted.authority in authorities {
        var history := authorities[evicted.authority];
        history.Remove(evicted, kept);
        EmptyMeansAbsent(history.staticSamples, history.dynamicSamples, kept, evicted.authority);
        AuthoritiesLeft(authorities.Keys, evicted, kept, history.IsEmpty());
        if history.IsEmpty() {
          authorities := authorities - {evicted.authority};
        }
        forall a | a in authorities
          ensures authorities[a].Indexes(kept, a)
        {
          if a != evicted.authority {
            assert authorities[a] != history;
            OtherAuthority(authorities[a].staticSamples, kept, evicted, a, true);
            OtherAuthority(authorities[a].dynamicSamples, kept, evicted, a, false);
          }
        }
      }
    }
  }
}
