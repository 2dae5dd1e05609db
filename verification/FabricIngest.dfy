/** Taking observations into the World State Fabric: validation, the sequence check per stream, and the edge
    histories. */
module FabricIngest {
  import opened Common
  import opened TransformHistory
  import Text

  /** What an observation carries: a transform for an edge, its insertion id still to be given, or anything else, with
      the verdict of its own schema's validator. */
  datatype Payload = Transform(key: EdgeKey, sample: Sample) | Other(accepted: bool)

  datatype Observation = Observation(
    stream: string,
    schema: string, providerInstanceId: string,
    bootId: string, sequence: nat,
    payload: Payload)

  datatype Stamp = Stamp(providerInstanceId: string, bootId: string, sequence: nat)

  /** The newest stamp per stream, the retained samples per edge, and the next insertion id. */
  datatype Fabric = Fabric(latest: map<string, Stamp>, edges: map<EdgeKey, seq<Sample>>, nextId: nat)

  datatype Outcome = Accepted | Ignored | Rejected

  const EMPTY := Fabric(map[], map[], 0)

  // ----- specification

  predicate IsValid(o: Observation) {
    && Text.Trim(o.stream) != "" && Text.Trim(o.schema) != ""
    && match o.payload
       case Transform(key, sample) =>
         && Text.Trim(key.parentFrame) != "" && Text.Trim(key.childFrame) != "" && key.parentFrame != key.childFrame
         && (sample.reviewRequired ==> sample.motionUsable == Some(false))
       case Other(accepted) => accepted
  }

  /** Not newer than what the same instance and boot last said on the stream. */
  predicate IsStale(latest: map<string, Stamp>, o: Observation) {
    && o.stream in latest
    && latest[o.stream].providerInstanceId == o.providerInstanceId && latest[o.stream].bootId == o.bootId
    && o.sequence <= latest[o.stream].sequence
  }

  function StampOf(o: Observation): Stamp {
    Stamp(o.providerInstanceId, o.bootId, o.sequence)
  }

  function SamplesOf(f: Fabric, key: EdgeKey): seq<Sample> {
    if key in f.edges then f.edges[key] else []
  }

  function OutcomeOf(f: Fabric, o: Observation): Outcome {
    if !IsValid(o) then Rejected else if IsStale(f.latest, o) then Ignored else Accepted
  }

  function Inserted(f: Fabric, o: Observation, cap: nat): Fabric {
    if OutcomeOf(f, o) != Accepted then f
    else
      var latest := f.latest[o.stream := StampOf(o)];
      match o.payload
      case Transform(key, sample) =>
        var samples := LastN(SamplesOf(f, key) + [sample.(insertionId := f.nextId)], cap);
        Fabric(latest, f.edges[key := samples], f.nextId + 1)
      case Other(_) => f.(latest := latest)
  }

  /** A batch goes in one by one and stops at the first rejection; what went in before stays. */
  function Published(f: Fabric, batch: seq<Observation>, cap: nat): (Fabric, bool)
    decreases |batch|
  {
    if batch == [] then (f, true)
    else if OutcomeOf(f, batch[0]) == Rejected then (f, false)
    else Published(Inserted(f, batch[0], cap), batch[1..], cap)
  }

  /** A batch after another: the second goes in only if the first was taken whole. */
  lemma {:induction false} PublishedJoin(f: Fabric, a: seq<Observation>, b: seq<Observation>, cap: nat)
    ensures var (g, ok) := Published(f, a, cap);
      Published(f, a + b, cap) == if ok then Published(g, b, cap) else (g, false)
    decreases |a|
  {
    hide Inserted, OutcomeOf;
    if a == [] {
      assert a + b == b;
    } else {
      assert (a + b)[0] == a[0] && (a + b)[1..] == a[1..] + b;
      PublishedJoin(Inserted(f, a[0], cap), a[1..], b, cap);
    }
  }

  // ----- the store

  /** The store, with the retained samples of each edge; `TransformHistory.TransformEdgeHistory.Insert` keeps the index
      over them and retains the same samples. */
  class FabricStore {
    const cap: nat
    var latest: map<string, Stamp>
    var transforms: map<EdgeKey, seq<Sample>>
    var nextTransformInsertionId: nat

    constructor (cap: nat)
      ensures View() == EMPTY && this.cap == cap
    {
      this.cap, latest, transforms, nextTransformInsertionId := cap, map[], map[], 0;
    }

    function View(): Fabric
      reads this
    {
      Fabric(latest, transforms, nextTransformInsertionId)
    }

    /** `insert_observation_locked` */
    method Insert(o: Observation) returns (outcome: Outcome)
      modifies this
      ensures View() == Inserted(old(View()), o, cap) && outcome == OutcomeOf(old(View()), o)
    {
      hide IsValid;
      if !IsValid(o) {
        return Rejected;
      }
      if o.stream in latest {
        var current := latest[o.stream];
        if current.providerInstanceId == o.providerInstanceId && current.bootId == o.bootId
           && o.sequence <= current.sequence {
          return Ignored;
        }
      }
      latest := latest[o.stream := StampOf(o)];
      if o.payload.Transform? {
        var key := o.payload.key;
        var insertionId := nextTransformInsertionId;
        nextTransformInsertionId := nextTransformInsertionId + 1;
        var samples := if key in transforms then transforms[key] else [];
        samples := samples + [o.payload.sample.(insertionId := insertionId)];
        samples := DropOldest(samples, cap);
        transforms := transforms[key := samples];
      }
      return Accepted;
    }

    method DropOldest(all: seq<Sample>, maximumSamples: nat) returns (samples: seq<Sample>)
      ensures samples == LastN(all, maximumSamples)
    {
      samples := all;
      while |samples| > maximumSamples
        invariant |samples| <= |all| && samples == all[|all| - |samples|..]
        invariant |samples| >= maximumSamples || samples == all
      {
        samples := samples[1..];
      }
    }

    /** `publish_batch`, up to the wake-up: it stops at the first rejection and keeps what went in before. */
    method PublishBatch(batch: seq<Observation>) returns (ok: bool)
      modifies this
      ensures (View(), ok) == Published(old(View()), batch, cap)
    {
      ghost var goal := Published(View(), batch, cap);
      for k := 0 to |batch|
        invariant Published(View(), batch[k..], cap) == goal
      {
        assert batch[k..][1..] == batch[k + 1..];
        var outcome := Insert(batch[k]);
        if outcome == Rejected {
          return false;
        }
      }
      return true;
    }
  }
}
