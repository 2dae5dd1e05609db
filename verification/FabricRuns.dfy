/** What the Fabric holds after any run of observations: which were taken, and what the edges retain. */
module FabricRuns {
  import opened Common
  import opened TransformHistory
  import opened FabricIngest
  import Text

  function After(run: seq<Observation>, cap: nat): Fabric {
    if run == [] then EMPTY else Inserted(After(run[..|run| - 1], cap), run[|run| - 1], cap)
  }

  // ----- which observations are refused

  /** An observation that should not be on record: it names no stream or schema, its frames cannot be told apart, or it
      offers an unreviewed calibration for motion. */
  predicate IsUnfit(o: Observation) {
    || Text.IsBlank(o.stream) || Text.IsBlank(o.schema)
    || (o.payload == Other(false))
    || (o.payload.Transform? && (Text.IsBlank(o.payload.key.parentFrame) || Text.IsBlank(o.payload.key.childFrame)))
    || (o.payload.Transform? && o.payload.key.parentFrame == o.payload.key.childFrame)
    || (o.payload.Transform? && o.payload.sample.reviewRequired && MayMove(o.payload.sample))
  }

  /** Motion may use the sample, as far as it says. */
  predicate MayMove(s: Sample) {
    s.motionUsable.None? || s.motionUsable.value
  }

  lemma UnfitIff(o: Observation)
    ensures IsValid(o) <==> !IsUnfit(o)
  {
    Text.BlankIff(o.stream);
    Text.BlankIff(o.schema);
    if o.payload.Transform? {
      Text.BlankIff(o.payload.key.parentFrame);
      Text.BlankIff(o.payload.key.childFrame);
    }
    hide Text.Trim, Text.IsBlank;
  }

  /** Taken when it came. */
  predicate WasTaken(run: seq<Observation>, cap: nat, i: nat)
    requires i < |run|
  {
    OutcomeOf(After(run[..i], cap), run[i]) == Accepted
  }

  /** The last of the stream to be taken. */
  ghost predicate IsLastTaken(run: seq<Observation>, cap: nat, stream: string, i: nat) {
    && i < |run| && run[i].stream == stream && WasTaken(run, cap, i)
    && forall k :: i < k < |run| && run[k].stream == stream ==> !WasTaken(run, cap, k)
  }

  lemma PrefixOf(run: seq<Observation>, n: nat, k: nat)
    requires k <= n <= |run|
    ensures run[..n][..k] == run[..k]
  {
  }

  lemma TakenEarlier(run: seq<Observation>, cap: nat, n: nat, k: nat)
    requires k < n <= |run|
    ensures WasTaken(run[..n], cap, k) <==> WasTaken(run, cap, k)
  {
    PrefixOf(run, n, k);
  }

  /** A stream's stamp is that of the last observation taken from it. */
  lemma {:induction false} StampIsLast(run: seq<Observation>, cap: nat, stream: string, i: nat)
    ensures IsLastTaken(run, cap, stream, i) ==>
      stream in After(run, cap).latest && After(run, cap).latest[stream] == StampOf(run[i])
    ensures stream in After(run, cap).latest ==> exists j :: IsLastTaken(run, cap, stream, j)
    decreases |run|
  {
    if run != [] {
      var n := |run| - 1;
      hide *;
      LatestAfter(run, cap, stream);
      if run[n].stream == stream && WasTaken(run, cap, n) {
        LastIs(run, cap, stream, n);
        if IsLastTaken(run, cap, stream, i) {
          NoLater(run, cap, stream, i, n);
        }
      } else {
        StampIsLast(run[..n], cap, stream, i);
        LastStays(run, cap, stream, i);
        if j :| IsLastTaken(run[..n], cap, stream, j) {
          LastStays(run, cap, stream, j);
        }
      }
    }
  }

  lemma LatestAfter(run: seq<Observation>, cap: nat, stream: string)
    requires run != []
    ensures var n := |run| - 1;
      var before, after := After(run[..n], cap).latest, After(run, cap).latest;
      if run[n].stream == stream && WasTaken(run, cap, n)
      then stream in after && after[stream] == StampOf(run[n])
      else (stream in after <==> stream in before) && (stream in after ==> after[stream] == before[stream])
  {
    hide IsValid, IsStale, LastN;
  }

  lemma LastIs(run: seq<Observation>, cap: nat, stream: string, n: nat)
    requires n == |run| - 1 && run[n].stream == stream && WasTaken(run, cap, n)
    ensures IsLastTaken(run, cap, stream, n)
  {
    hide WasTaken;
  }

  lemma NoLater(run: seq<Observation>, cap: nat, stream: string, i: nat, n: nat)
    requires IsLastTaken(run, cap, stream, i)
    requires n == |run| - 1 && run[n].stream == stream && WasTaken(run, cap, n)
    ensures i == n
  {
    hide WasTaken;
  }

  lemma LastStays(run: seq<Observation>, cap: nat, stream: string, i: nat)
    requires run != []
    requires var n := |run| - 1; !(run[n].stream == stream && WasTaken(run, cap, n))
    ensures IsLastTaken(run, cap, stream, i) <==> IsLastTaken(run[..|run| - 1], cap, stream, i)
  {
    hide WasTaken;
    var n := |run| - 1;
    forall k: nat | k < n
      ensures WasTaken(run[..n], cap, k) <==> WasTaken(run, cap, k) && run[..n][k] == run[k]
    {
      TakenEarlier(run, cap, n, k);
    }
  }

  /** Not newer than the last observation taken from its stream, which the same boot of the same instance sent. */
  ghost predicate IsRepeat(run: seq<Observation>, cap: nat, o: Observation) {
    exists i: nat ::
      && IsLastTaken(run, cap, o.stream, i) && run[i].providerInstanceId == o.providerInstanceId
      && run[i].bootId == o.bootId && o.sequence <= run[i].sequence
  }

  /** After any run: an observation is rejected exactly when it is unfit, ignored exactly when it is fit but repeats
      what its stream said, and taken otherwise. */
  lemma OutcomeIs(run: seq<Observation>, cap: nat, o: Observation)
    ensures OutcomeOf(After(run, cap), o) ==
            if IsUnfit(o) then Rejected else if IsRepeat(run, cap, o) then Ignored else Accepted
  {
    hide *;
    UnfitIff(o);
    StaleIff(run, cap, o);
    OutcomeShape(After(run, cap), o);
  }

  lemma OutcomeShape(f: Fabric, o: Observation)
    ensures OutcomeOf(f, o) == if !IsValid(o) then Rejected else if IsStale(f.latest, o) then Ignored else Accepted
  {
  }

  lemma StaleIff(run: seq<Observation>, cap: nat, o: Observation)
    ensures IsStale(After(run, cap).latest, o) <==> IsRepeat(run, cap, o)
  {
    hide IsLastTaken, After;
    StampIsLast(run, cap, o.stream, 0);
    forall i: nat | IsLastTaken(run, cap, o.stream, i)
      ensures i < |run| && o.stream in After(run, cap).latest
              && After(run, cap).latest[o.stream] == StampOf(run[i])
    {
      LastIsThere(run, cap, o.stream, i);
      StampIsLast(run, cap, o.stream, i);
    }
  }

  lemma LastIsThere(run: seq<Observation>, cap: nat, stream: string, i: nat)
    requires IsLastTaken(run, cap, stream, i)
    ensures i < |run|
  {
  }

  /** Of one boot of an instance on a stream, as long as nobody else is heard there, each observation taken is newer
      than the one before. */
  lemma TakenAreNewer(run: seq<Observation>, cap: nat, i: nat, j: nat)
    requires i < j < |run| && run[i].stream == run[j].stream && WasTaken(run, cap, i) && WasTaken(run, cap, j)
    requires forall k :: i < k < j && run[k].stream == run[i].stream ==> !WasTaken(run, cap, k)
    requires run[i].providerInstanceId == run[j].providerInstanceId && run[i].bootId == run[j].bootId
    ensures run[i].sequence < run[j].sequence
  {
    hide WasTaken;
    forall k: nat | k < j
      ensures WasTaken(run[..j], cap, k) <==> WasTaken(run, cap, k) && run[..j][k] == run[k]
    {
      TakenEarlier(run, cap, j, k);
    }
    assert IsLastTaken(run[..j], cap, run[j].stream, i);
    OutcomeIs(run[..j], cap, run[j]);
    TakenIs(run, cap, j);
    hide IsLastTaken;
  }

  lemma TakenIs(run: seq<Observation>, cap: nat, i: nat)
    requires i < |run|
    ensures WasTaken(run, cap, i) <==> OutcomeOf(After(run[..i], cap), run[i]) == Accepted
  {
  }

  // ----- what the edges retain

  /** The samples taken for an edge in order, each with the number of samples taken before it as its insertion id. */
  function SamplesTaken(run: seq<Observation>, cap: nat, key: EdgeKey): seq<Sample> {
    if run == [] then []
    else
      var n := |run| - 1;
      SamplesTaken(run[..n], cap, key)
      + if IsSampleFor(run, cap, n, key) then [run[n].payload.sample.(insertionId := TakenBefore(run, cap, n))] else []
  }

  predicate IsSampleFor(run: seq<Observation>, cap: nat, i: nat, key: EdgeKey)
    requires i < |run|
  {
    WasTaken(run, cap, i) && run[i].payload.Transform? && run[i].payload.key == key
  }

  /** How many transforms were taken before the `i`-th observation, for whichever edge. */
  function TakenBefore(run: seq<Observation>, cap: nat, i: nat): nat
    requires i <= |run|
  {
    if i == 0 then 0
    else TakenBefore(run, cap, i - 1) + if WasTaken(run, cap, i - 1) && run[i - 1].payload.Transform? then 1 else 0
  }

  lemma {:induction false} TakenBeforeIs(run: seq<Observation>, cap: nat, i: nat)
    requires i <= |run|
    ensures After(run[..i], cap).nextId == TakenBefore(run, cap, i)
  {
    if i > 0 {
      TakenBeforeIs(run, cap, i - 1);
      PrefixOf(run, i, i - 1);
      hide IsValid, IsStale, LastN;
    }
  }

  lemma LastOfLast<T>(s: seq<T>, x: T, n: nat)
    ensures LastN(LastN(s, n) + [x], n) == LastN(s + [x], n)
  {
  }

  // What one more observation does to an edge.
  lemma EdgeAfter(run: seq<Observation>, cap: nat, key: EdgeKey)
    requires run != []
    ensures var n := |run| - 1;
      var before := After(run[..n], cap);
      SamplesOf(After(run, cap), key) ==
        if IsSampleFor(run, cap, n, key)
        then LastN(SamplesOf(before, key) + [run[n].payload.sample.(insertionId := before.nextId)], cap)
        else SamplesOf(before, key)
  {
    hide IsValid, IsStale, LastN;
  }

  /** After any run an edge retains the last samples taken for it, as many as it may hold, in the order they came. */
  lemma {:induction false} EdgesRetain(run: seq<Observation>, cap: nat, key: EdgeKey)
    ensures SamplesOf(After(run, cap), key) == LastN(SamplesTaken(run, cap, key), cap)
  {
    hide *;
    if run == [] {
      NothingRetained(cap, key);
    } else {
      var n := |run| - 1;
      EdgesRetain(run[..n], cap, key);
      TakenBeforeIs(run, cap, n);
      EdgeAfter(run, cap, key);
      TakenAfter(run, cap, key);
      if IsSampleFor(run, cap, n, key) {
        LastOfLast(SamplesTaken(run[..n], cap, key),
                   run[n].payload.sample.(insertionId := TakenBefore(run, cap, n)), cap);
      }
    }
  }

  lemma NothingRetained(cap: nat, key: EdgeKey)
    ensures SamplesOf(After([], cap), key) == LastN(SamplesTaken([], cap, key), cap)
  {
  }

  lemma TakenAfter(run: seq<Observation>, cap: nat, key: EdgeKey)
    requires run != []
    ensures var n := |run| - 1;
      && (IsSampleFor(run, cap, n, key) ==> run[n].payload.Transform?)
      && SamplesTaken(run, cap, key) ==
         if IsSampleFor(run, cap, n, key)
         then SamplesTaken(run[..n], cap, key) + [run[n].payload.sample.(insertionId := TakenBefore(run, cap, n))]
         else SamplesTaken(run[..n], cap, key)
  {
    hide WasTaken, TakenBefore;
  }

  /** No edge ever holds a sample whose frames cannot be told apart, nor one under review that motion might use. */
  lemma {:induction false} NothingUnfitIsRetained(run: seq<Observation>, cap: nat, key: EdgeKey, s: Sample)
    requires s in SamplesOf(After(run, cap), key)
    ensures exists o :: o in run && !IsUnfit(o) && o.payload.Transform? && o.payload.key == key
                        && o.payload.sample.(insertionId := s.insertionId) == s
  {
    EdgesRetain(run, cap, key);
    assert s in SamplesTaken(run, cap, key);
    hide *;
    var i := SampleIsTaken(run, cap, key, s);
    OutcomeIs(run[..i], cap, run[i]);
    assert run[i] in run;
  }

  lemma {:induction false} SampleIsTaken(run: seq<Observation>, cap: nat, key: EdgeKey, s: Sample) returns (i: nat)
    requires s in SamplesTaken(run, cap, key)
    ensures i < |run| && OutcomeOf(After(run[..i], cap), run[i]) == Accepted && run[i].payload.Transform?
    ensures run[i].payload.key == key && run[i].payload.sample.(insertionId := s.insertionId) == s
  {
    hide OutcomeOf, After;
    var n := |run| - 1;
    if s in SamplesTaken(run[..n], cap, key) {
      i := SampleIsTaken(run[..n], cap, key, s);
      PrefixOf(run, n, i);
    } else {
      i := n;
    }
  }
}
