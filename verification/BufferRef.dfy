/** Reading a generation-guarded BufferRef from shared memory while its producer runs.
    The memory is a timeline of contents; a reader's access happens at some later instant, chosen arbitrarily, so
    every interleaving with the producers is covered byte by byte.  The 8-byte generation word is read in one access. */
module BufferRef {
  import opened Common
  import Text

  type Byte = x: int | 0 <= x < 256

  /** A reference as received; a missing or non-integer field is None. */
  datatype Reference = Reference(
    mappingName: string,
    transport: string, slotOffset: Option<int>,
    payloadOffset: Option<int>, payloadBytes: Option<int>,
    generation: Option<int>)

  datatype Offsets = Offsets(slot: nat, payload: nat, length: nat, generation: nat)

  datatype ReadError =
    | BlankMappingName | AlreadyOpen | NoReferences | OpenFailed | NotOpen
    | WrongMapping | UnsupportedTransport | BadField | Uncommitted | OverlapsGeneration
    | ExceedsView | NoAttempts | Expired | ShortRead | Inconsistent

  // ----- generation words

  function FromLittleEndian(b: seq<Byte>): nat {
    if b == [] then 0 else b[0] + 256 * FromLittleEndian(b[1..])
  }

  /** `struct.unpack("<q", b)` */
  function Signed64(b: seq<Byte>): int {
    var v := FromLittleEndian(b);
    if v >= 0x8000_0000_0000_0000 then v - 0x1_0000_0000_0000_0000 else v
  }

  /** `n` bytes of a number, the least significant first. */
  function ToLittleEndian(v: nat, n: nat): (b: seq<Byte>)
    ensures |b| == n
  {
    if n == 0 then [] else [v % 256] + ToLittleEndian(v / 256, n - 1)
  }

  function Power256(n: nat): (r: nat)
    ensures r > 0
  {
    if n == 0 then 1 else 256 * Power256(n - 1)
  }

  /** How a producer packs a generation: `struct.pack("<q", g)`. */
  function Word(g: int): seq<Byte> {
    ToLittleEndian(g % 0x1_0000_0000_0000_0000, 8)
  }

  lemma {:induction false} LittleEndianRead(v: nat, n: nat)
    requires v < Power256(n)
    ensures FromLittleEndian(ToLittleEndian(v, n)) == v
  {
    if n > 0 {
      LittleEndianRead(v / 256, n - 1);
      assert ToLittleEndian(v, n)[1..] == ToLittleEndian(v / 256, n - 1);
    }
  }

  lemma {:induction false} LittleEndianWritten(b: seq<Byte>)
    ensures FromLittleEndian(b) < Power256(|b|) && ToLittleEndian(FromLittleEndian(b), |b|) == b
  {
    if b != [] {
      LittleEndianWritten(b[1..]);
      ByteOff(b[0], FromLittleEndian(b[1..]));
      assert b == [b[0]] + b[1..];
    }
  }

  lemma ByteOff(low: Byte, high: nat)
    ensures (low + 256 * high) % 256 == low && (low + 256 * high) / 256 == high
  {
  }

  /** The reader recovers every generation a 64-bit word can hold, and no two words hold the same. */
  lemma WordIsRead(g: int, b: seq<Byte>)
    requires -0x8000_0000_0000_0000 <= g < 0x8000_0000_0000_0000 && |b| == 8
    ensures Signed64(Word(g)) == g && (Signed64(b) == g ==> b == Word(g))
  {
    WordSize();
    LittleEndianRead(g % 0x1_0000_0000_0000_0000, 8);
    LittleEndianWritten(b);
  }

  lemma WordSize()
    ensures Power256(8) == 0x1_0000_0000_0000_0000
  {
    assert Power256(2) == 0x1_0000;
    assert Power256(4) == 0x1_0000_0000;
    assert Power256(6) == 0x1_0000_0000_0000;
  }

  function GenerationIn(m: seq<Byte>, o: Offsets): int
    requires o.slot + 8 <= |m|
  {
    Signed64(m[o.slot..o.slot + 8])
  }

  function PayloadIn(m: seq<Byte>, o: Offsets): seq<Byte>
    requires o.payload + o.length <= |m|
  {
    m[o.payload..o.payload + o.length]
  }

  predicate Odd(g: int) {
    g % 2 != 0
  }

  // ----- the producer

  type Timeline = nat -> seq<Byte>

  predicate Fits(o: Offsets, size: nat) {
    o.slot + 8 <= o.payload && o.payload + o.length <= size
  }

  /** The producer of this slot makes the generation odd, writes payload bytes, and makes it even; the generation
      never decreases, and payload bytes change only while it stays odd. */
  ghost predicate ProducerStep(before: seq<Byte>, after: seq<Byte>, o: Offsets)
    requires |before| == |after| && Fits(o, |before|)
  {
    var g, h := GenerationIn(before, o), GenerationIn(after, o);
    g <= h && (PayloadIn(after, o) == PayloadIn(before, o) || (g == h && Odd(g)))
  }

  ghost predicate Protocol(timeline: Timeline, size: nat, o: Offsets) {
    && Fits(o, size)
    && (forall t :: |timeline(t)| == size)
    && forall t: nat :: ProducerStepAt(timeline, size, o, t)
  }

  ghost predicate ProducerStepAt(timeline: Timeline, size: nat, o: Offsets, t: nat)
    requires Fits(o, size) && forall u :: |timeline(u)| == size
  {
    ProducerStep(timeline(t), timeline(t + 1), o)
  }

  /** `payload` is what was in place at an instant when the generation was the requested one, and even. */
  ghost predicate Committed(timeline: Timeline, size: nat, o: Offsets, payload: seq<Byte>) {
    && Fits(o, size) && (forall t :: |timeline(t)| == size) && !Odd(o.generation)
    && exists t :: GenerationIn(timeline(t), o) == o.generation && payload == PayloadIn(timeline(t), o)
  }

  lemma {:induction false} GenerationGrows(timeline: Timeline, size: nat, o: Offsets, t: nat, u: nat)
    requires Protocol(timeline, size, o) && t <= u
    ensures GenerationIn(timeline(t), o) <= GenerationIn(timeline(u), o)
    decreases u - t
  {
    if t < u {
      GenerationGrows(timeline, size, o, t, u - 1);
      assert ProducerStepAt(timeline, size, o, u - 1);
    }
  }

  /** Between two instants of one even generation the payload does not change. */
  lemma {:induction false} PayloadStands(timeline: Timeline, size: nat, o: Offsets, t: nat, u: nat)
    requires Protocol(timeline, size, o) && t <= u
    requires GenerationIn(timeline(t), o) == GenerationIn(timeline(u), o) && !Odd(GenerationIn(timeline(t), o))
    ensures PayloadIn(timeline(t), o) == PayloadIn(timeline(u), o)
    decreases u - t
  {
    if t < u {
      GenerationGrows(timeline, size, o, t, u - 1);
      assert ProducerStepAt(timeline, size, o, u - 1);
      PayloadStands(timeline, size, o, t, u - 1);
    }
  }

  /** A generation is committed once: any two such payloads are the same bytes. */
  lemma CommittedOnce(timeline: Timeline, size: nat, o: Offsets, p: seq<Byte>, q: seq<Byte>)
    requires Protocol(timeline, size, o)
    requires Committed(timeline, size, o, p) && Committed(timeline, size, o, q)
    ensures p == q
  {
    var t :| GenerationIn(timeline(t), o) == o.generation && p == PayloadIn(timeline(t), o);
    var u :| GenerationIn(timeline(u), o) == o.generation && q == PayloadIn(timeline(u), o);
    if t <= u {
      PayloadStands(timeline, size, o, t, u);
    } else {
      PayloadStands(timeline, size, o, u, t);
    }
  }

  // ----- validation

  function Integer(value: Option<int>, minimum: int): Result<nat, ReadError>
    requires minimum >= 0
  {
    if value.None? || value.value < minimum then Err(BadField) else Ok(value.value)
  }

  /** The errors a reference itself can cause. */
  predicate IsReferenceError(e: ReadError) {
    e.WrongMapping? || e.UnsupportedTransport? || e.BadField? || e.Uncommitted? || e.OverlapsGeneration?
  }

  /** `_validated_offsets` */
  function ValidatedOffsets(mappingName: string, r: Reference): (result: Result<Offsets, ReadError>)
    ensures result.Ok? ==> result.value.slot + 8 <= result.value.payload && !Odd(result.value.generation)
    ensures result.Err? ==> IsReferenceError(result.error)
  {
    if Text.Strip(r.mappingName) != mappingName then Err(WrongMapping)
    else
      var transport := Text.Strip(r.transport);
      if transport != "" && transport != "windows_named_shared_memory" then Err(UnsupportedTransport)
      else
        match (Integer(r.slotOffset, 0), Integer(r.payloadOffset, 0), Integer(r.payloadBytes, 0),
               Integer(r.generation, 1))
        case (Ok(slot), Ok(payload), Ok(length), Ok(generation)) =>
          if Odd(generation) then Err(Uncommitted)
          else if payload < slot + 8 then Err(OverlapsGeneration)
          else Ok(Offsets(slot, payload, length, generation))
        case _ => Err(BadField)
  }

  /** The reference is one the reader accepts, and names these offsets. */
  predicate Names(mappingName: string, r: Reference, o: Offsets) {
    && Text.Strip(r.mappingName) == mappingName && Text.Strip(r.transport) in ["", "windows_named_shared_memory"]
    && r.slotOffset == Some(o.slot) && r.payloadOffset == Some(o.payload) && r.payloadBytes == Some(o.length)
    && r.generation == Some(o.generation) && o.generation > 0 && o.generation % 2 == 0 && o.slot + 8 <= o.payload
  }

  /** A reference is accepted exactly when it names its mapping, a known transport, and fields that make sense. */
  lemma ValidatedIff(mappingName: string, r: Reference, o: Offsets)
    ensures ValidatedOffsets(mappingName, r) == Ok(o) <==> Names(mappingName, r, o)
  {
    hide Text.Strip;
  }

  /** The field is there and not below its least value. */
  predicate IsField(value: Option<int>, least: int) {
    value.Some? && value.value >= least
  }

  predicate HasFields(r: Reference) {
    && IsField(r.slotOffset, 0) && IsField(r.payloadOffset, 0) && IsField(r.payloadBytes, 0)
    && IsField(r.generation, 1)
  }

  /** What is wrong with a reference that is refused. */
  predicate IsAtFault(mappingName: string, r: Reference, e: ReadError) {
    match e
    case WrongMapping => Text.Strip(r.mappingName) != mappingName
    case UnsupportedTransport => Text.Strip(r.transport) !in ["", "windows_named_shared_memory"]
    case BadField => !HasFields(r)
    case Uncommitted => HasFields(r) && r.generation.value % 2 == 1
    case OverlapsGeneration => HasFields(r) && r.payloadOffset.value - r.slotOffset.value < 8
    case _ => false
  }

  lemma FaultIs(mappingName: string, r: Reference)
    requires ValidatedOffsets(mappingName, r).Err?
    ensures IsAtFault(mappingName, r, ValidatedOffsets(mappingName, r).error)
  {
    hide Text.Strip;
  }

  function Max(a: nat, b: nat): nat {
    if a < b then b else a
  }

  /** What `open` must map for all references, or the first reference's error. */
  function RequiredBytes(mappingName: string, refs: seq<Reference>): (result: Result<nat, ReadError>)
    ensures result.Err? ==> IsReferenceError(result.error)
  {
    if refs == [] then Ok(0)
    else match ValidatedOffsets(mappingName, refs[0])
      case Err(e) => Err(e)
      case Ok(o) =>
        match RequiredBytes(mappingName, refs[1..])
        case Err(e) => Err(e)
        case Ok(n) => Ok(Max(Max(o.slot + 8, o.payload + o.length), n))
  }

  lemma {:induction false} RequiredCovers(mappingName: string, refs: seq<Reference>, r: Reference)
    requires r in refs && RequiredBytes(mappingName, refs).Ok?
    ensures ValidatedOffsets(mappingName, r).Ok?
    ensures Fits(ValidatedOffsets(mappingName, r).value, RequiredBytes(mappingName, refs).value)
  {
    if r != refs[0] {
      RequiredCovers(mappingName, refs[1..], r);
    }
  }

  /** The bytes to map are the fewest that hold all references; the error is that of the first reference in error. */
  lemma {:induction false} RequiredIff(mappingName: string, refs: seq<Reference>, size: nat)
    ensures RequiredBytes(mappingName, refs).Ok? && RequiredBytes(mappingName, refs).value <= size <==>
      forall k :: 0 <= k < |refs| ==>
        && ValidatedOffsets(mappingName, refs[k]).Ok?
        && Fits(ValidatedOffsets(mappingName, refs[k]).value, size)
    ensures RequiredBytes(mappingName, refs).Err? ==> exists k ::
        && 0 <= k < |refs| && ValidatedOffsets(mappingName, refs[k]) == Err(RequiredBytes(mappingName, refs).error)
        && forall j :: 0 <= j < k ==> ValidatedOffsets(mappingName, refs[j]).Ok?
  {
    hide ValidatedOffsets;
    if refs != [] {
      RequiredIff(mappingName, refs[1..], size);
      assert forall k :: 0 <= k < |refs| - 1 ==> refs[1..][k] == refs[k + 1];
      if RequiredBytes(mappingName, refs).Err? && ValidatedOffsets(mappingName, refs[0]).Ok? {
        var k :| 0 <= k < |refs| - 1
                 && ValidatedOffsets(mappingName, refs[1..][k]) == Err(RequiredBytes(mappingName, refs).error)
                 && forall j :: 0 <= j < k ==> ValidatedOffsets(mappingName, refs[1..][j]).Ok?;
        forall j | 0 <= j < k + 1
          ensures ValidatedOffsets(mappingName, refs[j]).Ok?
        {
          assert j > 0 ==> refs[j] == refs[1..][j - 1];
        }
        assert refs[k + 1] == refs[1..][k];
      }
      forall k | 0 <= k < |refs|
        ensures k > 0 ==> refs[k] == refs[1..][k - 1]
      {
      }
    }
  }

  // ----- shared memory and the reader

  /** A named mapping: its contents over time, and the instant of the last access. */
  class SharedMemory {
    const timeline: Timeline
    const size: nat
    var now: nat

    constructor (timeline: Timeline, size: nat)
      ensures this.timeline == timeline && this.size == size
    {
      this.timeline, this.size := timeline, size;
    }

    ghost predicate Valid() {
      forall t :: |timeline(t)| == size
    }

    /** Some later instant; which one is up to the scheduler. */
    method Wait()
      modifies this`now
      ensures now >= old(now)
    {
      var later: nat :| later >= now;
      now := later;
    }

    method ReadGeneration(o: Offsets) returns (g: int)
      requires Valid() && o.slot + 8 <= size
      modifies this`now
      ensures now >= old(now) && g == GenerationIn(timeline(now), o)
    {
      Wait();
      g := GenerationIn(timeline(now), o);
    }

    /** Every byte is read at an instant of its own. */
    method ReadPayload(o: Offsets) returns (payload: seq<Byte>)
      requires Valid() && Fits(o, size)
      modifies this`now
      ensures now >= old(now) && |payload| == o.length
      ensures forall i :: 0 <= i < |payload| ==>
          SeenBetween(timeline, size, o, old(now), now, i, payload[i])
    {
      payload := [];
      while |payload| < o.length
        invariant now >= old(now) && |payload| <= o.length
        invariant forall i :: 0 <= i < |payload| ==>
            SeenBetween(timeline, size, o, old(now), now, i, payload[i])
      {
        ghost var before := now;
        Wait();
        ghost var soFar := payload;
        payload := payload + [timeline(now)[o.payload + |payload|]];
        forall i | 0 <= i < |payload|
          ensures SeenBetween(timeline, size, o, old(now), now, i, payload[i])
        {
          if i < |soFar| {
            assert SeenBetween(timeline, size, o, old(now), before, i, soFar[i]);
          } else {
            assert payload[i] == PayloadIn(timeline(now), o)[i];
          }
        }
      }
    }
  }

  /** The byte was in place at some instant of the interval. */
  ghost predicate SeenBetween(timeline: Timeline, size: nat, o: Offsets, start: nat, end: nat, i: nat, b: Byte)
    requires Fits(o, size) && (forall t :: |timeline(t)| == size) && i < o.length
  {
    exists t :: start <= t <= end && b == PayloadIn(timeline(t), o)[i]
  }

  // Bytes read one by one between two sightings of one even generation are that generation's payload.
  lemma NotTorn(timeline: Timeline, size: nat, o: Offsets, start: nat, end: nat, payload: seq<Byte>)
    requires Protocol(timeline, size, o) && start <= end && !Odd(o.generation)
    requires GenerationIn(timeline(start), o) == o.generation == GenerationIn(timeline(end), o)
    requires |payload| == o.length
    requires forall i :: 0 <= i < |payload| ==> SeenBetween(timeline, size, o, start, end, i, payload[i])
    ensures payload == PayloadIn(timeline(start), o)
  {
    forall i | 0 <= i < |payload|
      ensures payload[i] == PayloadIn(timeline(start), o)[i]
    {
      var t :| start <= t <= end && payload[i] == PayloadIn(timeline(t), o)[i];
      GenerationGrows(timeline, size, o, start, t);
      GenerationGrows(timeline, size, o, t, end);
      PayloadStands(timeline, size, o, start, t);
    }
  }

  /** Some instant of the interval shows another generation than the one requested. */
  ghost predicate Strays(timeline: Timeline, size: nat, o: Offsets, start: nat, end: nat)
    requires Fits(o, size) && forall t :: |timeline(t)| == size
  {
    exists t :: start <= t <= end && GenerationIn(timeline(t), o) != o.generation
  }

  /** From this instant on the slot shows the generation requested. */
  ghost predicate StandsFrom(timeline: Timeline, size: nat, o: Offsets, start: nat)
    requires Fits(o, size) && forall t :: |timeline(t)| == size
  {
    forall t :: start <= t ==> GenerationIn(timeline(t), o) == o.generation
  }

  /** The instants at which a read looked at the generation, twice a pass and in order, the last at the end.  The first
      look of a pass must find the generation requested, else the read has expired; the second must find it again, else
      the next pass begins, as long as there is one. */
  ghost predicate AreLooks(timeline: Timeline, size: nat, o: Offsets, start: nat, end: nat, attempts: int, tries: nat,
                           looks: seq<nat>, result: Result<seq<Byte>, ReadError>)
    requires Fits(o, size) && forall t :: |timeline(t)| == size
  {
    var n := |looks| - 1;
    && n >= 0 && looks[n] == end && tries <= attempts && tries == n / 2 + 1
    && (forall i :: 0 <= i <= n ==> start <= looks[i] <= end) && (forall i :: 0 <= i < n ==> looks[i] <= looks[i + 1])
    && (forall i :: 0 <= i < n ==> (GenerationIn(timeline(looks[i]), o) == o.generation <==> i % 2 == 0))
    && var found := GenerationIn(timeline(end), o) == o.generation;
       match result
       case Ok(_) => n % 2 == 1 && found
       case Err(Expired) => n % 2 == 0 && !found
       case Err(Inconsistent) => n % 2 == 1 && !found && tries == attempts
       case Err(_) => false
  }

  /** What a read between two instants comes to.  It succeeds exactly when its last look at the generation finds the one
      requested, and then returns bytes seen between its last two looks. */
  ghost predicate IsReading(timeline: Timeline, size: nat, o: Offsets, start: nat, end: nat, attempts: int, tries: nat,
                            looks: seq<nat>, result: Result<seq<Byte>, ReadError>)
    requires Fits(o, size) && forall t :: |timeline(t)| == size
  {
    && AreLooks(timeline, size, o, start, end, attempts, tries, looks, result)
    && (result.Ok? <==> GenerationIn(timeline(end), o) == o.generation)
    && (result.Ok? ==>
          && |result.value| == o.length && |looks| > 1
          && forall i :: 0 <= i < |result.value| ==>
               SeenBetween(timeline, size, o, looks[|looks| - 2], end, i, result.value[i]))
    && (Protocol(timeline, size, o) ==>
          && (result.Ok? ==> tries == 1 && Committed(timeline, size, o, result.value))
          && (attempts > 1 ==> result != Err(Inconsistent)))
  }

  /** A read that fails has met another generation; a slot that stands still is read, and what is returned has been in
      place ever since it stood. */
  lemma StandingIsRead(timeline: Timeline, size: nat, o: Offsets, since: nat, start: nat, end: nat, attempts: int,
                       tries: nat, looks: seq<nat>, result: Result<seq<Byte>, ReadError>)
    requires Fits(o, size) && (forall t :: |timeline(t)| == size) && !Odd(o.generation) && since <= start
    requires IsReading(timeline, size, o, start, end, attempts, tries, looks, result)
    ensures result.Err? ==> (result.error == Expired || result.error == Inconsistent)
                            && Strays(timeline, size, o, since, end)
    ensures StandsFrom(timeline, size, o, since) ==> result.Ok?
    ensures StandsFrom(timeline, size, o, since) && Protocol(timeline, size, o) ==>
        result == Ok(PayloadIn(timeline(since), o))
  {
    hide Protocol, GenerationIn, PayloadIn;
    if StandsFrom(timeline, size, o, since) && Protocol(timeline, size, o) {
      CommittedOnce(timeline, size, o, result.value, PayloadIn(timeline(since), o));
    }
  }

  lemma SeenLonger(timeline: Timeline, size: nat, o: Offsets, first: nat, last: nat, end: nat, payload: seq<Byte>)
    requires Fits(o, size) && (forall t :: |timeline(t)| == size) && last <= end && |payload| == o.length
    requires forall i :: 0 <= i < |payload| ==> SeenBetween(timeline, size, o, first, last, i, payload[i])
    ensures forall i :: 0 <= i < |payload| ==> SeenBetween(timeline, size, o, first, end, i, payload[i])
  {
    forall i | 0 <= i < |payload|
      ensures SeenBetween(timeline, size, o, first, end, i, payload[i])
    {
      assert SeenBetween(timeline, size, o, first, last, i, payload[i]);
      var t: nat :| first <= t <= last && payload[i] == PayloadIn(timeline(t), o)[i];
    }
  }

  ghost predicate AreOrdered(looks: seq<nat>, start: nat, end: nat) {
    && (forall i :: 0 <= i < |looks| ==> start <= looks[i] <= end)
    && forall i :: 0 <= i < |looks| - 1 ==> looks[i] <= looks[i + 1]
  }

  ghost predicate Alternate(timeline: Timeline, size: nat, o: Offsets, looks: seq<nat>)
    requires Fits(o, size) && forall t :: |timeline(t)| == size
  {
    forall i :: 0 <= i < |looks| ==> (GenerationIn(timeline(looks[i]), o) == o.generation <==> i % 2 == 0)
  }

  lemma LookOnce(timeline: Timeline, size: nat, o: Offsets, start: nat, looks: seq<nat>, t: nat)
    requires Fits(o, size) && (forall u :: |timeline(u)| == size) && start <= t
    requires AreOrdered(looks, start, t) && Alternate(timeline, size, o, looks)
    ensures AreOrdered(looks + [t], start, t)
    ensures (GenerationIn(timeline(t), o) == o.generation <==> |looks| % 2 == 0) ==>
        Alternate(timeline, size, o, looks + [t])
  {
    hide GenerationIn;
  }

  lemma NoLooks(timeline: Timeline, size: nat, o: Offsets, start: nat)
    requires Fits(o, size) && forall u :: |timeline(u)| == size
    ensures AreOrdered([], start, start) && Alternate(timeline, size, o, [])
  {
  }

  lemma AlternateBefore(timeline: Timeline, size: nat, o: Offsets, looks: seq<nat>)
    requires Fits(o, size) && (forall u :: |timeline(u)| == size) && looks != []
    requires Alternate(timeline, size, o, looks)
    ensures Alternate(timeline, size, o, looks[..|looks| - 1])
  {
    hide GenerationIn;
  }

  lemma Later(looks: seq<nat>, start: nat, end: nat, t: nat)
    requires AreOrdered(looks, start, end) && end <= t
    ensures AreOrdered(looks, start, t)
  {
  }

  // Where a read ends.
  lemma Concluded(timeline: Timeline, size: nat, o: Offsets, start: nat, end: nat, attempts: int, tries: nat,
                  looks: seq<nat>, result: Result<seq<Byte>, ReadError>)
    requires Fits(o, size) && (forall t :: |timeline(t)| == size) && looks != []
    requires var n := |looks| - 1;
      && AreOrdered(looks, start, end) && looks[n] == end && Alternate(timeline, size, o, looks[..n])
      && tries == n / 2 + 1 <= attempts
      && var found := GenerationIn(timeline(end), o) == o.generation;
         match result
         case Ok(payload) =>
           && n % 2 == 1 && found && |payload| == o.length
           && forall i :: 0 <= i < |payload| ==> SeenBetween(timeline, size, o, looks[n - 1], end, i, payload[i])
         case Err(Expired) => n % 2 == 0 && !found
         case Err(Inconsistent) => n % 2 == 1 && !found && tries == attempts
         case Err(_) => false
    requires Protocol(timeline, size, o) ==>
      && (result.Ok? ==> tries == 1 && Committed(timeline, size, o, result.value))
      && (attempts > 1 ==> result != Err(Inconsistent))
    ensures IsReading(timeline, size, o, start, end, attempts, tries, looks, result)
  {
    hide GenerationIn, Protocol, Committed, SeenBetween;
    var n := |looks| - 1;
    forall i | 0 <= i < n
      ensures GenerationIn(timeline(looks[i]), o) == o.generation <==> i % 2 == 0
    {
      assert looks[..n][i] == looks[i];
    }
  }

  lemma CommittedAt(timeline: Timeline, size: nat, o: Offsets, t: nat)
    requires Fits(o, size) && (forall u :: |timeline(u)| == size) && !Odd(o.generation)
    requires GenerationIn(timeline(t), o) == o.generation
    ensures Committed(timeline, size, o, PayloadIn(timeline(t), o))
  {
  }

  class BufferRefReader {
    const mappingName: string
    var mapping: SharedMemory?
    var mappedBytes: nat

    constructor (mappingName: string)
      ensures this.mappingName == Text.Strip(mappingName) && mapping == null && mappedBytes == 0
    {
      this.mappingName := Text.Strip(mappingName);
      mapping, mappedBytes := null, 0;
    }

    ghost predicate Valid()
      reads this
    {
      mapping != null ==> mapping.Valid() && mappedBytes <= mapping.size
    }

    /** `open`; `os` is what the operating system finds under the name, null for nothing. */
    method Open(refs: seq<Reference>, os: SharedMemory?) returns (error: Option<ReadError>)
      requires Valid() && (os != null ==> os.Valid())
      modifies this`mapping, this`mappedBytes
      ensures Valid()
      ensures var required := RequiredBytes(mappingName, refs);
        error == if old(mapping) != null then Some(AlreadyOpen)
                 else if refs == [] then Some(NoReferences)
                 else if required.Err? then Some(required.error)
                 else if os == null || os.size < required.value then Some(OpenFailed)
                 else None
      ensures error.None? ==> mapping == os && mappedBytes == RequiredBytes(mappingName, refs).value
      ensures error.Some? ==> mapping == old(mapping) && mappedBytes == old(mappedBytes)
    {
      if mapping != null {
        return Some(AlreadyOpen);
      }
      if refs == [] {
        return Some(NoReferences);
      }
      var required := RequiredBytes(mappingName, refs);
      if required.Err? {
        return Some(required.error);
      }
      if os == null || os.size < required.value {
        return Some(OpenFailed);
      }
      mapping, mappedBytes := os, required.value;
      return None;
    }

    method Close()
      modifies this`mapping, this`mappedBytes
      ensures mapping == null && mappedBytes == 0
    {
      mapping, mappedBytes := null, 0;
    }

    /** The instant of the last access, if there is a mapping. */
    ghost function Now(): nat
      reads this, mapping
    {
      if mapping == null then 0 else mapping.now
    }

    /** `read_ref`; `tries` counts the passes of the retry loop, and `looks` are the instants it looked at the
        generation.  Under the producer's protocol a returned payload is exactly what was committed at the requested
        generation, and only the first pass can return one. */
    method ReadRef(r: Reference, attempts: int)
      returns (result: Result<seq<Byte>, ReadError>, tries: nat, ghost looks: seq<nat>)
      requires Valid()
      modifies mapping
      ensures mapping == null ==> result == Err(NotOpen)
      ensures mapping != null ==>
        var o := ValidatedOffsets(mappingName, r);
        if o.Err? then result == Err(o.error)
        else if !Fits(o.value, mappedBytes) then result == Err(ExceedsView)
        else if attempts < 1 then result == Err(NoAttempts)
        else IsReading(mapping.timeline, mapping.size, o.value, old(Now()), Now(), attempts, tries, looks, result)
      ensures Now() >= old(Now())
    {
      tries, looks := 0, [];
      if mapping == null {
        return Err(NotOpen), tries, looks;
      }
      var values := ValidatedOffsets(mappingName, r);
      if values.Err? {
        return Err(values.error), tries, looks;
      }
      var o := values.value;
      if o.payload + o.length > mappedBytes {
        return Err(ExceedsView), tries, looks;
      }
      if attempts < 1 {
        return Err(NoAttempts), tries, looks;
      }
      result, tries, looks := Retry(o, attempts);
    }

    // The retry loop.
    method Retry(o: Offsets, attempts: int)
      returns (result: Result<seq<Byte>, ReadError>, tries: nat, ghost looks: seq<nat>)
      requires Valid() && mapping != null && Fits(o, mapping.size) && !Odd(o.generation) && attempts >= 1
      modifies mapping
      ensures IsReading(mapping.timeline, mapping.size, o, old(mapping.now), mapping.now, attempts, tries, looks,
                        result)
      ensures mapping.now >= old(mapping.now)
    {
      hide Protocol, Committed, GenerationIn, PayloadIn, SeenBetween, IsReading, Alternate, AreOrdered, Odd;
      tries, looks := 0, [];
      ghost var start, timeline, size := mapping.now, mapping.timeline, mapping.size;
      ghost var lawful := Protocol(timeline, size, o);
      NoLooks(timeline, size, o, start);
      while tries < attempts
        invariant mapping == old(mapping) && mapping.now >= start && 0 <= tries <= attempts && |looks| == 2 * tries
        invariant AreOrdered(looks, start, mapping.now) && Alternate(timeline, size, o, looks)
        invariant tries > 0 ==> looks[|looks| - 1] == mapping.now
        invariant tries > 0 ==> GenerationIn(timeline(mapping.now), o) != o.generation
        invariant tries > 0 && lawful ==> GenerationIn(timeline(mapping.now), o) > o.generation && tries == 1
      {
        ghost var begin := mapping.now;
        tries := tries + 1;
        var before := mapping.ReadGeneration(o);
        ghost var first := mapping.now;
        if lawful {
          GenerationGrows(timeline, size, o, begin, first);
        }
        Later(looks, start, begin, first);
        LookOnce(timeline, size, o, start, looks, first);
        ghost var earlier := looks;
        looks := looks + [first];
        assert looks[..|looks| - 1] == earlier;
        if before != o.generation || Odd(before) {
          Concluded(timeline, size, o, start, first, attempts, tries, looks, Err(Expired));
          return Err(Expired), tries, looks;
        }
        var payload := mapping.ReadPayload(o);
        ghost var read := mapping.now;
        var after := mapping.ReadGeneration(o);
        ghost var second := mapping.now;
        if lawful {
          GenerationGrows(timeline, size, o, first, second);
        }
        Later(looks, start, first, second);
        LookOnce(timeline, size, o, start, looks, second);
        earlier := looks;
        looks := looks + [second];
        assert looks[..|looks| - 1] == earlier;
        if before == after == o.generation && !Odd(after) {
          if |payload| != o.length {
            return Err(ShortRead), tries, looks;
          }
          SeenLonger(timeline, size, o, first, read, second, payload);
          if lawful {
            NotTorn(timeline, size, o, first, second, payload);
            CommittedAt(timeline, size, o, first);
          }
          Concluded(timeline, size, o, start, second, attempts, tries, looks, Ok(payload));
          return Ok(payload), tries, looks;
        }
      }
      AlternateBefore(timeline, size, o, looks);
      Concluded(timeline, size, o, start, mapping.now, attempts, tries, looks, Err(Inconsistent));
      return Err(Inconsistent), tries, looks;
    }
  }

  /** Every reference's slot is run by a lawful producer. */
  ghost predicate Lawful(name: string, refs: seq<Reference>, os: SharedMemory) {
    forall k :: 0 <= k < |refs| && ValidatedOffsets(name, refs[k]).Ok? ==>
      Protocol(os.timeline, os.size, ValidatedOffsets(name, refs[k]).value)
  }

  /** The answer for all references: each payload as committed at the generation its reference names. */
  ghost predicate Copied(name: string, refs: seq<Reference>, os: SharedMemory, payloads: seq<seq<Byte>>) {
    && |payloads| == |refs|
    && forall k :: 0 <= k < |refs| ==>
         && ValidatedOffsets(name, refs[k]).Ok?
         && Committed(os.timeline, os.size, ValidatedOffsets(name, refs[k]).value, payloads[k])
  }

  /** The references are valid and lie within the memory. */
  ghost predicate AllFit(name: string, refs: seq<Reference>, size: nat) {
    forall k :: 0 <= k < |refs| ==>
      ValidatedOffsets(name, refs[k]).Ok? && Fits(ValidatedOffsets(name, refs[k]).value, size)
  }

  /** What copying between two instants comes to, once the view is open: a failure means that some slot showed another
      generation meanwhile, and if all stand still every payload in place is returned. */
  ghost predicate IsCopying(name: string, refs: seq<Reference>, os: SharedMemory, start: nat, end: nat,
                            result: Result<seq<seq<Byte>>, ReadError>)
    requires os.Valid() && AllFit(name, refs, os.size)
  {
    && (result.Ok? ==> |result.value| == |refs|)
    && (result.Ok? && Lawful(name, refs, os) ==> Copied(name, refs, os, result.value))
    && (result.Err? ==> (result.error == Expired || result.error == Inconsistent)
                        && exists k :: 0 <= k < |refs| && SlotStrays(name, refs[k], os, start, end))
    && (AllStand(name, refs, os, start) ==> result.Ok?)
    && (AllStand(name, refs, os, start) && Lawful(name, refs, os) ==> InPlace(name, refs, os, start, result.value))
  }

  ghost predicate SlotStrays(name: string, r: Reference, os: SharedMemory, start: nat, end: nat)
    requires os.Valid() && ValidatedOffsets(name, r).Ok? && Fits(ValidatedOffsets(name, r).value, os.size)
  {
    Strays(os.timeline, os.size, ValidatedOffsets(name, r).value, start, end)
  }

  ghost predicate AllStand(name: string, refs: seq<Reference>, os: SharedMemory, start: nat)
    requires os.Valid() && AllFit(name, refs, os.size)
  {
    forall k :: 0 <= k < |refs| ==> StandsFrom(os.timeline, os.size, ValidatedOffsets(name, refs[k]).value, start)
  }

  /** The payloads are those in place at this instant. */
  ghost predicate InPlace(name: string, refs: seq<Reference>, os: SharedMemory, start: nat, payloads: seq<seq<Byte>>)
    requires os.Valid() && AllFit(name, refs, os.size)
  {
    && |payloads| == |refs|
    && forall k :: 0 <= k < |refs| ==>
         payloads[k] == PayloadIn(os.timeline(start), ValidatedOffsets(name, refs[k]).value)
  }

  lemma CopyOne(name: string, refs: seq<Reference>, k: nat, os: SharedMemory, since: nat, start: nat, end: nat,
                tries: nat, looks: seq<nat>, payloads: seq<seq<Byte>>, result: Result<seq<Byte>, ReadError>)
    requires os.Valid() && AllFit(name, refs, os.size) && k < |refs| && since <= start
    requires IsReading(os.timeline, os.size, ValidatedOffsets(name, refs[k]).value, start, end, 4, tries, looks, result)
    ensures result.Err? ==> (result.error == Expired || result.error == Inconsistent)
    ensures result.Err? ==> SlotStrays(name, refs[k], os, since, end) && !AllStand(name, refs, os, since)
    ensures result.Ok? && Lawful(name, refs, os) && Copied(name, refs[..k], os, payloads) ==>
        Copied(name, refs[..k + 1], os, payloads + [result.value])
    ensures result.Ok? && Lawful(name, refs, os) && AllStand(name, refs, os, since)
            && InPlace(name, refs[..k], os, since, payloads) ==>
        InPlace(name, refs[..k + 1], os, since, payloads + [result.value])
  {
    hide Protocol, Committed, ValidatedOffsets, PayloadIn, GenerationIn, SeenBetween;
    ValidIsEven(name, refs[k]);
    StandingIsRead(os.timeline, os.size, ValidatedOffsets(name, refs[k]).value, since, start, end, 4, tries, looks,
                   result);
  }

  lemma ValidIsEven(name: string, r: Reference)
    requires ValidatedOffsets(name, r).Ok?
    ensures !Odd(ValidatedOffsets(name, r).value.generation)
  {
  }

  lemma OpenedFit(name: string, refs: seq<Reference>, size: nat)
    requires RequiredBytes(name, refs).Ok? && RequiredBytes(name, refs).value <= size
    ensures AllFit(name, refs, size)
  {
    forall k | 0 <= k < |refs|
      ensures ValidatedOffsets(name, refs[k]).Ok? && Fits(ValidatedOffsets(name, refs[k]).value, size)
    {
      RequiredCovers(name, refs, refs[k]);
    }
  }

  lemma NothingCopied(name: string, os: SharedMemory, start: nat)
    requires os.Valid()
    ensures Copied(name, [], os, []) && InPlace(name, [], os, start, [])
  {
  }

  /** `copy_buffer_refs` */
  method CopyBufferRefs(refs: seq<Reference>, os: SharedMemory?) returns (result: Result<seq<seq<Byte>>, ReadError>)
    requires os != null ==> os.Valid()
    modifies os
    ensures refs == [] ==> result == Err(NoReferences)
    ensures refs != [] ==>
      var name := Text.Strip(refs[0].mappingName);
      var required := RequiredBytes(name, refs);
      if name == "" then result == Err(BlankMappingName)
      else if required.Err? then result == Err(required.error)
      else if os == null || os.size < required.value then result == Err(OpenFailed)
      else AllFit(name, refs, os.size) && IsCopying(name, refs, os, old(os.now), os.now, result)
  {
    if refs == [] {
      return Err(NoReferences);
    }
    var name := Text.Strip(refs[0].mappingName);
    if name == "" {
      return Err(BlankMappingName);
    }
    var reader := new BufferRefReader(refs[0].mappingName);
    var error := reader.Open(refs, os);
    if error.Some? {
      return Err(error.value);
    }
    var payloads: seq<seq<Byte>> := [];
    hide Protocol, Committed, ValidatedOffsets, RequiredBytes, Lawful, Copied, AllStand, InPlace, IsReading;
    OpenedFit(name, refs, os.size);
    ghost var since := os.now;
    NothingCopied(name, os, since);
    assert refs[..0] == [];
    for k := 0 to |refs|
      invariant reader.Valid() && reader.mapping == os && reader.mappingName == name && fresh(reader)
      invariant reader.mappedBytes == RequiredBytes(name, refs).value
      invariant |payloads| == k && os.now >= since
      invariant Lawful(name, refs, os) ==> Copied(name, refs[..k], os, payloads)
      invariant Lawful(name, refs, os) && AllStand(name, refs, os, since) ==>
          InPlace(name, refs[..k], os, since, payloads)
    {
      RequiredCovers(name, refs, refs[k]);
      ghost var start := os.now;
      var payload, tries, looks := reader.ReadRef(refs[k], 4);
      CopyOne(name, refs, k, os, since, start, os.now, tries, looks, payloads, payload);
      if payload.Err? {
        reader.Close();
        return Err(payload.error);
      }
      payloads := payloads + [payload.value];
    }
    assert refs[..|refs|] == refs;
    reader.Close();
    return Ok(payloads);
  }

  /** So a successful copy depends on the references alone: whatever the schedules, two copies agree. */
  lemma CopiesAgree(name: string, refs: seq<Reference>, os: SharedMemory, p: seq<seq<Byte>>, q: seq<seq<Byte>>)
    requires Lawful(name, refs, os) && Copied(name, refs, os, p) && Copied(name, refs, os, q)
    ensures p == q
  {
    forall k | 0 <= k < |refs|
      ensures p[k] == q[k]
    {
      CommittedOnce(os.timeline, os.size, ValidatedOffsets(name, refs[k]).value, p[k], q[k]);
    }
  }
}
