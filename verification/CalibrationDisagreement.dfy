/** Runs at whose end the Fabric's answers differ from the active calibration: one for each kind of breaking step,
    with what the Fabric then answers and what the Manager holds. */
module CalibrationDisagreement {
  import opened Common
  import opened RigidTransforms
  import opened Calibration
  import opened CalibrationSeam
  import opened CalibrationSync
  import Runs = CalibrationRuns
  import FabricIngest
  import TransformHistory
  import Text

  const ME := Origin("manager", "boot")

  /** A run in which the two agree so far. */
  ghost predicate AgreesSoFar(steps: seq<Step>, cap: nat) {
    PossibleRun(steps, ME, cap) && AgreesThroughout(steps, ME, cap, |steps|)
  }

  /** A possible run whose last step, and no other, leaves the two in disagreement: to every query on the edge the
      Fabric answers with `says`, and the Manager holds `held`. */
  ghost predicate Disagrees(steps: seq<Step>, cap: nat, key: EdgeKey, says: Option<Calibrated>,
                            held: Option<Calibrated>)
  {
    && steps != [] && PossibleRun(steps, ME, cap) && AgreesThroughout(steps, ME, cap, |steps| - 1)
    && says != held && Held(JointRun(steps, ME, cap).ledger.records, key) == held
    && AnswersWith(JointRun(steps, ME, cap).fabric, key, says)
  }

  ghost predicate AnswersWith(f: Fabric, key: EdgeKey, says: Option<Calibrated>) {
    forall q, slerp :: CalibrationIn(Answer(f, key, q, slerp)) == says
  }

  lemma HeardIsAnswered(f: Fabric, cap: nat, key: EdgeKey)
    requires Kept(f, cap)
    ensures AnswersWith(f, key, Heard(f, key))
  {
    hide Kept, Answer, Heard, CalibrationIn;
    forall q, slerp
      ensures CalibrationIn(Answer(f, key, q, slerp)) == Heard(f, key)
    {
      DecidingAnswers(f, cap, key, q, slerp);
    }
  }

  // One step more: it may break or not.
  lemma OneStepMore(steps: seq<Step>, step: Step, cap: nat)
    requires AgreesSoFar(steps, cap) && IsPossible(JointRun(steps, ME, cap), step, cap)
    ensures JointRun(steps + [step], ME, cap) == StepAfter(JointRun(steps, ME, cap), step, cap)
    ensures IsConsistent(JointRun(steps, ME, cap), cap) && IsConsistent(JointRun(steps + [step], ME, cap), cap)
    ensures PossibleRun(steps + [step], ME, cap) && AgreesThroughout(steps + [step], ME, cap, |steps|)
    ensures !StepBreaks(JointRun(steps, ME, cap), step, cap) ==> AgreesSoFar(steps + [step], cap)
  {
    hide IsPossible, StepAfter, StepBreaks, Agrees, JointRun, IsConsistent;
    var n, more := |steps|, steps + [step];
    assert more[..n] == steps[..n] == steps && more[..n + 1] == more;
    assert forall i :: 0 <= i <= n ==> more[..i] == steps[..i];
    LastStep(more, ME, cap, n);
    EveryRunIsConsistent(steps, ME, cap);
    EveryRunIsConsistent(more, ME, cap);
    StepKeepsSyncIff(JointRun(steps, ME, cap), step, cap);
  }

  // A run that ends with a different answer.
  lemma EndsDiffering(steps: seq<Step>, step: Step, cap: nat, key: EdgeKey)
    requires AgreesSoFar(steps, cap) && IsPossible(JointRun(steps, ME, cap), step, cap)
    requires var after := StepAfter(JointRun(steps, ME, cap), step, cap);
      Heard(after.fabric, key) != Held(after.ledger.records, key)
    ensures var after := StepAfter(JointRun(steps, ME, cap), step, cap);
      Disagrees(steps + [step], cap, key, Heard(after.fabric, key), Held(after.ledger.records, key))
  {
    hide IsPossible, StepAfter, StepBreaks, Agrees, JointRun, Heard, Held, PossibleRun, AgreesThroughout, AnswersWith,
         Kept, Runs.Good;
    OneStepMore(steps, step, cap);
    HeardIsAnswered(JointRun(steps + [step], ME, cap).fabric, cap, key);
  }

  // What is heard and held after a call that ends no record.
  lemma AfterCall(steps: seq<Step>, c: Call, cap: nat, key: EdgeKey)
    requires AgreesSoFar(steps, cap) && IsPossible(JointRun(steps, ME, cap), Handler(c), cap)
    requires !Ends(JointRun(steps, ME, cap).ledger.records, c.event)
    ensures var s := JointRun(steps, ME, cap);
      var after := StepAfter(s, Handler(c), cap);
      Heard(after.fabric, key) == Comes(s, c, cap, key) && Held(after.ledger.records, key) == Becomes(s, c, key)
  {
    hide Ends, Agrees, JointRun, Heard, Held, PossibleRun, AgreesThroughout, Kept, Runs.Good, Comes, Becomes, IsCall,
         Sent;
    OneStepMore(steps, Handler(c), cap);
    SentSays(JointRun(steps, ME, cap), c, cap, key);
    CallHolds(JointRun(steps, ME, cap), c, cap, key);
  }

  // ----- a first activation

  function Reviewed(id: string, base: string): Record {
    Record(id, id, "digest", id, id, Active, true, "world", base, "camera", "device", "revision", "epoch",
           Payload(Spelled("", Vec3(0.0, 0.0, 0.0)), Spelled("", IDENTITY.rotation), ""), 0, [])
  }

  function Activating(id: string, base: string, published: bool): Runs.Event {
    Runs.Activate(true, ActivationRequest(id, "reviewer", ""), Some(Reviewed(id, base)), published)
  }

  const A := Reviewed("a", "base")

  const FIRST := Call(Activating("a", "base", true), [Transition(A, true)], 1, Answered)

  lemma FramesAreValid(id: string, base: string)
    ensures HasValidFrames(Reviewed(id, base)) <==> Text.Trim(base) != "" && base != "world"
  {
    assert Text.IsTrimmed("world");
    Text.TrimmedIsFixed("world");
    hide Text.Trim, Text.IsTrimmed;
  }

  lemma IsSoundActivation(l: Runs.Ledger, id: string, base: string, published: bool)
    requires id !in l.records && id != "" && Text.IsTrimmed(id)
    ensures Runs.IsSound(l, Activating(id, base, published))
  {
    hide Text.Trim, Text.IsTrimmed;
    Text.TrimmedIsFixed(id);
    assert IsBuiltFor(Reviewed(id, base), ActivationRequest(id, "reviewer", ""), "digest", l.records);
  }

  lemma FirstBatch()
    ensures ValidPrefix(FIRST.batch) == 1 && HasValidFrames(A)
    ensures Calibration.Publishes(FIRST.batch, map[], A)
  {
    assert Text.IsTrimmed("base");
    Text.TrimmedIsFixed("base");
    FramesAreValid("a", "base");
    hide HasValidFrames;
    assert IsSupersession(FIRST.batch, [], map[], A);
  }

  // The first activation is taken, heard and stored.
  lemma FirstIsPossible(cap: nat)
    requires cap > 0
    ensures var s := JointRun([], ME, cap);
      && IsPossible(s, Handler(FIRST), cap) && !StepBreaks(s, Handler(FIRST), cap)
  {
    hide Text.Trim, EdgeOf, HasValidFrames, Calibration.Publishes, Runs.IsSound, ValidPrefix, Delivered, LineOn,
         LineAfter, LatestOf, CalibrationOf;
    var s := JointRun([], ME, cap);
    FirstBatch();
    IsSoundActivation(s.ledger, "a", "base", true);
    SentIsConfirmed(s, FIRST, cap);
    StartIsKept(cap);
    OneComes(s, FIRST, cap);
    NothingSaid(EdgeOf(A), cap);
  }

  lemma NothingSaid(key: EdgeKey, cap: nat)
    ensures LineOn(FabricIngest.EMPTY, key) == [] && LatestOf([]) == None
    ensures TransformHistory.LastN(LineOn(FabricIngest.EMPTY, key), cap) == []
  {
  }

  const A_SAYS := Some(CalibrationOf(A))

  /** After the first activation: the record is active and heard, and the Fabric holds its sequence, 1. */
  ghost predicate IsFirstState(s: Joint) {
    && s.me == ME && s.ledger.records == map["a" := A]
    && (forall sequence: nat :: Passes(s.fabric, sequence, ME) <==> sequence > 1)
    && LineOn(s.fabric, EdgeOf(A)) == [Some(Utterance(1, A_SAYS))]
    && forall key :: key != EdgeOf(A) ==> LineOn(s.fabric, key) == []
  }

  lemma FirstFabric(cap: nat)
    requires cap > 0
    ensures var f := Delivered(FabricIngest.EMPTY, FIRST.batch, 1, ME, cap).0;
      && (forall sequence: nat :: Passes(f, sequence, ME) <==> sequence > 1)
      && LineOn(f, EdgeOf(A)) == [Some(Utterance(1, A_SAYS))]
      && forall key :: key != EdgeOf(A) ==> LineOn(f, key) == []
  {
    hide Offered, HasValidFrames, FabricIngest.OutcomeOf, ValidPrefix, LineOn, EdgeOf, CalibrationOf;
    FirstBatch();
    var empty, tr := FabricIngest.EMPTY, Transition(A, true);
    assert OfferedUpTo(empty, FIRST.batch, 1, ME, cap, 0) == empty;
    assert Delivered(empty, FIRST.batch, 1, ME, cap).0 == Offered(empty, tr, 1, 1, ME, cap);
    OfferShape(empty, tr, 1, 1, ME, cap);
    forall key
      ensures LineOn(Offered(empty, tr, 1, 1, ME, cap), key) ==
              if key == EdgeOf(A) then [Some(Utterance(1, A_SAYS))] else []
    {
      OfferLine(empty, tr, 1, 1, ME, cap, key);
      NothingSaid(key, cap);
    }
  }

  lemma FirstState(cap: nat)
    requires cap > 0
    ensures AgreesSoFar([Handler(FIRST)], cap) && IsFirstState(JointRun([Handler(FIRST)], ME, cap))
  {
    hide Delivered, Passes, Agrees, IsPossible, StepBreaks, IsConsistent, LineOn, CalibrationOf, EdgeOf;
    FirstIsPossible(cap);
    StartAgreesSoFar(cap);
    OneStepMore([], Handler(FIRST), cap);
    assert [] + [Handler(FIRST)] == [Handler(FIRST)];
    FirstFabric(cap);
  }

  lemma StartAgreesSoFar(cap: nat)
    ensures AgreesSoFar([], cap)
  {
    StartAgrees(ME, cap);
    hide Agrees, JointRun;
  }

  lemma FirstHolds(s: Joint, key: EdgeKey)
    requires IsFirstState(s)
    ensures Held(s.ledger.records, key) == if key == EdgeOf(A) then A_SAYS else None
    ensures Heard(s.fabric, EdgeOf(A)) == A_SAYS
  {
    hide Passes, EdgeOf, CalibrationOf, LineOn, Held;
    HeldIs(s.ledger.records, "a", key);
    SingleVoice(Utterance(1, A_SAYS));
  }

  lemma SingleVoice(u: Utterance)
    ensures Voice([Some(u)]) == u.says
  {
    assert LatestOf([]) == None;
  }

  // ----- refreshing and restarting

  /** The camera reports another device: listing invalidates the record, and the Fabric goes on answering with it. */
  lemma InvalidationDisagrees(cap: nat)
    requires cap > 0
    ensures var seen := map["camera" := CameraReport(Some("another"), Some("revision"), false, true, true)];
      Disagrees([Handler(FIRST), Handler(Call(Runs.ListAll(seen), [], 2, Answered))], cap, EdgeOf(A), A_SAYS, None)
  {
    hide AgreesSoFar, Disagrees, JointRun, Delivered, Held, Heard, CalibrationOf, EdgeOf, IsFirstState, Runs.IsSound,
         Runs.Good;
    var seen := map["camera" := CameraReport(Some("another"), Some("revision"), false, true, true)];
    var c := Call(Runs.ListAll(seen), [], 2, Answered);
    FirstState(cap);
    var s := JointRun([Handler(FIRST)], ME, cap);
    FirstIsInvalidated(s, c, cap);
    EveryRunIsConsistent([Handler(FIRST)], ME, cap) by {
      FirstIsARun(cap);
    }
    CallHolds(s, c, cap, EdgeOf(A));
    FirstHolds(s, EdgeOf(A));
    EndsDiffering([Handler(FIRST)], Handler(c), cap, EdgeOf(A));
    assert [Handler(FIRST)] + [Handler(c)] == [Handler(FIRST), Handler(c)];
  }

  lemma FirstIsARun(cap: nat)
    requires AgreesSoFar([Handler(FIRST)], cap)
    ensures PossibleRun([Handler(FIRST)], ME, cap)
  {
    hide PossibleRun, AgreesThroughout;
  }

  lemma FirstIsInvalidated(s: Joint, c: Call, cap: nat)
    requires IsFirstState(s) && c.event.ListAll? && c.batch == []
    requires c.event.seen == map["camera" := CameraReport(Some("another"), Some("revision"), false, true, true)]
    ensures Ends(s.ledger.records, c.event) && IsPossible(s, Handler(c), cap)
    ensures Sent(s, c, cap).0 == s.fabric
  {
    hide Passes, LineOn, CalibrationOf, Delivered;
    assert "a" in s.ledger.records && CameraChanged(s.ledger.records["a"], c.event.seen);
  }

  /** The Manager restarts and forgets the record, with which the Fabric goes on answering. */
  lemma RestartDisagrees(cap: nat, origin: Origin)
    requires cap > 0
    ensures Disagrees([Handler(FIRST), Restart(origin)], cap, EdgeOf(A), A_SAYS, None)
  {
    hide AgreesSoFar, Disagrees, JointRun, Held, Heard, CalibrationOf, EdgeOf, IsFirstState;
    FirstState(cap);
    FirstHolds(JointRun([Handler(FIRST)], ME, cap), EdgeOf(A));
    NoneHeld(map[], EdgeOf(A));
    EndsDiffering([Handler(FIRST)], Restart(origin), cap, EdgeOf(A));
    assert [Handler(FIRST)] + [Restart(origin)] == [Handler(FIRST), Restart(origin)];
  }

  /** The Fabric restarts and answers nothing, while the Manager holds the record active. */
  lemma FabricRestartDisagrees(cap: nat)
    requires cap > 0
    ensures Disagrees([Handler(FIRST), FabricRestart], cap, EdgeOf(A), None, A_SAYS)
  {
    hide AgreesSoFar, Disagrees, JointRun, Held, Heard, CalibrationOf, EdgeOf, IsFirstState;
    FirstState(cap);
    FirstHolds(JointRun([Handler(FIRST)], ME, cap), EdgeOf(A));
    EmptyIsSilent(EdgeOf(A));
    EndsDiffering([Handler(FIRST)], FabricRestart, cap, EdgeOf(A));
    assert [Handler(FIRST)] + [FabricRestart] == [Handler(FIRST), FabricRestart];
  }

  // ----- a second activation

  /** A second activation, over the first, at base frame `base`. */
  function Second(base: string, published: bool, t: nat, delivery: Delivery): Call {
    Call(Activating("b", base, published),
         [Transition(SupersededOf(A), false), Transition(Reviewed("b", base), true)], t, delivery)
  }

  lemma SecondIsPossible(s: Joint, base: string, published: bool, t: nat, delivery: Delivery, cap: nat)
    requires IsFirstState(s) && published == (delivery == Answered && Text.Trim(base) != "" && base != "world")
    ensures IsPossible(s, Handler(Second(base, published, t, delivery)), cap)
    ensures ValidPrefix(Second(base, published, t, delivery).batch) ==
            if Text.Trim(base) != "" && base != "world" then 2 else 1
    ensures Offers(s.ledger.records, Second(base, published, t, delivery).event)
    ensures Confirmed(Second(base, published, t, delivery)) <==> published
  {
    hide Text.Trim, HasValidFrames, Passes, Sent, ValidPrefix, Confirmed, Calibration.Publishes, Runs.IsSound, LineOn,
         SupersededOf, CalibrationOf;
    var c := Second(base, published, t, delivery);
    SecondPrefix(c.batch, base);
    SecondBatch(s.ledger.records, base);
    IsSoundActivation(s.ledger, "b", base, published);
    SentIsConfirmed(s, c, cap);
    ConfirmedIff(c);
  }

  lemma ConfirmedIff(c: Call)
    ensures Confirmed(c) <==> c.delivery == Answered && ValidPrefix(c.batch) == |c.batch|
  {
  }

  lemma SecondPrefix(batch: seq<Transition>, base: string)
    requires batch == [Transition(SupersededOf(A), false), Transition(Reviewed("b", base), true)]
    ensures ValidPrefix(batch) == if Text.Trim(base) != "" && base != "world" then 2 else 1
  {
    hide Text.Trim, HasValidFrames, SupersededOf;
    assert Text.IsTrimmed("base");
    Text.TrimmedIsFixed("base");
    FramesAreValid("a", "base");
    FramesAreValid("b", base);
    SameFramesAs();
    assert batch[1..] == [batch[1]] && batch[1..][1..] == [];
  }

  lemma SecondBatch(records: Records, base: string)
    requires records == map["a" := A]
    ensures Calibration.Publishes([Transition(SupersededOf(A), false), Transition(Reviewed("b", base), true)], records,
                                  Reviewed("b", base))
  {
    hide SupersededOf;
    var batch := [Transition(SupersededOf(A), false), Transition(Reviewed("b", base), true)];
    assert IsSupersession(batch, ["a"], records, Reviewed("b", base));
  }

  lemma SameFramesAs()
    ensures HasValidFrames(SupersededOf(A)) <==> HasValidFrames(A)
  {
    hide Text.Trim;
  }

  predicate IsSecond(c: Call, base: string) {
    c.event.Activate? && c == Second(base, c.event.published, c.t, c.delivery)
  }

  // What the second activation makes an edge say: nothing observed later stands there.
  lemma SecondComes(s: Joint, c: Call, cap: nat, key: EdgeKey)
    requires cap > 0 && Kept(s.fabric, cap) && IsFirstState(s) && c.t >= 1 && c.delivery != Lost && |c.batch| == 2
    requires ValidPrefix(c.batch) >= 1
    ensures Comes(s, c, cap, key) ==
            if ValidPrefix(c.batch) == 2 && EdgeOf(c.batch[1].record) == key then SaysOf(c.batch[1])
            else if EdgeOf(c.batch[0].record) == key && c.t > 1 then SaysOf(c.batch[0])
            else Heard(s.fabric, key)
  {
    hide HasValidFrames, EdgeOf, Kept, LatestOf, SaysOf, ValidPrefix, CalibrationOf, TransformHistory.LastN;
    var line := LineOn(s.fabric, key);
    FirstIsEarly(s, key, c.t);
    hide LineOn;
    TakenOfTwo(s.fabric, c.batch, c.t, s.me, key);
    TakenOfFirst(s.fabric, c.batch, c.t, s.me, key);
    KeptIsBounded(s.fabric, cap, key);
    var a := Some(Utterance(c.t, SaysOf(c.batch[0])));
    var b := Some(Utterance(c.t, SaysOf(c.batch[1])));
    ThreeShapes(line, a, b);
    if ValidPrefix(c.batch) == 2 && EdgeOf(c.batch[1].record) == key {
      LastIsHeard(line, b.value, cap);
      LastIsHeard(line + [a], b.value, cap);
    } else if EdgeOf(c.batch[0].record) == key && c.t > 1 {
      LastIsHeard(line, a.value, cap);
    } else {
      ShortIsWhole(line, cap);
    }
  }

  lemma FirstIsEarly(s: Joint, key: EdgeKey, t: nat)
    requires IsFirstState(s) && t >= 1
    ensures NoneLater(LineOn(s.fabric, key), t)
  {
    hide LineOn, CalibrationOf, EdgeOf, Passes;
  }

  lemma TakenOfFirst(f: Fabric, batch: seq<Transition>, t: nat, me: Origin, key: EdgeKey)
    requires |batch| == 2
    ensures TakenOn(f, batch, t, me, 1, key) ==
            if Passes(f, t, me) && EdgeOf(batch[0].record) == key then [Some(Utterance(t, SaysOf(batch[0])))] else []
  {
    hide EdgeOf, Passes, SaysOf;
    assert TakenOn(f, batch, t, me, 0, key) == [];
  }

  lemma ThreeShapes(line: Line, a: Option<Utterance>, b: Option<Utterance>)
    ensures line + ([] + []) == line + [] == line && line + ([a] + []) == line + [a] && line + ([] + [b]) == line + [b]
    ensures line + ([a] + [b]) == line + [a] + [b]
  {
  }

  // An utterance that nothing later precedes is heard.
  lemma LastIsHeard(older: Line, u: Utterance, cap: nat)
    requires cap > 0
    ensures NoneLater(older, u.atUs) ==> Voice(TransformHistory.LastN(older + [Some(u)], cap)) == u.says
  {
    hide LatestOf, Voice, TransformHistory.LastN;
    UtteredIsHeard(older, u, cap);
    if NoneLater(older, u.atUs) {
      SomeStillInTime(older, cap - 1, u.atUs);
    }
  }

  // A run with the second activation behind the first.
  lemma SecondDisagrees(c: Call, cap: nat, base: string, key: EdgeKey)
    requires cap > 0 && c.t >= 1 && c.delivery != Lost && IsSecond(c, base)
    requires c.event.published == (c.delivery == Answered && Text.Trim(base) != "" && base != "world")
    requires SecondSays(c, base, key) != SecondHolds(c, base, key)
    ensures Disagrees([Handler(FIRST), Handler(c)], cap, key, SecondSays(c, base, key), SecondHolds(c, base, key))
  {
    hide AgreesSoFar, Disagrees, JointRun, Held, Heard, CalibrationOf, EdgeOf, IsPossible, IsFirstState, ValidPrefix,
         Comes, SaysOf, SupersededOf, Text.Trim, Confirmed;
    FirstState(cap);
    var s := JointRun([Handler(FIRST)], ME, cap);
    SecondIsPossible(s, base, c.event.published, c.t, c.delivery, cap);
    AfterCall([Handler(FIRST)], c, cap, key);
    FirstIsKept(cap);
    SecondComes(s, c, cap, key);
    FirstHolds(s, key);
    SecondShape(s, c, base, key);
    EndsDiffering([Handler(FIRST)], Handler(c), cap, key);
    assert [Handler(FIRST)] + [Handler(c)] == [Handler(FIRST), Handler(c)];
  }

  lemma FirstIsKept(cap: nat)
    requires AgreesSoFar([Handler(FIRST)], cap)
    ensures Kept(JointRun([Handler(FIRST)], ME, cap).fabric, cap)
  {
    hide Kept, JointRun, Runs.Good;
    FirstIsARun(cap);
    EveryRunIsConsistent([Handler(FIRST)], ME, cap);
  }

  /** What the Fabric says of an edge after the second activation arrived. */
  function SecondSays(c: Call, base: string, key: EdgeKey): Option<Calibrated> {
    if Text.Trim(base) != "" && base != "world" && key == EdgeOf(Reviewed("b", base))
    then Some(CalibrationOf(Reviewed("b", base)))
    else if key == EdgeOf(A) && c.t <= 1 then A_SAYS
    else None
  }

  /** And what the Manager holds. */
  function SecondHolds(c: Call, base: string, key: EdgeKey): Option<Calibrated> {
    if c.delivery == Answered && Text.Trim(base) != "" && base != "world"
    then if key == EdgeOf(Reviewed("b", base)) then Some(CalibrationOf(Reviewed("b", base))) else None
    else if key == EdgeOf(A) then A_SAYS
    else None
  }

  lemma SecondShape(s: Joint, c: Call, base: string, key: EdgeKey)
    requires IsFirstState(s) && IsSecond(c, base)
    requires Held(s.ledger.records, key) == if key == EdgeOf(A) then A_SAYS else None
    requires Offers(s.ledger.records, c.event)
    ensures EdgeOf(c.batch[0].record) == EdgeOf(A) && SaysOf(c.batch[0]) == None
    ensures EdgeOf(c.batch[1].record) == EdgeOf(Reviewed("b", base))
    ensures SaysOf(c.batch[1]) == Some(CalibrationOf(Reviewed("b", base)))
    ensures key != EdgeOf(A) ==> Heard(s.fabric, key) == None
    ensures Becomes(s, c, key) ==
            if !Confirmed(c) then if key == EdgeOf(A) then A_SAYS else None
            else if key == EdgeOf(Reviewed("b", base)) then Some(CalibrationOf(Reviewed("b", base))) else None
    ensures !Ends(s.ledger.records, c.event)
  {
    hide Offers, Passes, Held, CalibrationOf, Confirmed;
  }

  /** The second record's frames are not valid: the Fabric takes the supersession and rejects the rest, so it answers
      nothing while the Manager keeps the first record active. */
  lemma RejectionDisagrees(cap: nat)
    requires cap > 0
    ensures Disagrees([Handler(FIRST), Handler(Second("", false, 10, Answered))], cap, EdgeOf(A), None, A_SAYS)
  {
    hide Disagrees, CalibrationOf, EdgeOf;
    NotBlank();
    SecondDisagrees(Second("", false, 10, Answered), cap, "", EdgeOf(A));
  }

  lemma NotBlank()
    ensures Text.Trim("") == "" && Text.Trim("stand") != ""
    ensures EdgeOf(Reviewed("b", "stand")) != EdgeOf(A)
  {
    assert Text.IsTrimmed("stand");
    Text.TrimmedIsFixed("stand");
  }

  /** The Fabric takes a valid activation and its answer is lost: it answers with a record the Manager does not hold. */
  lemma LostAnswerDisagrees(cap: nat)
    requires cap > 0
    ensures var b := Reviewed("b", "stand");
      Disagrees([Handler(FIRST), Handler(Second("stand", false, 10, AnswerLost))], cap, EdgeOf(b),
                Some(CalibrationOf(b)), None)
  {
    hide Disagrees, CalibrationOf, EdgeOf;
    NotBlank();
    SecondDisagrees(Second("stand", false, 10, AnswerLost), cap, "stand", EdgeOf(Reviewed("b", "stand")));
  }

  /** The clock reads 1 once more: the supersession, of sequence 1, is dropped, the new record, of sequence 5, is
      taken on its own edge, success is reported, and the Fabric goes on answering with the record superseded. */
  lemma StalledClockDisagrees(cap: nat)
    requires cap > 0
    ensures Disagrees([Handler(FIRST), Handler(Second("stand", true, 1, Answered))], cap, EdgeOf(A), A_SAYS, None)
  {
    hide Disagrees, CalibrationOf, EdgeOf;
    NotBlank();
    SecondDisagrees(Second("stand", true, 1, Answered), cap, "stand", EdgeOf(A));
  }

  // ----- revoking what is superseded

  const REPLACING := Second("base", true, 10, Answered)

  const REVOKING := Call(Runs.Revoke("a", RevokeRequest("r", "reviewer", "why"), true),
                         [Transition(RevokedRecord(SupersededOf(A)), false)], 20, Answered)

  const B := Reviewed("b", "base")

  /** After the replacement: the second record is active on the first one's edge, where nothing is later than 20. */
  ghost predicate IsReplacedState(s: Joint) {
    && s.me == ME && s.ledger.records == map["a" := SupersededOf(A), "b" := B]
    && Passes(s.fabric, 20, ME) && NoneLater(LineOn(s.fabric, EdgeOf(A)), 20)
  }

  lemma ReplacedRecords(l: Runs.Ledger)
    requires l.records == map["a" := A]
    ensures Runs.After(l, REPLACING.event).records == map["a" := SupersededOf(A), "b" := B]
  {
    assert SupersedeAll(l.records) == map["a" := SupersededOf(A)];
    hide SupersededOf;
  }

  lemma ReplacedFabric(s: Joint, cap: nat)
    requires IsFirstState(s) && Kept(s.fabric, cap) && ValidPrefix(REPLACING.batch) == 2
    ensures var f := Delivered(s.fabric, REPLACING.batch, 10, ME, cap).0;
      Passes(f, 20, ME) && NoneLater(LineOn(f, EdgeOf(A)), 20)
  {
    FirstIsEarly(s, EdgeOf(A), 10);
    hide Passes, HasValidFrames, ValidPrefix, Kept, LineOn, OfferedUpTo, TakenOn, NoneLater, EdgeOf, CalibrationOf,
         SupersededOf, TransformHistory.LastN;
    PassesAsBefore(s.fabric, REPLACING.batch, 10, ME, cap, 2, 20);
    BatchDecides(s.fabric, REPLACING.batch, 10, ME, cap, EdgeOf(A));
    TakenTimes(s.fabric, REPLACING.batch, 10, ME, 2, EdgeOf(A));
    TakenIsEarly(TakenOn(s.fabric, REPLACING.batch, 10, ME, 2, EdgeOf(A)));
    JoinedTimes(LineOn(s.fabric, EdgeOf(A)), TakenOn(s.fabric, REPLACING.batch, 10, ME, 2, EdgeOf(A)), cap, 10, 20);
  }

  lemma TakenIsEarly(line: Line)
    requires forall u :: u in line ==> u.Some? && u.value.atUs == 10
    ensures NoneLater(line, 20)
  {
  }

  lemma ReplacingHolds(s: Joint, cap: nat)
    requires IsFirstState(s) && Kept(s.fabric, cap) && cap > 0
    ensures IsPossible(s, Handler(REPLACING), cap) && !StepBreaks(s, Handler(REPLACING), cap)
    ensures ValidPrefix(REPLACING.batch) == 2
  {
    hide Held, Heard, CalibrationOf, IsFirstState, ValidPrefix, Comes, Becomes, SaysOf, SupersededOf, Text.Trim,
         Confirmed, IsCall, Kept;
    BaseIsValid();
    SecondIsPossible(s, "base", true, 10, Answered, cap);
    SecondComes(s, REPLACING, cap, EdgeOf(A));
    FirstHolds(s, EdgeOf(A));
    SecondShape(s, REPLACING, "base", EdgeOf(A));
  }

  lemma BaseIsValid()
    ensures Text.Trim("base") != "" && EdgeOf(B) == EdgeOf(A)
  {
    assert Text.IsTrimmed("base");
    Text.TrimmedIsFixed("base");
  }

  lemma ReplacedState(cap: nat)
    requires cap > 0
    ensures var steps := [Handler(FIRST), Handler(REPLACING)];
      AgreesSoFar(steps, cap) && IsReplacedState(JointRun(steps, ME, cap))
  {
    hide AgreesSoFar, JointRun, Passes, HasValidFrames, IsPossible, StepBreaks, ValidPrefix, Runs.After, IsFirstState,
         LineOn, NoneLater, Delivered, Kept, SupersededOf;
    FirstState(cap);
    FirstIsKept(cap);
    var s := JointRun([Handler(FIRST)], ME, cap);
    ReplacingHolds(s, cap);
    OneStepMore([Handler(FIRST)], Handler(REPLACING), cap);
    assert [Handler(FIRST)] + [Handler(REPLACING)] == [Handler(FIRST), Handler(REPLACING)];
    ReplacedFabric(s, cap);
    FirstRecords(s);
    ReplacedRecords(s.ledger);
  }

  lemma FirstRecords(s: Joint)
    requires IsFirstState(s)
    ensures s.ledger.records == map["a" := A] && s.me == ME
  {
    hide Passes, LineOn, EdgeOf, CalibrationOf;
  }

  lemma RevokedFrames()
    ensures HasValidFrames(RevokedRecord(SupersededOf(A))) && ValidPrefix(REVOKING.batch) == 1
    ensures EdgeOf(RevokedRecord(SupersededOf(A))) == EdgeOf(A)
  {
    assert Text.IsTrimmed("base") && Text.IsTrimmed("world");
    Text.TrimmedIsFixed("base");
    Text.TrimmedIsFixed("world");
    hide Text.Trim;
    assert REVOKING.batch[1..] == [];
  }

  lemma RevokingIsPossible(s: Joint, cap: nat)
    requires IsReplacedState(s)
    ensures IsPossible(s, Handler(REVOKING), cap) && Offers(s.ledger.records, REVOKING.event)
  {
    hide Delivered, Passes, HasValidFrames, Sent, Text.Trim, LineOn, NoneLater, ValidPrefix;
    RevokedFrames();
    assert Text.IsTrimmed("r") && Text.IsTrimmed("reviewer") && Text.IsTrimmed("why");
    Text.TrimmedIsFixed("r");
    Text.TrimmedIsFixed("reviewer");
    Text.TrimmedIsFixed("why");
    SentIsConfirmed(s, REVOKING, cap);
  }

  lemma RevokingSilences(s: Joint, cap: nat)
    requires IsReplacedState(s) && Offers(s.ledger.records, REVOKING.event) && Kept(s.fabric, cap) && cap > 0
    ensures Comes(s, REVOKING, cap, EdgeOf(A)) == None
    ensures Becomes(s, REVOKING, EdgeOf(A)) == Some(CalibrationOf(B))
  {
    hide HasValidFrames, Text.Trim, LineOn, NoneLater, ValidPrefix, Kept, CalibrationOf, LatestOf,
         TransformHistory.LastN, Passes, Held, Offers;
    RevokedFrames();
    OneComes(s, REVOKING, cap);
    SomeStillInTime(LineOn(s.fabric, EdgeOf(A)), cap - 1, 20);
    HeldIs(s.ledger.records, "b", EdgeOf(A)) by {
      assert s.ledger.records["b"].state == Active && s.ledger.records["a"].state != Active;
    }
  }

  /** Revoking the record that was superseded silences the active one, which is on the same edge. */
  lemma RevocationDisagrees(cap: nat)
    requires cap > 0
    ensures Disagrees([Handler(FIRST), Handler(REPLACING), Handler(REVOKING)], cap, EdgeOf(A), None,
                      Some(CalibrationOf(B)))
  {
    hide AgreesSoFar, JointRun, Disagrees, IsPossible, StepBreaks, IsReplacedState, Comes, Becomes, Held, Heard,
         CalibrationOf, EdgeOf, Offers, Kept, Runs.Good;
    ReplacedState(cap);
    var steps := [Handler(FIRST), Handler(REPLACING)];
    var s := JointRun(steps, ME, cap);
    RevokingIsPossible(s, cap);
    OneStepMore(steps, Handler(REVOKING), cap);
    RevokingSilences(s, cap);
    AfterCall(steps, REVOKING, cap, EdgeOf(A));
    EndsDiffering(steps, Handler(REVOKING), cap, EdgeOf(A));
    assert steps + [Handler(REVOKING)] == [Handler(FIRST), Handler(REPLACING), Handler(REVOKING)];
  }

  // ----- driven out by others

  /** The `k`-th of a series of samples another provider publishes on the edge, none of them usable. */
  function Intruder(k: nat): FabricIngest.Observation {
    FabricIngest.Observation(
      "transform.other", "physical_agent.transform", "other", "boot", k,
      FabricIngest.Transform(EdgeOf(A), TransformHistory.Sample(
        0, k, "other", true, None, None, "other", "other", Some(true), None, Some(false), false, IDENTITY)))
  }

  function Intrusions(k: nat): (steps: seq<Step>)
    ensures |steps| == k
  {
    seq(k, i requires 0 <= i < k => Step.Foreign(Intruder(i)))
  }

  /** After `k` intrusions fewer than the cap: the record is still heard, the edge's line has the others behind it. */
  ghost predicate IsIntruded(s: Joint, k: nat) {
    && s.ledger.records == map["a" := A]
    && LineOn(s.fabric, EdgeOf(A)) == [Some(Utterance(1, A_SAYS))] + Nones(k)
    && ("transform.other" in s.fabric.latest <==> k > 0)
    && (k > 0 ==> s.fabric.latest["transform.other"] == FabricIngest.Stamp("other", "boot", k - 1))
  }

  lemma IntruderIsTaken(s: Joint, k: nat, cap: nat)
    requires IsIntruded(s, k)
    ensures IsForeign(Intruder(k)) && TakesRoom(s.fabric, Intruder(k), EdgeOf(A))
    ensures var after := FabricIngest.Inserted(s.fabric, Intruder(k), cap);
      && LineOn(after, EdgeOf(A)) == TransformHistory.LastN([Some(Utterance(1, A_SAYS))] + Nones(k) + [None], cap)
      && "transform.other" in after.latest
      && after.latest["transform.other"] == FabricIngest.Stamp("other", "boot", k)
  {
    hide LineOn, CalibrationOf, TransformHistory.LastN, FabricIngest.SamplesOf;
    IntruderIsValid(k);
    hide FabricIngest.IsValid;
    ForeignLine(s.fabric, Intruder(k), cap, EdgeOf(A));
  }

  lemma IntruderIsValid(k: nat)
    ensures FabricIngest.IsValid(Intruder(k))
  {
    assert Text.IsTrimmed("transform.other") && Text.IsTrimmed("physical_agent.transform");
    Text.TrimmedIsFixed("transform.other");
    Text.TrimmedIsFixed("physical_agent.transform");
    assert Text.IsTrimmed("base") && Text.IsTrimmed("world");
    Text.TrimmedIsFixed("base");
    Text.TrimmedIsFixed("world");
    hide Text.Trim;
  }

  lemma FirstStreams(cap: nat)
    ensures "transform.other" !in Delivered(FabricIngest.EMPTY, FIRST.batch, 1, ME, cap).0.latest
  {
    hide HasValidFrames, FabricIngest.IsValid, ValidPrefix, EdgeOf, CalibrationOf, TransformHistory.LastN;
    FirstBatch();
    var empty, tr := FabricIngest.EMPTY, Transition(A, true);
    assert OfferedUpTo(empty, FIRST.batch, 1, ME, cap, 0) == empty;
    assert Delivered(empty, FIRST.batch, 1, ME, cap).0 == Offered(empty, tr, 1, 1, ME, cap);
    OfferedStreams(empty, tr, 1, 1, cap);
  }

  lemma OfferedStreams(f: Fabric, tr: Transition, t: nat, base: nat, cap: nat)
    requires "transform.other" !in f.latest
    ensures "transform.other" !in Offered(f, tr, t, base, ME, cap).latest
  {
    hide FabricIngest.IsValid, FabricIngest.IsStale, SampleOf, EdgeOf, TransformHistory.LastN;
    assert STREAM != "transform.other" && RECORD_STREAM != "transform.other";
  }

  lemma FirstIsIntruded(cap: nat)
    requires cap > 0
    ensures AgreesSoFar([Handler(FIRST)] + Intrusions(0), cap)
    ensures IsIntruded(JointRun([Handler(FIRST)] + Intrusions(0), ME, cap), 0)
  {
    assert [Handler(FIRST)] + Intrusions(0) == [Handler(FIRST)];
    hide AgreesSoFar, LineOn, CalibrationOf, EdgeOf, Passes, Delivered, HasValidFrames, Runs.After;
    FirstState(cap);
    FirstStreams(cap);
    assert [Handler(FIRST)][..0] == [];
    assert JointRun([], ME, cap).fabric == FabricIngest.EMPTY;
    assert JointRun([Handler(FIRST)], ME, cap).fabric == Delivered(FabricIngest.EMPTY, FIRST.batch, 1, ME, cap).0;
    assert [Some(Utterance(1, A_SAYS))] + Nones(0) == [Some(Utterance(1, A_SAYS))];
  }

  lemma IntruderKeeps(s: Joint, k: nat, cap: nat)
    requires IsIntruded(s, k) && k + 1 < cap
    ensures var step := Step.Foreign(Intruder(k));
      IsPossible(s, step, cap) && !StepBreaks(s, step, cap) && IsIntruded(StepAfter(s, step, cap), k + 1)
  {
    hide CalibrationOf, EdgeOf, LineOn, FabricIngest.Inserted, IsForeign, TransformHistory.LastN, TakesRoom, Evicts;
    IntruderIsTaken(s, k, cap);
    RoomForOne([Some(Utterance(1, A_SAYS))], k, cap);
  }

  lemma {:induction false} Intruded(cap: nat, k: nat)
    requires k < cap
    ensures AgreesSoFar([Handler(FIRST)] + Intrusions(k), cap)
    ensures IsIntruded(JointRun([Handler(FIRST)] + Intrusions(k), ME, cap), k)
  {
    hide *;
    if k == 0 {
      FirstIsIntruded(cap);
    } else {
      Intruded(cap, k - 1);
      var steps := [Handler(FIRST)] + Intrusions(k - 1);
      IntruderKeeps(JointRun(steps, ME, cap), k - 1, cap);
      OneStepMore(steps, Step.Foreign(Intruder(k - 1)), cap);
      OneIntrusionMore(k - 1);
    }
  }

  lemma OneIntrusionMore(k: nat)
    ensures [Handler(FIRST)] + Intrusions(k) + [Step.Foreign(Intruder(k))] == [Handler(FIRST)] + Intrusions(k + 1)
  {
    hide Intruder;
  }

  lemma RoomForOne(line: Line, k: nat, cap: nat)
    requires |line| == 1 && k + 1 < cap
    ensures TransformHistory.LastN(line + Nones(k) + [None], cap) == line + Nones(k + 1)
    ensures !Evicts(line + Nones(k), cap)
  {
    assert line + Nones(k) + [None] == line + Nones(k + 1);
  }

  lemma DrivenOut(u: Option<Utterance>, cap: nat)
    requires cap > 0
    ensures Voice(TransformHistory.LastN([u] + Nones(cap - 1) + [None], cap)) == None
  {
    assert TransformHistory.LastN([u] + Nones(cap - 1) + [None], cap) == [] + Nones(cap);
    SilenceKeepsVoice([], cap);
    NothingHeard();
  }

  /** As many samples of another provider as an edge holds drive the calibration out: none of them breaks anything but
      the last, and then the Fabric answers nothing while the Manager holds the record active. */
  lemma EvictionDisagrees(cap: nat)
    requires cap > 0
    ensures Disagrees([Handler(FIRST)] + Intrusions(cap), cap, EdgeOf(A), None, A_SAYS)
  {
    hide AgreesSoFar, JointRun, Intruder, CalibrationOf, EdgeOf, LineOn, FabricIngest.Inserted, TakesRoom, IsForeign,
         Disagrees, Held, TransformHistory.LastN, Voice;
    Intruded(cap, cap - 1);
    var steps := [Handler(FIRST)] + Intrusions(cap - 1);
    var s := JointRun(steps, ME, cap);
    IntruderIsTaken(s, cap - 1, cap);
    DrivenOut(Some(Utterance(1, A_SAYS)), cap);
    HeldIs(s.ledger.records, "a", EdgeOf(A));
    EndsDiffering(steps, Step.Foreign(Intruder(cap - 1)), cap, EdgeOf(A));
    OneIntrusionMore(cap - 1);
  }
}
