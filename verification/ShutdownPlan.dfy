/** The Manager's shutdown plan: which class each configured provider falls in, and the fixed step sequence. */
module ShutdownPlan {
  import opened Common
  import opened StringOrder

  /** What the plan reads of a provider report: the capability names it declares, if any, and whether it expired. */
  datatype Report = Report(capabilities: Option<set<string>>, expired: bool)

  datatype Config = Config(hasSafeStatePath: bool)

  type Configs = map<string, Config>
  type Reports = map<string, Report>

  datatype Class = Motion | Basic | Ordinary

  datatype Blocker = NoSafeStatePath(id: string) | HeartbeatExpired(id: string) | NoHeartbeat(id: string)

  datatype Action =
    | FenceAuthority
    | RelinquishMotion
    | ConfirmBasicSafe
    | StopOrdinary
    | StopBasic
    | StopFabric
    | StopManagerLast
    | Unsupported(name: string)

  datatype Step = Step(order: nat, action: Action, providerIds: seq<string>)

  datatype Plan = Plan(shutdownId: string, requestId: string, requestedBy: string, steps: seq<Step>,
                       blockers: set<Blocker>)

  // ----- classes

  predicate Contains(s: string, part: string) {
    exists i | 0 <= i <= |s| :: part <= s[i..]
  }

  function CapabilitiesOf(reports: Reports, id: string): set<string> {
    if id in reports && reports[id].capabilities.Some? then reports[id].capabilities.value else {}
  }

  predicate IsBasic(reports: Reports, id: string) {
    Contains(id, "rebot_dm") || "robot_arm.gravity_float" in CapabilitiesOf(reports, id)
  }

  predicate IsMotionCapable(reports: Reports, id: string) {
    Contains(id, "integrated") || exists c :: c in CapabilitiesOf(reports, id) && "robot.motion" <= c
  }

  function ClassOf(reports: Reports, id: string): Class {
    if IsBasic(reports, id) then Basic else if IsMotionCapable(reports, id) then Motion else Ordinary
  }

  /** The configured providers of a class. */
  function Members(configs: Configs, reports: Reports, c: Class): set<string> {
    set id | id in configs && ClassOf(reports, id) == c
  }

  function BlockersOf(configs: Configs, reports: Reports, running: set<string>, id: string): set<Blocker>
    requires id in configs
  {
    match ClassOf(reports, id)
    case Basic => if configs[id].hasSafeStatePath then {} else {NoSafeStatePath(id)}
    case Motion =>
      if id !in running then {}
      else if id !in reports then {NoHeartbeat(id)}
      else if reports[id].expired then {HeartbeatExpired(id)}
      else {}
    case Ordinary => {}
  }

  function BlockersAmong(configs: Configs, reports: Reports, running: set<string>, ids: set<string>): set<Blocker>
    requires ids <= configs.Keys
  {
    set id, b | id in ids && b in BlockersOf(configs, reports, running, id) :: b
  }

  function AllBlockers(configs: Configs, reports: Reports, running: set<string>): set<Blocker> {
    BlockersAmong(configs, reports, running, configs.Keys)
  }

  lemma OneMoreBlocked(configs: Configs, reports: Reports, running: set<string>, ids: set<string>, id: string)
    requires ids <= configs.Keys && id in configs
    ensures BlockersAmong(configs, reports, running, ids + {id}) ==
            BlockersAmong(configs, reports, running, ids) + BlockersOf(configs, reports, running, id)
  {
    hide BlockersOf;
  }

  /** The seven steps, in their order. */
  function StepsFor(motion: seq<string>, basic: seq<string>, ordinary: seq<string>): seq<Step> {
    [Step(1, FenceAuthority, []),
     Step(2, RelinquishMotion, motion),
     Step(3, ConfirmBasicSafe, basic),
     Step(4, StopOrdinary, ordinary),
     Step(5, StopBasic, basic),
     Step(6, StopFabric, []),
     Step(7, StopManagerLast, [])]
  }

  /** The list holds exactly the members of the class, once each, sorted. */
  ghost predicate Lists(ids: seq<string>, members: set<string>) {
    SortedStrings(ids) && forall id :: id in ids <==> id in members
  }

  /** What a plan must be, whatever order the configuration map is walked in. */
  ghost predicate IsPlanFor(plan: Plan, configs: Configs, reports: Reports, running: set<string>) {
    && |plan.steps| == 7
    && plan.steps == StepsFor(plan.steps[1].providerIds, plan.steps[2].providerIds, plan.steps[3].providerIds)
    && Lists(plan.steps[1].providerIds, Members(configs, reports, Motion))
    && Lists(plan.steps[2].providerIds, Members(configs, reports, Basic))
    && Lists(plan.steps[3].providerIds, Members(configs, reports, Ordinary))
    && plan.blockers == AllBlockers(configs, reports, running)
  }

  // ----- building it

  ghost predicate Gathered(ids: seq<string>, done: set<string>, reports: Reports, c: Class) {
    && (forall i, j :: 0 <= i < j < |ids| ==> ids[i] != ids[j])
    && forall id :: id in ids <==> id in done && ClassOf(reports, id) == c
  }

  lemma GatherOne(ids: seq<string>, done: set<string>, reports: Reports, c: Class, id: string)
    requires Gathered(ids, done, reports, c) && id !in done
    ensures Gathered(if ClassOf(reports, id) == c then ids + [id] else ids, done + {id}, reports, c)
  {
    hide ClassOf;
  }

  method Classify(configs: Configs, reports: Reports, running: set<string>)
    returns (motion: seq<string>, basic: seq<string>, ordinary: seq<string>, blockers: set<Blocker>)
    ensures Gathered(motion, configs.Keys, reports, Motion)
    ensures Gathered(basic, configs.Keys, reports, Basic)
    ensures Gathered(ordinary, configs.Keys, reports, Ordinary)
    ensures blockers == AllBlockers(configs, reports, running)
  {
    motion, basic, ordinary, blockers := [], [], [], {};
    var pending := configs.Keys;
    ghost var seen := {};
    while pending != {}
      invariant pending + seen == configs.Keys && pending !! seen
      invariant Gathered(motion, seen, reports, Motion)
      invariant Gathered(basic, seen, reports, Basic)
      invariant Gathered(ordinary, seen, reports, Ordinary)
      invariant blockers == BlockersAmong(configs, reports, running, seen)
    {
      var id :| id in pending;
      OneMoreBlocked(configs, reports, running, seen, id);
      GatherOne(motion, seen, reports, Motion, id);
      GatherOne(basic, seen, reports, Basic, id);
      GatherOne(ordinary, seen, reports, Ordinary, id);
      hide Gathered, BlockersAmong, IsBasic, IsMotionCapable;
      pending, seen := pending - {id}, seen + {id};
      if IsBasic(reports, id) {
        basic := basic + [id];
        if !configs[id].hasSafeStatePath {
          blockers := blockers + {NoSafeStatePath(id)};
        }
      } else if IsMotionCapable(reports, id) {
        motion := motion + [id];
        if id in running {
          if id !in reports {
            blockers := blockers + {NoHeartbeat(id)};
          } else if reports[id].expired {
            blockers := blockers + {HeartbeatExpired(id)};
          }
        }
      } else {
        ordinary := ordinary + [id];
      }
    }
  }

  /** `build_shutdown_plan`, with the identifier drawn by the caller. */
  method BuildPlan(configs: Configs, reports: Reports, running: set<string>, shutdownId: string, requestId: string,
                   ownerId: string)
    returns (plan: Plan)
    ensures IsPlanFor(plan, configs, reports, running)
    ensures plan.shutdownId == shutdownId && plan.requestId == requestId && plan.requestedBy == ownerId
  {
    var motion, basic, ordinary, blockers := Classify(configs, reports, running);
    SortStringsSorts(motion);
    SortStringsSorts(basic);
    SortStringsSorts(ordinary);
    hide ClassOf, BlockersAmong;
    var steps := StepsFor(SortStrings(motion), SortStrings(basic), SortStrings(ordinary));
    plan := Plan(shutdownId, requestId, ownerId, steps, blockers);
  }

  // ----- what the plan gives

  /** Walking the configuration map in another order gives the same steps. */
  lemma PlanIsDetermined(p: Plan, q: Plan, configs: Configs, reports: Reports, running: set<string>)
    requires IsPlanFor(p, configs, reports, running) && IsPlanFor(q, configs, reports, running)
    ensures p.steps == q.steps && p.blockers == q.blockers
  {
    SortedStringsUnique(p.steps[1].providerIds, q.steps[1].providerIds);
    SortedStringsUnique(p.steps[2].providerIds, q.steps[2].providerIds);
    SortedStringsUnique(p.steps[3].providerIds, q.steps[3].providerIds);
  }

  /** Each configured provider is in exactly one of the three lists, and nothing else is in any. */
  lemma ExactlyOneClass(plan: Plan, configs: Configs, reports: Reports, running: set<string>, id: string)
    requires IsPlanFor(plan, configs, reports, running)
    ensures
      var m, b, o := plan.steps[1].providerIds, plan.steps[2].providerIds, plan.steps[3].providerIds;
      && (id in configs <==> id in m || id in b || id in o)
      && !(id in m && id in b) && !(id in m && id in o) && !(id in b && id in o)
  {
  }

  // ----- the plan in terms of the reports

  predicate Declares(reports: Reports, id: string, capability: string) {
    id in reports && reports[id].capabilities.Some? && capability in reports[id].capabilities.value
  }

  /** The provider carries a mark of powered support: its name, or the capability to float against gravity. */
  ghost predicate HoldsArm(reports: Reports, id: string) {
    (exists a, b :: id == a + "rebot_dm" + b) || Declares(reports, id, "robot_arm.gravity_float")
  }

  /** The provider carries a mark of motion: its name, or any capability of that family. */
  ghost predicate MovesArm(reports: Reports, id: string) {
    (exists a, b :: id == a + "integrated" + b) || exists rest :: Declares(reports, id, "robot.motion" + rest)
  }

  lemma ContainsIff(s: string, part: string)
    ensures Contains(s, part) <==> exists a, b :: s == a + part + b
  {
    if Contains(s, part) {
      var i :| 0 <= i <= |s| && part <= s[i..];
      assert s == s[..i] + part + s[i + |part|..];
    }
    if a, b :| s == a + part + b {
      assert s[|a|..] == part + b;
    }
  }

  lemma ClassByMarks(reports: Reports, id: string)
    ensures ClassOf(reports, id) ==
            if HoldsArm(reports, id) then Basic else if MovesArm(reports, id) then Motion else Ordinary
  {
    ContainsIff(id, "rebot_dm");
    ContainsIff(id, "integrated");
    hide Contains;
    if c :| c in CapabilitiesOf(reports, id) && "robot.motion" <= c {
      assert c == "robot.motion" + c[|"robot.motion"|..];
    }
    if rest :| Declares(reports, id, "robot.motion" + rest) {
      assert "robot.motion" <= "robot.motion" + rest;
    }
  }

  lemma MembersByMarks(configs: Configs, reports: Reports)
    ensures forall id :: id in Members(configs, reports, Basic) <==> id in configs && HoldsArm(reports, id)
    ensures forall id :: id in Members(configs, reports, Motion) <==>
        id in configs && MovesArm(reports, id) && !HoldsArm(reports, id)
    ensures forall id :: id in Members(configs, reports, Ordinary) <==>
        id in configs && !MovesArm(reports, id) && !HoldsArm(reports, id)
  {
    hide ClassOf, HoldsArm, MovesArm;
    forall id
      ensures ClassOf(reports, id) ==
              if HoldsArm(reports, id) then Basic else if MovesArm(reports, id) then Motion else Ordinary
    {
      ClassByMarks(reports, id);
    }
  }

  /** Where each configured provider is dealt with, by what it reports: one with a mark of support is asked for its safe
      state in step 3 and stopped in step 5, whatever else it declares; one with a mark of motion and none of support
      gives way in step 2; any other is stopped in step 4.  Nobody is dealt with elsewhere. */
  lemma PlacedByMarks(plan: Plan, configs: Configs, reports: Reports, running: set<string>, id: string)
    requires IsPlanFor(plan, configs, reports, running)
    ensures |plan.steps| == 7 && forall k :: 0 <= k < 7 ==> plan.steps[k].order == k + 1
    ensures plan.steps[0].action == FenceAuthority && plan.steps[1].action == RelinquishMotion
            && plan.steps[2].action == ConfirmBasicSafe && plan.steps[3].action == StopOrdinary
            && plan.steps[4].action == StopBasic && plan.steps[5].action == StopFabric
            && plan.steps[6].action == StopManagerLast
    ensures var known, holds, moves := id in configs, HoldsArm(reports, id), MovesArm(reports, id);
      && (id in plan.steps[2].providerIds <==> known && holds) && (id in plan.steps[4].providerIds <==> known && holds)
      && (id in plan.steps[1].providerIds <==> known && moves && !holds)
      && (id in plan.steps[3].providerIds <==> known && !moves && !holds)
    ensures plan.steps[0].providerIds == plan.steps[5].providerIds == plan.steps[6].providerIds == []
  {
    ClassByMarks(reports, id);
    hide ClassOf, HoldsArm, MovesArm, AllBlockers;
  }

  /** Every blocker names a configured provider: one that holds the arm and cannot be asked for its safe state, or one
      that moves it, runs, and has no report or only an expired one. */
  lemma BlockersByMarks(configs: Configs, reports: Reports, running: set<string>, b: Blocker)
    ensures b in AllBlockers(configs, reports, running) <==>
      && b.id in configs
      && if HoldsArm(reports, b.id) then b.NoSafeStatePath? && !configs[b.id].hasSafeStatePath
         else
           && MovesArm(reports, b.id) && b.id in running
           && ((b.NoHeartbeat? && b.id !in reports)
               || (b.HeartbeatExpired? && b.id in reports && reports[b.id].expired))
  {
    ClassByMarks(reports, b.id);
    hide ClassOf, HoldsArm, MovesArm;
    if b.id in configs {
      assert b in BlockersOf(configs, reports, running, b.id) ==> b in AllBlockers(configs, reports, running);
    }
  }

  /** A plan is free of blockers exactly when every provider that holds the arm can be asked for its safe state and
      every running one that moves it, and does not hold it, has an unexpired report. */
  lemma UnblockedIff(configs: Configs, reports: Reports, running: set<string>)
    ensures AllBlockers(configs, reports, running) == {} <==>
      forall id :: id in configs ==>
        if HoldsArm(reports, id) then configs[id].hasSafeStatePath
        else MovesArm(reports, id) && id in running ==> id in reports && !reports[id].expired
  {
    hide HoldsArm, MovesArm, AllBlockers;
    forall id | id in configs && AllBlockers(configs, reports, running) == {}
      ensures if HoldsArm(reports, id) then configs[id].hasSafeStatePath
              else MovesArm(reports, id) && id in running ==> id in reports && !reports[id].expired
    {
      BlockersByMarks(configs, reports, running, NoSafeStatePath(id));
      BlockersByMarks(configs, reports, running, NoHeartbeat(id));
      BlockersByMarks(configs, reports, running, HeartbeatExpired(id));
    }
    if b :| b in AllBlockers(configs, reports, running) {
      BlockersByMarks(configs, reports, running, b);
    }
  }
}
