/** Provider dependencies in the Manager: the depth-first activation order, activation along it, and the set of
    providers an arm change affects. */
module ProviderOrder {
  import opened Common

  /** Each configured provider's dependencies.  The source keys every configuration by its own id. */
  type Configs = map<string, seq<string>>

  datatype OrderError = UnknownDependency(id: string) | Cycle(id: string)

  // ----- reachability over dependencies

  predicate Depends(configs: Configs, a: string, b: string) {
    a in configs && b in configs[a]
  }

  ghost predicate IsPath(configs: Configs, p: seq<string>) {
    p != [] && forall i :: 0 <= i < |p| - 1 ==> Depends(configs, p[i], p[i + 1])
  }

  ghost predicate PathFrom(configs: Configs, p: seq<string>, a: string, b: string) {
    IsPath(configs, p) && p[0] == a && p[|p| - 1] == b
  }

  ghost predicate Reaches(configs: Configs, a: string, b: string) {
    exists p :: PathFrom(configs, p, a, b)
  }

  /** `a` depends on itself, through at least one step. */
  ghost predicate OnCycle(configs: Configs, a: string) {
    exists p :: PathFrom(configs, p, a, a) && |p| > 1
  }

  lemma ReachesSelf(configs: Configs, a: string)
    ensures Reaches(configs, a, a)
  {
    assert PathFrom(configs, [a], a, a);
  }

  lemma PathJoins(configs: Configs, p: seq<string>, a: string, b: string, q: seq<string>, c: string)
    requires PathFrom(configs, p, a, b) && PathFrom(configs, q, b, c)
    ensures PathFrom(configs, p + q[1..], a, c)
  {
    var r := p + q[1..];
    forall i | 0 <= i < |r| - 1
      ensures Depends(configs, r[i], r[i + 1])
    {
      if i >= |p| - 1 {
        assert Depends(configs, q[i - |p| + 1], q[i - |p| + 2]);
      }
    }
  }

  lemma ReachesStep(configs: Configs, a: string, b: string, c: string)
    requires Depends(configs, a, b) && Reaches(configs, b, c)
    ensures Reaches(configs, a, c)
  {
    assert PathFrom(configs, [a, b], a, b);
    var q :| PathFrom(configs, q, b, c);
    PathJoins(configs, [a, b], a, b, q, c);
  }

  // ----- what an order must be

  ghost predicate Distinct(s: seq<string>) {
    forall i, j :: 0 <= i < j < |s| ==> s[i] != s[j]
  }

  /** Each element is configured and all its dependencies come earlier. */
  ghost predicate Topological(configs: Configs, order: seq<string>) {
    forall i :: 0 <= i < |order| ==> order[i] in configs && forall d :: d in configs[order[i]] ==> d in order[..i]
  }

  /** Exactly the providers reachable from the target, once each, dependencies first, the target last. */
  ghost predicate IsDependencyOrder(configs: Configs, target: string, order: seq<string>) {
    && Distinct(order) && Topological(configs, order)
    && (forall v :: v in order <==> Reaches(configs, target, v))
    && order != [] && order[|order| - 1] == target
  }

  /** Everything the target reaches is configured and off any cycle. */
  ghost predicate Orderable(configs: Configs, target: string) {
    forall v :: Reaches(configs, target, v) ==> v in configs && !OnCycle(configs, v)
  }

  // Along a path the positions in a topological order only go down.
  lemma {:induction false} PathDescends(configs: Configs, order: seq<string>, p: seq<string>, a: string, b: string)
    requires Distinct(order) && Topological(configs, order) && PathFrom(configs, p, a, b) && a in order
    ensures b in order
    ensures forall i, j :: 0 <= i < |order| && 0 <= j < |order| && order[i] == a && order[j] == b && |p| > 1 ==> j < i
    decreases |p|
  {
    if |p| > 1 {
      var mid := p[1];
      assert Depends(configs, p[0], p[1]);
      var i :| 0 <= i < |order| && order[i] == a;
      assert mid in order[..i];
      var k :| 0 <= k < i && order[k] == mid;
      assert PathFrom(configs, p[1..], mid, b) by {
        forall j | 0 <= j < |p| - 2
          ensures Depends(configs, p[1..][j], p[1..][j + 1])
        {
          assert Depends(configs, p[j + 1], p[j + 2]);
        }
      }
      PathDescends(configs, order, p[1..], mid, b);
    }
  }

  lemma OrderMeansOrderable(configs: Configs, target: string, order: seq<string>)
    requires IsDependencyOrder(configs, target, order)
    ensures Orderable(configs, target)
  {
    forall v | Reaches(configs, target, v)
      ensures v in configs && !OnCycle(configs, v)
    {
      var i :| 0 <= i < |order| && order[i] == v;
      if p :| PathFrom(configs, p, v, v) && |p| > 1 {
        PathDescends(configs, order, p, v, v);
        assert false;
      }
    }
  }

  // ----- the depth-first visit

  class OrderBuilder {
    var visiting: set<string>
    var visited: set<string>
    var order: seq<string>

    constructor ()
      ensures visiting == {} && visited == {} && order == []
    {
      visiting, visited, order := {}, {}, [];
    }

    ghost predicate Valid(configs: Configs)
      reads this
    {
      && visiting * visited == {} && visiting <= configs.Keys
      && (forall v :: v in visited <==> v in order)
      && Distinct(order) && Topological(configs, order)
    }

    /** `visit`; the ghost `stack` is the path of providers being visited. */
    method Visit(configs: Configs, id: string, ghost stack: seq<string>) returns (result: Result<(), OrderError>)
      requires Valid(configs) && IsPath(configs, stack + [id]) && (forall v :: v in visiting <==> v in stack)
      modifies this
      ensures result.Ok? ==>
          && Valid(configs) && visiting == old(visiting) && old(order) <= order
          && id in visited && (id !in old(visited) ==> order[|order| - 1] == id)
          && forall v :: v in visited && v !in old(visited) ==> Reaches(configs, id, v)
      ensures result.Err? ==> Explains(configs, id, result.error)
      decreases configs.Keys - visiting, 0
    {
      if id in visited {
        return Ok(());
      }
      if id !in configs {
        ReachesSelf(configs, id);
        return Err(UnknownDependency(id));
      }
      if id in visiting {
        StackCloses(configs, stack, id);
        return Err(Cycle(id));
      }
      visiting := visiting + {id};
      result := VisitAll(configs, id, stack + [id]);
      if result.Err? {
        return;
      }
      assert id !in visiting * visited;
      visiting := visiting - {id};
      visited := visited + {id};
      AppendTopological(configs, order, id);
      order := order + [id];
      ReachesSelf(configs, id);
    }

    // The loop over the dependencies of the provider on top of the stack.
    method VisitAll(configs: Configs, id: string, ghost stack: seq<string>) returns (result: Result<(), OrderError>)
      requires Valid(configs) && IsPath(configs, stack) && (forall v :: v in visiting <==> v in stack)
      requires id == stack[|stack| - 1] && id in configs
      modifies this
      ensures result.Ok? ==>
          && Valid(configs) && visiting == old(visiting) && old(order) <= order
          && (forall d :: d in configs[id] ==> d in visited)
          && forall v :: v in visited && v !in old(visited) ==> Reaches(configs, id, v)
      ensures result.Err? ==> Explains(configs, id, result.error)
      decreases configs.Keys - visiting, 1
    {
      var dependencies := configs[id];
      for k := 0 to |dependencies|
        invariant Valid(configs) && visiting == old(visiting) && old(order) <= order
        invariant forall j :: 0 <= j < k ==> dependencies[j] in visited
        invariant forall v :: v in visited && v !in old(visited) ==> Reaches(configs, id, v)
      {
        var d := dependencies[k];
        ghost var before := visited;
        PushDependency(configs, stack, d);
        result := Visit(configs, d, stack);
        if result.Err? {
          ExplainsAbove(configs, id, d, result.error);
          return;
        }
        forall v | v in visited && v !in before
          ensures Reaches(configs, id, v)
        {
          ReachesStep(configs, id, d, v);
        }
      }
      return Ok(());
    }
  }

  lemma AppendTopological(configs: Configs, order: seq<string>, id: string)
    requires Topological(configs, order) && Distinct(order) && id !in order
    requires id in configs && forall d :: d in configs[id] ==> d in order
    ensures Topological(configs, order + [id]) && Distinct(order + [id])
  {
    var after := order + [id];
    forall i | 0 <= i < |after|
      ensures after[i] in configs && forall d :: d in configs[after[i]] ==> d in after[..i]
    {
      assert after[..i] == order[..i];
    }
  }

  /** An error is justified by something reachable: an unknown provider, or one on a cycle. */
  ghost predicate Explains(configs: Configs, id: string, e: OrderError) {
    && Reaches(configs, id, e.id)
    && (if e.UnknownDependency? then e.id !in configs else OnCycle(configs, e.id))
  }

  lemma ExplainsAbove(configs: Configs, id: string, d: string, e: OrderError)
    requires Depends(configs, id, d) && Explains(configs, d, e)
    ensures Explains(configs, id, e)
  {
    ReachesStep(configs, id, d, e.id);
  }

  lemma PushDependency(configs: Configs, stack: seq<string>, d: string)
    requires IsPath(configs, stack) && Depends(configs, stack[|stack| - 1], d)
    ensures IsPath(configs, stack + [d])
  {
    var p := stack + [d];
    forall i | 0 <= i < |p| - 1
      ensures Depends(configs, p[i], p[i + 1])
    {
      assert i < |stack| - 1 ==> Depends(configs, stack[i], stack[i + 1]);
    }
  }

  lemma StackCloses(configs: Configs, stack: seq<string>, id: string)
    requires IsPath(configs, stack + [id]) && id in stack
    ensures OnCycle(configs, id) && Reaches(configs, id, id)
  {
    var k :| 0 <= k < |stack| && stack[k] == id;
    var p := stack + [id];
    var cycle := p[k..];
    forall i | 0 <= i < |cycle| - 1
      ensures Depends(configs, cycle[i], cycle[i + 1])
    {
      assert Depends(configs, p[k + i], p[k + i + 1]);
    }
    assert PathFrom(configs, cycle, id, id);
  }

  /** `provider_dependency_order`: it answers on every graph, with an order exactly when everything the target reaches
      is configured and acyclic, and otherwise names a provider that is not. */
  method ProviderDependencyOrder(configs: Configs, target: string) returns (result: Result<seq<string>, OrderError>)
    ensures result.Ok? <==> Orderable(configs, target)
    ensures result.Ok? ==> IsDependencyOrder(configs, target, result.value)
    ensures result.Err? ==> Explains(configs, target, result.error)
  {
    var builder := new OrderBuilder();
    assert [] + [target] == [target];
    var visit := builder.Visit(configs, target, []);
    if visit.Err? {
      return Err(visit.error);
    }
    OrderIsExact(configs, target, builder.order);
    OrderMeansOrderable(configs, target, builder.order);
    return Ok(builder.order);
  }

  lemma OrderIsExact(configs: Configs, target: string, order: seq<string>)
    requires Distinct(order) && Topological(configs, order) && target in order
    ensures forall v :: Reaches(configs, target, v) ==> v in order
  {
    forall v | Reaches(configs, target, v)
      ensures v in order
    {
      var p :| PathFrom(configs, p, target, v);
      PathDescends(configs, order, p, target, v);
    }
  }

  /** Every transitive dependency of the k-th attempt was attempted earlier and succeeded. */
  ghost predicate Supported(configs: Configs, attempted: seq<string>, k: nat, heats: string -> bool)
    requires k < |attempted|
  {
    forall v :: Reaches(configs, attempted[k], v) && v != attempted[k] ==> v in attempted[..k] && heats(v)
  }

  /** All attempts but the last succeeded, each was of another provider, and the target needs them all. */
  ghost predicate FailedLast(configs: Configs, target: string, attempted: seq<string>, heats: string -> bool) {
    && attempted != [] && !heats(attempted[|attempted| - 1])
    && (forall k :: 0 <= k < |attempted| - 1 ==> heats(attempted[k]))
    && (forall j, k :: 0 <= j < k < |attempted| ==> attempted[j] != attempted[k])
    && forall k :: 0 <= k < |attempted| ==> Reaches(configs, target, attempted[k])
  }

  lemma FailureIsLast(configs: Configs, target: string, order: seq<string>, k: nat, heats: string -> bool)
    requires IsDependencyOrder(configs, target, order) && k < |order| && !heats(order[k])
    requires forall j :: 0 <= j < k ==> heats(order[j])
    ensures FailedLast(configs, target, order[..k + 1], heats)
  {
    hide Reaches;
    forall j | 0 <= j <= k
      ensures Reaches(configs, target, order[j])
    {
      OrderMembers(configs, target, order, order[j]);
    }
  }

  /** `ensure_provider_hot`: `heats` says which activations succeed.  No activation is attempted before all transitive
      dependencies succeeded, an unorderable target activates nothing, success means everything is hot, and otherwise
      each provider was attempted once at most, only what the target needs, and the last attempt is the one that
      failed. */
  method EnsureProviderHot(configs: Configs, target: string, heats: string -> bool)
    returns (attempted: seq<string>, hot: bool)
    ensures hot <==> Orderable(configs, target) && forall v :: Reaches(configs, target, v) ==> heats(v)
    ensures hot ==> IsDependencyOrder(configs, target, attempted)
    ensures !Orderable(configs, target) ==> attempted == []
    ensures forall k :: 0 <= k < |attempted| ==> Supported(configs, attempted, k, heats)
    ensures Orderable(configs, target) && !hot ==> FailedLast(configs, target, attempted, heats)
  {
    attempted, hot := [], false;
    var result := ProviderDependencyOrder(configs, target);
    if result.Err? {
      return;
    }
    var order := result.value;
    hide *;
    for k := 0 to |order|
      invariant attempted == order[..k] && forall j :: 0 <= j < k ==> heats(order[j])
      invariant forall j :: 0 <= j < k ==> Supported(configs, attempted, j, heats)
    {
      AttemptIsSupported(configs, target, order, k, heats);
      SupportedStays(configs, attempted, attempted + [order[k]], heats);
      attempted := attempted + [order[k]];
      assert attempted == order[..k + 1];
      if !heats(order[k]) {
        OrderMembers(configs, target, order, order[k]);
        FailureIsLast(configs, target, order, k, heats);
        return;
      }
    }
    assert attempted == order;
    AllHeat(configs, target, order, heats);
    hot := true;
  }

  lemma OrderMembers(configs: Configs, target: string, order: seq<string>, v: string)
    requires IsDependencyOrder(configs, target, order) && v in order
    ensures Reaches(configs, target, v)
  {
  }

  lemma AllHeat(configs: Configs, target: string, order: seq<string>, heats: string -> bool)
    requires IsDependencyOrder(configs, target, order) && forall j :: 0 <= j < |order| ==> heats(order[j])
    ensures forall v :: Reaches(configs, target, v) ==> heats(v)
  {
  }

  lemma SupportedStays(configs: Configs, before: seq<string>, after: seq<string>, heats: string -> bool)
    requires before <= after && forall j :: 0 <= j < |before| ==> Supported(configs, before, j, heats)
    ensures forall j :: 0 <= j < |before| ==> Supported(configs, after, j, heats)
  {
    forall j | 0 <= j < |before|
      ensures Supported(configs, after, j, heats)
    {
      assert Supported(configs, before, j, heats);
      assert before[..j] == after[..j];
    }
  }

  lemma AttemptIsSupported(configs: Configs, target: string, order: seq<string>, k: nat, heats: string -> bool)
    requires IsDependencyOrder(configs, target, order) && k < |order|
    requires forall j :: 0 <= j < k ==> heats(order[j])
    ensures Supported(configs, order[..k + 1], k, heats)
  {
    var attempted := order[..k + 1];
    assert attempted[..k] == order[..k];
    forall v | Reaches(configs, attempted[k], v) && v != attempted[k]
      ensures v in attempted[..k] && heats(v)
    {
      var p :| PathFrom(configs, p, order[k], v);
      PathDescends(configs, order, p, order[k], v);
      var j :| 0 <= j < |order| && order[j] == v;
      assert order[..k][j] == v;
    }
  }

  // ----- the providers an arm change affects

  ghost predicate ClosedUnderDependents(configs: Configs, s: set<string>) {
    forall p :: p in configs && (exists d :: d in configs[p] && d in s) ==> p in s
  }

  /** The configured providers that reach the arm, and the arm. */
  ghost function Affected(configs: Configs, arm: string): set<string> {
    {arm} + set p | p in configs && Reaches(configs, p, arm)
  }

  /** `affected_provider_ids`: passes over the configurations until the set stops growing. */
  method AffectedProviderIds(configs: Configs, arm: string) returns (affected: set<string>)
    ensures affected == Affected(configs, arm)
    ensures arm in affected && ClosedUnderDependents(configs, affected)
    ensures forall s: set<string> :: arm in s && ClosedUnderDependents(configs, s) ==> affected <= s
  {
    affected := {arm};
    ReachesSelf(configs, arm);
    while true
      invariant arm in affected && affected <= Affected(configs, arm)
      decreases Affected(configs, arm) - affected
    {
      var before := affected;
      affected := OnePass(configs, arm, affected);
      if |affected| == |before| {
        SameSize(before, affected);
        ClosedContainsAffected(configs, arm, affected);
        forall s: set<string> | arm in s && ClosedUnderDependents(configs, s)
          ensures affected <= s
        {
          ClosedContainsAffected(configs, arm, s);
        }
        return;
      }
      assert affected != before;
      assert !(affected <= before);
      ghost var newcomer :| newcomer in affected && newcomer !in before;
      assert newcomer in Affected(configs, arm) - before;
    }
  }

  method OnePass(configs: Configs, arm: string, before: set<string>) returns (affected: set<string>)
    requires before <= Affected(configs, arm)
    ensures before <= affected <= Affected(configs, arm)
    ensures affected == before ==> ClosedUnderDependents(configs, affected)
  {
    affected := before;
    var pending := configs.Keys;
    while pending != {}
      invariant pending <= configs.Keys && before <= affected <= Affected(configs, arm)
      invariant forall p :: p in configs.Keys - pending && (exists d :: d in configs[p] && d in before) ==>
        p in affected
    {
      var id :| id in pending;
      pending := pending - {id};
      if exists d :: d in configs[id] && d in affected {
        var d :| d in configs[id] && d in affected;
        assert Reaches(configs, d, arm) by { ReachesSelf(configs, arm); }
        ReachesStep(configs, id, d, arm);
        affected := affected + {id};
      }
    }
  }

  lemma SameSize(a: set<string>, b: set<string>)
    requires a <= b && |a| == |b|
    ensures a == b
  {
    assert |b - a| == |b| - |a|;
  }

  lemma {:induction false} ClosedContainsPath(configs: Configs, s: set<string>, p: seq<string>, a: string, arm: string)
    requires PathFrom(configs, p, a, arm) && arm in s && ClosedUnderDependents(configs, s)
    ensures a in s
    decreases |p|
  {
    if |p| > 1 {
      assert Depends(configs, p[0], p[1]);
      forall j | 0 <= j < |p| - 2
        ensures Depends(configs, p[1..][j], p[1..][j + 1])
      {
        assert Depends(configs, p[j + 1], p[j + 2]);
      }
      ClosedContainsPath(configs, s, p[1..], p[1], arm);
    }
  }

  lemma ClosedContainsAffected(configs: Configs, arm: string, s: set<string>)
    requires arm in s && ClosedUnderDependents(configs, s)
    ensures Affected(configs, arm) <= s
  {
    forall a | a in configs && Reaches(configs, a, arm)
      ensures a in s
    {
      var p :| PathFrom(configs, p, a, arm);
      ClosedContainsPath(configs, s, p, a, arm);
    }
  }

  /** Dependents and dependencies are dual: a configured provider with an order is affected exactly when the arm
      occurs in its order. */
  lemma AffectedIffOrdered(configs: Configs, arm: string, p: string, order: seq<string>)
    requires p in configs && IsDependencyOrder(configs, p, order)
    ensures p in Affected(configs, arm) <==> arm in order
  {
    ReachesSelf(configs, arm);
  }
}
