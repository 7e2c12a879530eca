/** Class-instance evidence: which plan graphs are valid, and the depth-first
    pass that decides it. */
module Evidence {
  import opened Wrappers
  import opened Graphs
  import opened Types
  import opened Core

  function HeadArity(r: Resolution): nat {
    match r case Direct(arity) => arity case Entail(count) => count
  }

  function PremiseCount(r: Resolution): nat {
    match r case Direct(_) => 0 case Entail(count) => count
  }

  function PlanGraph(plans: seq<EvidencePlan>): (g: Graph)
    ensures |g| == |plans| && forall i :: 0 <= i < |g| ==> g[i] == plans[i].premises
  {
    seq(|plans|, i requires 0 <= i < |plans| => plans[i].premises)
  }

  /** The plan resolves its head by the manifest's instance, and supplies one
      premise of the same class for each head argument the instance entails. */
  ghost predicate LocallyValid(reg: Registry, types: TypeArena, plans: seq<EvidencePlan>, id: PlanId)
    requires PlansInArena(|types|, plans)
  {
    && id < |plans|
    && var plan := plans[id];
    && var spine := SpineOf(types, plan.head);
    && ConstructorName(types, spine.head).Some?
    && reg.instance(plan.cls, ConstructorName(types, spine.head).value) == Some(plan.resolution)
    && HeadArity(plan.resolution) == |spine.arguments|
    && PremiseCount(plan.resolution) == |plan.premises|
    && forall k :: 0 <= k < |plan.premises| ==>
         plan.premises[k] < |plans|
         && plans[plan.premises[k]].cls == plan.cls
         && plans[plan.premises[k]].head == spine.arguments[k]
  }

  /** Everything reachable from `root` is locally valid and no plan rests on
      itself. Sharing is allowed. */
  ghost predicate ValidEvidence(reg: Registry, types: TypeArena, plans: seq<EvidencePlan>, root: PlanId)
    requires PlansInArena(|types|, plans)
  {
    forall id :: Reaches(PlanGraph(plans), root, id) ==>
      LocallyValid(reg, types, plans, id) && !Leads(PlanGraph(plans), id, id)
  }

  method CheckPlan(reg: Registry, types: TypeArena, plans: seq<EvidencePlan>, id: PlanId) returns (ok: bool)
    requires PlansInArena(|types|, plans)
    ensures ok <==> LocallyValid(reg, types, plans, id)
  {
    if id >= |plans| {
      return false;
    }
    var plan := plans[id];
    var spine := UnwindApplication(types, plan.head);
    var name := ConstructorName(types, spine.head);
    if name.None? {
      return false;
    }
    var instance := reg.instance(plan.cls, name.value);
    if instance.None? || plan.resolution != instance.value
      || HeadArity(instance.value) != |spine.arguments|
      || |plan.premises| != PremiseCount(instance.value)
    {
      return false;
    }
    var index := 0;
    while index < |plan.premises|
      invariant 0 <= index <= |plan.premises|
      invariant forall k :: 0 <= k < index ==>
                  plan.premises[k] < |plans|
                  && plans[plan.premises[k]].cls == plan.cls
                  && plans[plan.premises[k]].head == spine.arguments[k]
    {
      var premise := plan.premises[index];
      if premise >= |plans| || plans[premise].cls != plan.cls || plans[premise].head != spine.arguments[index] {
        return false;
      }
      index := index + 1;
    }
    return true;
  }

  // -----------------------------------------------------------------------
  // The pass

  datatype Work = Enter(id: PlanId) | Leave(id: PlanId)

  /** What the work list promises: waiting work hangs below the plans being
      left, and every premise of those is finished or still waiting above. */
  ghost predicate WorkOrdered(g: Graph, root: PlanId, work: seq<Work>, post: seq<PlanId>) {
    && (forall j :: 0 <= j < |work| ==> Reaches(g, root, work[j].id))
    && (forall i, j :: 0 <= i < j < |work| && work[i].Leave? ==> Leads(g, work[i].id, work[j].id))
    && (forall i :: 0 <= i < |work| && work[i].Leave? ==> work[i].id < |g|)
    && (forall i, k :: 0 <= i < |work| && work[i].Leave? && 0 <= k < |g[work[i].id]| ==>
          Awaited(work, post, i, g[work[i].id][k]))
  }

  ghost predicate Awaited(work: seq<Work>, post: seq<PlanId>, i: nat, premise: PlanId) {
    premise in post || exists j :: i < j < |work| && work[j].id == premise
  }

  /** `active` is the set of plans being left; each is left once. */
  ghost predicate ActiveIsPending(work: seq<Work>, active: set<PlanId>) {
    && (forall i :: 0 <= i < |work| && work[i].Leave? ==> work[i].id in active)
    && (forall id :: id in active ==> Leave(id) in work)
    && (forall i, j :: 0 <= i < j < |work| && work[i].Leave? && work[j].Leave? ==> work[i].id != work[j].id)
  }

  /** `post` lists finished plans, each after all of its premises. */
  ghost predicate PostOrdered(g: Graph, post: seq<PlanId>) {
    forall k :: 0 <= k < |post| ==>
      post[k] < |g| && post[k] !in post[..k] && forall i :: 0 <= i < |g[post[k]]| ==> g[post[k]][i] in post[..k]
  }

  ghost predicate VisitedSplit(visited: set<PlanId>, active: set<PlanId>, post: seq<PlanId>) {
    && (forall id :: id in visited <==> id in active || id in post)
    && (forall id :: id in active ==> id !in post)
  }

  ghost predicate Search(reg: Registry, types: TypeArena, plans: seq<EvidencePlan>, root: PlanId, work: seq<Work>,
                         active: set<PlanId>, visited: set<PlanId>, post: seq<PlanId>)
    requires PlansInArena(|types|, plans)
  {
    && WorkOrdered(PlanGraph(plans), root, work, post)
    && ActiveIsPending(work, active)
    && PostOrdered(PlanGraph(plans), post)
    && VisitedSplit(visited, active, post)
    && (forall id :: id in visited ==> Reaches(PlanGraph(plans), root, id) && LocallyValid(reg, types, plans, id))
    && (root in visited || Enter(root) in work)
  }

  lemma LeaveWork(g: Graph, root: PlanId, work: seq<Work>, post: seq<PlanId>, id: PlanId)
    requires WorkOrdered(g, root, work + [Leave(id)], post)
    ensures id < |g| && Reaches(g, root, id) && forall i :: 0 <= i < |g[id]| ==> g[id][i] in post
    ensures WorkOrdered(g, root, work, post + [id])
  {
    var was, top := work + [Leave(id)], |work|;
    assert was[top] == Leave(id) && forall j :: 0 <= j < top ==> was[j] == work[j];
    forall i | 0 <= i < |g[id]| ensures g[id][i] in post {
      assert Awaited(was, post, top, g[was[top].id][i]);
    }
    forall i, k | 0 <= i < top && work[i].Leave? && 0 <= k < |g[work[i].id]|
      ensures Awaited(work, post + [id], i, g[work[i].id][k])
    {
      assert Awaited(was, post, i, g[was[i].id][k]);
    }
  }

  lemma LeaveActive(work: seq<Work>, active: set<PlanId>, id: PlanId)
    requires ActiveIsPending(work + [Leave(id)], active)
    ensures id in active && ActiveIsPending(work, active - {id})
  {
    var was, top := work + [Leave(id)], |work|;
    assert was[top] == Leave(id) && forall j :: 0 <= j < top ==> was[j] == work[j];
    forall a | a in active - {id} ensures Leave(a) in work {
      assert Leave(a) in was;
    }
  }

  lemma LeavePost(g: Graph, post: seq<PlanId>, id: PlanId)
    requires PostOrdered(g, post) && id < |g| && id !in post
    requires forall i :: 0 <= i < |g[id]| ==> g[id][i] in post
    ensures PostOrdered(g, post + [id])
  {
    var post' := post + [id];
    forall k | 0 <= k < |post'|
      ensures post'[k] < |g| && post'[k] !in post'[..k]
              && forall i :: 0 <= i < |g[post'[k]]| ==> g[post'[k]][i] in post'[..k]
    {
      assert post'[..k] == post[..k];
      if k == |post| {
        assert post[..k] == post;
      }
    }
  }

  lemma LeaveStep(reg: Registry, types: TypeArena, plans: seq<EvidencePlan>, root: PlanId, work: seq<Work>,
                  active: set<PlanId>, visited: set<PlanId>, post: seq<PlanId>, id: PlanId)
    requires PlansInArena(|types|, plans)
    requires Search(reg, types, plans, root, work + [Leave(id)], active, visited, post)
    ensures id in active
    ensures Search(reg, types, plans, root, work, active - {id}, visited, post + [id])
  {
    LeaveWork(PlanGraph(plans), root, work, post, id);
    LeaveActive(work, active, id);
    LeavePost(PlanGraph(plans), post, id);
    assert Enter(root) in work + [Leave(id)] ==> Enter(root) in work;
  }

  /** Entering a plan that is still being left: a plan rests on itself. */
  lemma EnterActive(reg: Registry, types: TypeArena, plans: seq<EvidencePlan>, root: PlanId, work: seq<Work>,
                    active: set<PlanId>, visited: set<PlanId>, post: seq<PlanId>, id: PlanId)
    requires PlansInArena(|types|, plans)
    requires Search(reg, types, plans, root, work + [Enter(id)], active, visited, post) && id in active
    ensures !ValidEvidence(reg, types, plans, root)
  {
    var was := work + [Enter(id)];
    assert was[|work|] == Enter(id);
    var i :| 0 <= i < |was| && was[i] == Leave(id);
    assert Leads(PlanGraph(plans), was[i].id, was[|work|].id);
  }

  lemma EnterInvalid(reg: Registry, types: TypeArena, plans: seq<EvidencePlan>, root: PlanId, work: seq<Work>,
                     active: set<PlanId>, visited: set<PlanId>, post: seq<PlanId>, id: PlanId)
    requires PlansInArena(|types|, plans)
    requires Search(reg, types, plans, root, work + [Enter(id)], active, visited, post)
    requires !LocallyValid(reg, types, plans, id)
    ensures !ValidEvidence(reg, types, plans, root)
  {
    assert (work + [Enter(id)])[|work|] == Enter(id);
  }

  lemma EnterFinished(reg: Registry, types: TypeArena, plans: seq<EvidencePlan>, root: PlanId, work: seq<Work>,
                      active: set<PlanId>, visited: set<PlanId>, post: seq<PlanId>, id: PlanId)
    requires PlansInArena(|types|, plans)
    requires Search(reg, types, plans, root, work + [Enter(id)], active, visited, post)
    requires id in visited && id !in active
    ensures Search(reg, types, plans, root, work, active, visited, post)
  {
    var g, was := PlanGraph(plans), work + [Enter(id)];
    assert was[|work|] == Enter(id) && forall j :: 0 <= j < |work| ==> was[j] == work[j];
    forall i, k | 0 <= i < |work| && work[i].Leave? && 0 <= k < |g[work[i].id]|
      ensures Awaited(work, post, i, g[work[i].id][k])
    {
      assert Awaited(was, post, i, g[was[i].id][k]);
    }
    forall a | a in active ensures Leave(a) in work {
      assert Leave(a) in was;
    }
  }

  function EnterAll(premises: seq<PlanId>): (w: seq<Work>)
    ensures |w| == |premises| && forall i :: 0 <= i < |w| ==> w[i] == Enter(premises[i])
  {
    seq(|premises|, i requires 0 <= i < |premises| => Enter(premises[i]))
  }

  lemma EnterWork(g: Graph, root: PlanId, work: seq<Work>, post: seq<PlanId>, id: PlanId, pushed: seq<Work>)
    requires WorkOrdered(g, root, work + [Enter(id)], post) && id < |g|
    requires pushed == EnterAll(Reversed(g[id]))
    ensures WorkOrdered(g, root, work + [Leave(id)] + pushed, post)
  {
    var was, now, top := work + [Enter(id)], work + [Leave(id)] + pushed, |work|;
    assert was[top] == Enter(id) && now[top] == Leave(id);
    assert forall j :: 0 <= j < top ==> was[j] == work[j] == now[j];
    forall j | top < j < |now|
      ensures Reaches(g, root, now[j].id) && now[j].Enter? && Leads(g, id, now[j].id)
      ensures forall i :: 0 <= i < top && was[i].Leave? ==> Leads(g, was[i].id, now[j].id)
    {
      assert now[j] == pushed[j - top - 1];
      EdgeLeads(g, id, |g[id]| - 1 - (j - top - 1));
      ReachesThenLeads(g, root, id, now[j].id);
      forall i | 0 <= i < top && was[i].Leave? ensures Leads(g, was[i].id, now[j].id) {
        assert Leads(g, was[i].id, was[top].id);
        ReachesThenLeads(g, was[i].id, id, now[j].id);
      }
    }
    forall i, k | 0 <= i < |now| && now[i].Leave? && 0 <= k < |g[now[i].id]|
      ensures Awaited(now, post, i, g[now[i].id][k])
    {
      if i == top {
        assert now[top + 1 + (|g[id]| - 1 - k)] == pushed[|g[id]| - 1 - k];
      } else {
        assert Awaited(was, post, i, g[was[i].id][k]);
      }
    }
  }

  lemma EnterNewActive(work: seq<Work>, active: set<PlanId>, id: PlanId, pushed: seq<Work>)
    requires ActiveIsPending(work + [Enter(id)], active) && id !in active
    requires forall j :: 0 <= j < |pushed| ==> pushed[j].Enter?
    ensures ActiveIsPending(work + [Leave(id)] + pushed, active + {id})
  {
    var was, now, top := work + [Enter(id)], work + [Leave(id)] + pushed, |work|;
    assert was[top] == Enter(id) && now[top] == Leave(id);
    assert forall j :: 0 <= j < top ==> was[j] == work[j] == now[j];
    assert forall j :: top < j < |now| ==> now[j] == pushed[j - top - 1];
    forall a | a in active + {id} ensures Leave(a) in now {
      if a != id {
        var i :| 0 <= i < |was| && was[i] == Leave(a);
        assert now[i] == Leave(a);
      }
    }
  }

  lemma EnterNew(reg: Registry, types: TypeArena, plans: seq<EvidencePlan>, root: PlanId, work: seq<Work>,
                 active: set<PlanId>, visited: set<PlanId>, post: seq<PlanId>, id: PlanId)
    requires PlansInArena(|types|, plans)
    requires Search(reg, types, plans, root, work + [Enter(id)], active, visited, post)
    requires id !in visited && LocallyValid(reg, types, plans, id)
    ensures Search(reg, types, plans, root, work + [Leave(id)] + EnterAll(Reversed(plans[id].premises)),
                   active + {id}, visited + {id}, post)
  {
    var pushed := EnterAll(Reversed(plans[id].premises));
    EnterWork(PlanGraph(plans), root, work, post, id, pushed);
    EnterNewActive(work, active, id, pushed);
    assert (work + [Enter(id)])[|work|] == Enter(id);
    assert forall w :: w in work ==> w in work + [Leave(id)] + pushed;
  }

  // -----------------------------------------------------------------------
  // A finished pass

  lemma {:induction false} FinishedCloses(g: Graph, post: seq<PlanId>, k: nat, path: seq<nat>)
    requires PostOrdered(g, post) && k < |post|
    ensures Walk(g, post[k], path).Some? ==> Walk(g, post[k], path).value in post[..k + 1]
    ensures Walk(g, post[k], path).Some? && path != [] ==> Walk(g, post[k], path).value in post[..k]
    decreases |path|
  {
    if path != [] && Walk(g, post[k], path).Some? {
      FinishedCloses(g, post, k, path[..|path| - 1]);
      var u := Walk(g, post[k], path[..|path| - 1]).value;
      var i :| 0 <= i <= k && post[i] == u;
      assert g[post[i]][path[|path| - 1]] in post[..i];
    }
  }

  lemma SearchDone(reg: Registry, types: TypeArena, plans: seq<EvidencePlan>, root: PlanId,
                   visited: set<PlanId>, active: set<PlanId>, post: seq<PlanId>)
    requires PlansInArena(|types|, plans)
    requires Search(reg, types, plans, root, [], active, visited, post)
    ensures ValidEvidence(reg, types, plans, root)
    ensures forall id :: id in visited <==> Reaches(PlanGraph(plans), root, id)
  {
    var g := PlanGraph(plans);
    var r :| 0 <= r < |post| && post[r] == root;
    forall id | Reaches(g, root, id) ensures id in post && !Leads(g, id, id) {
      var path :| Walk(g, root, path) == Some(id);
      FinishedCloses(g, post, r, path);
      var k :| 0 <= k < |post| && post[k] == id;
      if Leads(g, id, id) {
        var loop :| loop != [] && Walk(g, id, loop) == Some(id);
        FinishedCloses(g, post, k, loop);
      }
    }
  }

  lemma SearchStarts(reg: Registry, types: TypeArena, plans: seq<EvidencePlan>, root: PlanId)
    requires PlansInArena(|types|, plans)
    ensures Search(reg, types, plans, root, [Enter(root)], {}, {}, [])
  {
    assert Walk(PlanGraph(plans), root, []) == Some(root);
  }

  /** The iterative pass over Enter and Leave work. `Some` exactly for valid
      evidence, and then with exactly the reachable plans. */
  method ValidateGraph(reg: Registry, types: TypeArena, plans: seq<EvidencePlan>, root: PlanId)
    returns (reachable: Option<set<PlanId>>)
    requires PlansInArena(|types|, plans)
    ensures reachable.Some? <==> ValidEvidence(reg, types, plans, root)
    ensures reachable.Some? ==> forall id :: id in reachable.value <==> Reaches(PlanGraph(plans), root, id)
  {
    hide Search, ValidEvidence, LocallyValid;
    var work := [Enter(root)];
    var active: set<PlanId>, visited: set<PlanId> := {}, {};
    ghost var post: seq<PlanId> := [];
    ghost var all := Ids(|plans|);
    SearchStarts(reg, types, plans, root);
    while work != []
      invariant Search(reg, types, plans, root, work, active, visited, post)
      invariant visited <= all
      decreases all - visited, |work|
    {
      var item := work[|work| - 1];
      assert work == work[..|work| - 1] + [item];
      work := work[..|work| - 1];
      match item
      case Leave(id) =>
        LeaveStep(reg, types, plans, root, work, active, visited, post, id);
        if id !in active {
          return None;
        }
        active := active - {id};
        post := post + [id];
      case Enter(id) =>
        if id in active {
          EnterActive(reg, types, plans, root, work, active, visited, post, id);
          return None;
        }
        if id in visited {
          EnterFinished(reg, types, plans, root, work, active, visited, post, id);
        } else {
          var ok := CheckPlan(reg, types, plans, id);
          if !ok {
            EnterInvalid(reg, types, plans, root, work, active, visited, post, id);
            return None;
          }
          ValidIsInBounds(reg, types, plans, id);
          EnterNew(reg, types, plans, root, work, active, visited, post, id);
          active := active + {id};
          visited := visited + {id};
          work := work + [Leave(id)] + EnterAll(Reversed(plans[id].premises));
        }
    }
    SearchDone(reg, types, plans, root, visited, active, post);
    return Some(visited);
  }

  lemma ValidIsInBounds(reg: Registry, types: TypeArena, plans: seq<EvidencePlan>, id: PlanId)
    requires PlansInArena(|types|, plans) && LocallyValid(reg, types, plans, id)
    ensures id < |plans|
  {}
}
