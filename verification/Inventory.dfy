/** The evidence inventory: the program carries exactly the plans that its
    constrained builtins use. */
module Inventory {
  import opened Wrappers
  import opened Graphs
  import opened Types
  import opened Core
  import opened Evidence

  /** The evidence plans named by builtin nodes, in node order. Unreachable
      nodes take part. */
  function EvidenceRoots(nodes: seq<CoreNode>): seq<PlanId> {
    if nodes == [] then []
    else
      (match nodes[0].kind
       case Builtin(_, Some(evidence)) => [evidence.plan]
       case _ => [])
      + EvidenceRoots(nodes[1..])
  }

  ghost predicate DistinctIdentities(plans: seq<EvidencePlan>) {
    forall i, j :: 0 <= i < j < |plans| ==> (plans[i].cls, plans[i].head) != (plans[j].cls, plans[j].head)
  }

  /** Some valid evidence root reaches the plan. */
  ghost predicate Used(reg: Registry, types: TypeArena, plans: seq<EvidencePlan>, roots: seq<PlanId>, id: PlanId)
    requires PlansInArena(|types|, plans)
  {
    exists k ::
      0 <= k < |roots| && ValidEvidence(reg, types, plans, roots[k]) && Reaches(PlanGraph(plans), roots[k], id)
  }

  /** What the code accepts: every root but the first must be valid, the plans
      used by valid roots are all the plans, and no two plans share an identity. */
  ghost predicate Exact(reg: Registry, types: TypeArena, plans: seq<EvidencePlan>, roots: seq<PlanId>)
    requires PlansInArena(|types|, plans)
  {
    if roots == [] then plans == []
    else
      && (forall k :: 1 <= k < |roots| ==> ValidEvidence(reg, types, plans, roots[k]))
      && (forall id: PlanId :: id < |plans| ==> Used(reg, types, plans, roots, id))
      && DistinctIdentities(plans)
  }

  ghost predicate CollectsUsed(reg: Registry, types: TypeArena, plans: seq<EvidencePlan>, roots: seq<PlanId>,
                               found: set<PlanId>)
    requires PlansInArena(|types|, plans)
  {
    forall id :: id in found <==> Used(reg, types, plans, roots, id)
  }

  lemma CollectNext(reg: Registry, types: TypeArena, plans: seq<EvidencePlan>, roots: seq<PlanId>,
                    found: set<PlanId>, root: PlanId, more: set<PlanId>)
    requires PlansInArena(|types|, plans)
    requires CollectsUsed(reg, types, plans, roots, found)
    requires ValidEvidence(reg, types, plans, root) ==> forall id :: id in more <==> Reaches(PlanGraph(plans), root, id)
    requires !ValidEvidence(reg, types, plans, root) ==> more == {}
    ensures CollectsUsed(reg, types, plans, roots + [root], found + more)
  {
    var roots' := roots + [root];
    assert roots'[|roots|] == root && forall k :: 0 <= k < |roots| ==> roots'[k] == roots[k];
    forall id ensures id in found + more <==> Used(reg, types, plans, roots', id) {
      if Used(reg, types, plans, roots, id) {
        var k :| 0 <= k < |roots| && ValidEvidence(reg, types, plans, roots[k])
                 && Reaches(PlanGraph(plans), roots[k], id);
        assert roots'[k] == roots[k];
      }
    }
  }

  lemma UsedInBounds(reg: Registry, types: TypeArena, plans: seq<EvidencePlan>, roots: seq<PlanId>, id: PlanId)
    requires PlansInArena(|types|, plans)
    requires Used(reg, types, plans, roots, id)
    ensures id < |plans|
  {}

  /** The reachable sets fill the inventory exactly when they have its size. */
  lemma CountUsed(reg: Registry, types: TypeArena, plans: seq<EvidencePlan>, roots: seq<PlanId>, found: set<PlanId>)
    requires PlansInArena(|types|, plans)
    requires CollectsUsed(reg, types, plans, roots, found)
    ensures |found| == |plans| <==> forall id: PlanId :: id < |plans| ==> Used(reg, types, plans, roots, id)
  {
    forall id | id in found ensures id < |plans| {
      UsedInBounds(reg, types, plans, roots, id);
    }
    FullSubset(found, |plans|);
  }

  method IdentitiesDistinct(plans: seq<EvidencePlan>) returns (distinct: bool)
    ensures distinct <==> DistinctIdentities(plans)
  {
    var identities: set<(TypeClass, TypeId)> := {};
    var n := 0;
    while n < |plans|
      invariant 0 <= n <= |plans|
      invariant forall i :: 0 <= i < n ==> (plans[i].cls, plans[i].head) in identities
      invariant forall identity :: identity in identities ==>
                  exists i :: 0 <= i < n && (plans[i].cls, plans[i].head) == identity
      invariant DistinctIdentities(plans[..n])
    {
      var identity := (plans[n].cls, plans[n].head);
      if identity in identities {
        return false;
      }
      identities := identities + {identity};
      n := n + 1;
    }
    assert plans[..n] == plans;
    return true;
  }

  method InventoryIsExact(reg: Registry, types: TypeArena, plans: seq<EvidencePlan>, nodes: seq<CoreNode>)
    returns (exact: bool)
    requires PlansInArena(|types|, plans)
    ensures exact <==> Exact(reg, types, plans, EvidenceRoots(nodes))
  {
    hide ValidEvidence, CollectsUsed, Used;
    var roots := EvidenceRoots(nodes);
    if roots == [] {
      return plans == [];
    }
    var first := ValidateGraph(reg, types, plans, roots[0]);
    var reachable := if first.Some? then first.value else {};
    CollectNone(reg, types, plans);
    CollectNext(reg, types, plans, [], {}, roots[0], reachable);
    assert [] + [roots[0]] == roots[..1] && {} + reachable == reachable;
    var n := 1;
    while n < |roots|
      invariant 1 <= n <= |roots|
      invariant CollectsUsed(reg, types, plans, roots[..n], reachable)
      invariant forall k :: 1 <= k < n ==> ValidEvidence(reg, types, plans, roots[k])
    {
      var more := ValidateGraph(reg, types, plans, roots[n]);
      if more.None? {
        return false;
      }
      CollectNext(reg, types, plans, roots[..n], reachable, roots[n], more.value);
      assert roots[..n] + [roots[n]] == roots[..n + 1];
      reachable := reachable + more.value;
      n := n + 1;
    }
    assert roots[..n] == roots;
    CountUsed(reg, types, plans, roots, reachable);
    if |reachable| != |plans| {
      return false;
    }
    exact := IdentitiesDistinct(plans);
  }

  lemma CollectNone(reg: Registry, types: TypeArena, plans: seq<EvidencePlan>)
    requires PlansInArena(|types|, plans)
    ensures CollectsUsed(reg, types, plans, [], {})
  {}

  // -----------------------------------------------------------------------
  // What an exact inventory guarantees

  lemma ValidityIsInherited(reg: Registry, types: TypeArena, plans: seq<EvidencePlan>, root: PlanId, id: PlanId)
    requires PlansInArena(|types|, plans)
    requires ValidEvidence(reg, types, plans, root) && Reaches(PlanGraph(plans), root, id)
    ensures ValidEvidence(reg, types, plans, id)
  {
    var g := PlanGraph(plans);
    forall to: PlanId | Reaches(g, id, to) ensures Reaches(g, root, to) {
      var p :| Walk(g, root, p) == Some(id);
      var q :| Walk(g, id, q) == Some(to);
      WalkOn(g, root, p, q);
    }
  }

  /** Every plan of an exact inventory is used by some valid root, is valid
      itself and does not rest on itself; identities never repeat. */
  lemma ExactInventoryIsSound(reg: Registry, types: TypeArena, plans: seq<EvidencePlan>, roots: seq<PlanId>)
    requires PlansInArena(|types|, plans)
    requires Exact(reg, types, plans, roots)
    ensures forall id: PlanId :: id < |plans| ==>
              Used(reg, types, plans, roots, id) && ValidEvidence(reg, types, plans, id)
              && LocallyValid(reg, types, plans, id) && !Leads(PlanGraph(plans), id, id)
    ensures DistinctIdentities(plans)
  {
    forall id: PlanId | id < |plans|
      ensures Used(reg, types, plans, roots, id) && ValidEvidence(reg, types, plans, id)
      ensures LocallyValid(reg, types, plans, id) && !Leads(PlanGraph(plans), id, id)
    {
      assert Used(reg, types, plans, roots, id);
      var k :| 0 <= k < |roots| && ValidEvidence(reg, types, plans, roots[k])
               && Reaches(PlanGraph(plans), roots[k], id);
      ValidityIsInherited(reg, types, plans, roots[k], id);
      assert Walk(PlanGraph(plans), id, []) == Some(id);
    }
  }

  /** The code does not reject an invalid first root. In an exact inventory that
      root is valid exactly when it names a plan at all. */
  lemma FirstRootValidIffInBounds(reg: Registry, types: TypeArena, plans: seq<EvidencePlan>, roots: seq<PlanId>)
    requires PlansInArena(|types|, plans)
    requires Exact(reg, types, plans, roots) && roots != []
    ensures ValidEvidence(reg, types, plans, roots[0]) <==> roots[0] < |plans|
  {
    if roots[0] < |plans| {
      ExactInventoryIsSound(reg, types, plans, roots);
    } else {
      assert Walk(PlanGraph(plans), roots[0], []) == Some(roots[0]);
      assert Reaches(PlanGraph(plans), roots[0], roots[0]) && !LocallyValid(reg, types, plans, roots[0]);
    }
  }
}
