/** `verify`: the independent check that seals a core program for execution. */
module Verifier {
  import opened Wrappers
  import opened Graphs
  import opened Types
  import opened Core
  import opened Evidence
  import opened Inventory
  import opened Judgement
  import opened Infer
  import opened Typing

  // -----------------------------------------------------------------------
  // Nominal layouts

  function RecordLayoutOf(kind: CoreKind): Option<RecordLayout> {
    match kind
    case Record(layout, _) => Some(layout)
    case RecordGet(layout, _, _) => Some(layout)
    case RecordSet(layout, _, _, _) => Some(layout)
    case RecordModify(layout, _, _, _) => Some(layout)
    case _ => None
  }

  function VariantLayoutOf(kind: CoreKind): Option<VariantLayout> {
    match kind
    case Variant(shape, _, _) => Some(shape)
    case Case(_, shape, _, _) => Some(shape)
    case _ => None
  }

  ghost predicate RecordsAgree(a: Option<RecordLayout>, b: Option<RecordLayout>) {
    a.Some? && b.Some? && a.value.typeName == b.value.typeName ==> a == b
  }

  ghost predicate VariantsAgree(a: Option<VariantLayout>, b: Option<VariantLayout>) {
    a.Some? && b.Some? && a.value.typeName == b.value.typeName ==> a == b
  }

  /** Layouts of one nominal type are the same everywhere, reachable or not. */
  ghost predicate LayoutsAgree(nodes: seq<CoreNode>) {
    forall i, j :: 0 <= i < |nodes| && 0 <= j < |nodes| ==>
      RecordsAgree(RecordLayoutOf(nodes[i].kind), RecordLayoutOf(nodes[j].kind))
      && VariantsAgree(VariantLayoutOf(nodes[i].kind), VariantLayoutOf(nodes[j].kind))
  }

  method CheckLayouts(nodes: seq<CoreNode>) returns (ok: bool)
    ensures ok <==> LayoutsAgree(nodes)
  {
    var records: map<string, RecordLayout> := map[];
    var variants: map<string, VariantLayout> := map[];
    var n := 0;
    while n < |nodes|
      invariant 0 <= n <= |nodes|
      invariant forall i :: 0 <= i < n && RecordLayoutOf(nodes[i].kind).Some? ==>
                  var layout := RecordLayoutOf(nodes[i].kind).value;
                  layout.typeName in records && records[layout.typeName] == layout
      invariant forall name :: name in records ==>
                  records[name].typeName == name
                  && exists i :: 0 <= i < n && RecordLayoutOf(nodes[i].kind) == Some(records[name])
      invariant forall i :: 0 <= i < n && VariantLayoutOf(nodes[i].kind).Some? ==>
                  var layout := VariantLayoutOf(nodes[i].kind).value;
                  layout.typeName in variants && variants[layout.typeName] == layout
      invariant forall name :: name in variants ==>
                  variants[name].typeName == name
                  && exists i :: 0 <= i < n && VariantLayoutOf(nodes[i].kind) == Some(variants[name])
    {
      var record := RecordLayoutOf(nodes[n].kind);
      if record.Some? {
        var previous := if record.value.typeName in records then Some(records[record.value.typeName]) else None;
        records := records[record.value.typeName := record.value];
        if previous.Some? && previous.value != record.value {
          return false;
        }
      }
      var variant := VariantLayoutOf(nodes[n].kind);
      if variant.Some? {
        var previous := if variant.value.typeName in variants then Some(variants[variant.value.typeName]) else None;
        variants := variants[variant.value.typeName := variant.value];
        if previous.Some? && previous.value != variant.value {
          return false;
        }
      }
      n := n + 1;
    }
    return true;
  }

  // -----------------------------------------------------------------------
  // The verifier

  /** Why a program was refused. */
  datatype Refusal =
    | RootOutOfBounds | LayoutConflict | NotATree(graphFault: GraphFault) | Untyped(reason: Reason)
    | MainTypeDiffers | InventoryNotExact | MainNotIoUnit

  ghost predicate MainIsIoUnit(p: CoreProgram)
    requires InArena(p)
  {
    && p.types[p.mainType].Apply?
    && (assert p.types[p.mainType].callee in Parts(p.types[p.mainType]);
        assert p.types[p.mainType].argument in Parts(p.types[p.mainType]);
        ConstructorName(p.types, p.types[p.mainType].callee) == Some("IO")
        && ConstructorName(p.types, p.types[p.mainType].argument) == Some("()"))
  }

  /** What it means for a program to be fit for execution. */
  ghost predicate Executable(reg: Registry, p: CoreProgram)
    requires InArena(p)
  {
    && p.root < |p.nodes|
    && LayoutsAgree(p.nodes)
    && IsTree(Edges(p), p.root)
    && WellTyped(reg, p)
    && Exact(reg, p.types, p.plans, EvidenceRoots(p.nodes))
    && MainIsIoUnit(p)
  }

  /** The stages before typing pass. */
  ghost predicate Shaped(p: CoreProgram) {
    p.root < |p.nodes| && LayoutsAgree(p.nodes) && IsTree(Edges(p), p.root)
  }

  /** Accepts exactly the executable programs, and returns them unchanged. The
      first failing stage decides the error. */
  method Verify(reg: Registry, p: CoreProgram) returns (r: Result<CoreProgram, Refusal>)
    requires InArena(p)
    ensures r.Ok? <==> Executable(reg, p)
    ensures r.Ok? ==> r.value == p
    ensures r == Err(RootOutOfBounds) <==> p.root >= |p.nodes|
    ensures r == Err(LayoutConflict) <==> p.root < |p.nodes| && !LayoutsAgree(p.nodes)
    ensures r.Err? && r.error.NotATree? <==>
              p.root < |p.nodes| && LayoutsAgree(p.nodes) && !IsTree(Edges(p), p.root)
    ensures r.Err? && r.error.Untyped? <==> Shaped(p) && !EveryNodeOk(reg, p)
    ensures r == Err(MainTypeDiffers) <==> Shaped(p) && EveryNodeOk(reg, p) && p.nodes[p.root].ty != p.mainType
    ensures r == Err(InventoryNotExact) <==>
              Shaped(p) && WellTyped(reg, p) && !Exact(reg, p.types, p.plans, EvidenceRoots(p.nodes))
  {
    hide LayoutsAgree, IsTree, WellTyped, EveryNodeOk, Exact;
    if p.root >= |p.nodes| {
      return Err(RootOutOfBounds);
    }
    var agree := CheckLayouts(p.nodes);
    if !agree {
      return Err(LayoutConflict);
    }
    var cut := CheckTree(Edges(p), p.root);
    if cut.Some? {
      return Err(NotATree(cut.value));
    }
    var fault, rootType, pops, reached := TypingPass(reg, p);
    WellTypedByPaths(reg, p);
    if fault.Some? {
      return Err(Untyped(fault.value));
    }
    if rootType != Some(p.mainType) {
      return Err(MainTypeDiffers);
    }
    var exact := InventoryIsExact(reg, p.types, p.plans, p.nodes);
    if !exact {
      return Err(InventoryNotExact);
    }
    match p.types[p.mainType]
    case Apply(io, unit) =>
      assert io in Parts(p.types[p.mainType]) && unit in Parts(p.types[p.mainType]);
      if ConstructorName(p.types, io) != Some("IO") || ConstructorName(p.types, unit) != Some("()") {
        return Err(MainNotIoUnit);
      }
      return Ok(p);
    case _ => return Err(MainNotIoUnit);
  }

  // -----------------------------------------------------------------------
  // What execution may rely on

  /** Along every path of an accepted program: the node exists, no other path
      leads to it, and it obeys its rule under the binders on the path. */
  lemma AcceptedNodes(reg: Registry, p: CoreProgram, path: seq<nat>)
    requires InArena(p) && Executable(reg, p)
    requires Walk(Edges(p), p.root, path).Some?
    ensures ChildrenInBounds(p, Walk(Edges(p), p.root, path).value) && TypesInArena(p.types, EnvAt(p, path))
    ensures NodeOk(reg, p, EnvAt(p, path), Walk(Edges(p), p.root, path).value)
    ensures forall other :: Walk(Edges(p), p.root, other) == Walk(Edges(p), p.root, path) ==> other == path
  {
    WellTypedByPaths(reg, p);
    NodeOkAt(reg, p, path);
  }

  /** No de Bruijn index of an accepted program points outside its binders. */
  lemma AcceptedVariablesInScope(reg: Registry, p: CoreProgram, path: seq<nat>)
    requires InArena(p) && Executable(reg, p)
    requires Walk(Edges(p), p.root, path).Some? && Walk(Edges(p), p.root, path).value < |p.nodes|
    requires p.nodes[Walk(Edges(p), p.root, path).value].kind.BoundVar?
    ensures p.nodes[Walk(Edges(p), p.root, path).value].kind.deBruijn < |EnvAt(p, path)|
  {
    AcceptedNodes(reg, p, path);
  }

  /** An accepted case handles each constructor of its layout by exactly one
      branch or, when no branch names it, by the default. */
  lemma AcceptedCasesAreTotal(reg: Registry, p: CoreProgram, path: seq<nat>, c: nat)
    requires InArena(p) && Executable(reg, p)
    requires Walk(Edges(p), p.root, path).Some? && Walk(Edges(p), p.root, path).value < |p.nodes|
    requires var kind := p.nodes[Walk(Edges(p), p.root, path).value].kind;
             kind.Case? && c < |kind.shape.constructors|
    ensures var kind := p.nodes[Walk(Edges(p), p.root, path).value].kind;
            if HandledBy(kind.branches, c)
            then exists i :: 0 <= i < |kind.branches| && kind.branches[i].constructorIndex == c
                   && kind.branches[i].payloadType == kind.shape.constructors[c].payload
                   && forall j :: 0 <= j < |kind.branches| && kind.branches[j].constructorIndex == c ==> j == i
            else kind.default.Some?
  {
    AcceptedNodes(reg, p, path);
    var kind := p.nodes[Walk(Edges(p), p.root, path).value].kind;
    assert BranchesFit(kind.shape, kind.branches, kind.default.Some?);
    if HandledBy(kind.branches, c) {
      var i :| 0 <= i < |kind.branches| && kind.branches[i].constructorIndex == c;
      forall j | 0 <= j < |kind.branches| && kind.branches[j].constructorIndex == c ensures j == i {
        assert i < j || j < i || i == j;
      }
    }
  }

  /** A reachable constrained builtin of an accepted program names evidence of
      its own class whose whole graph is valid, and every plan the program
      carries is valid, well founded and used. */
  lemma AcceptedEvidence(reg: Registry, p: CoreProgram, path: seq<nat>)
    requires InArena(p) && Executable(reg, p)
    requires Walk(Edges(p), p.root, path).Some? && Walk(Edges(p), p.root, path).value < |p.nodes|
    requires var kind := p.nodes[Walk(Edges(p), p.root, path).value].kind;
             kind.Builtin? && kind.evidence.Some?
    ensures var evidence := p.nodes[Walk(Edges(p), p.root, path).value].kind.evidence.value;
            EvidenceSupports(reg, p.types, p.plans, evidence)
    ensures forall id: PlanId :: id < |p.plans| ==>
              Used(reg, p.types, p.plans, EvidenceRoots(p.nodes), id)
              && LocallyValid(reg, p.types, p.plans, id) && !Leads(PlanGraph(p.plans), id, id)
  {
    AcceptedNodes(reg, p, path);
    ExactInventoryIsSound(reg, p.types, p.plans, EvidenceRoots(p.nodes));
  }

  // -----------------------------------------------------------------------
  // A program whose evidence is not valid

  /** `IO ()`, a root of that type, and a second builtin that nothing refers to
      and that names a plan the program does not have. */
  function DanglingProgram(evidence: ClassEvidence): (p: CoreProgram)
    ensures |p.types| == 3
  {
    var types := [Constructor("IO", 0), Constructor("()", 0), Apply(0, 1)];
    var nodes := [CoreNode(2, Builtin(0, None)), CoreNode(2, Builtin(0, Some(evidence)))];
    CoreProgram(0, nodes, types, 2, [])
  }

  /** A program with a plain builtin of type `IO ()` passes although its first
      evidence root, at an unreachable builtin, is not valid. */
  lemma DanglingFirstRootAccepted(reg: Registry, evidence: ClassEvidence)
    requires evidence.head < 3
    requires reg.specs != [] && reg.specs[0].available && reg.specs[0].typeClass.None?
    requires reg.plausible(DanglingProgram(evidence).types, reg.specs[0].name, 2)
    ensures var p := DanglingProgram(evidence);
            && InArena(p) && Executable(reg, p) && EvidenceRoots(p.nodes) == [evidence.plan]
            && !ValidEvidence(reg, p.types, p.plans, evidence.plan)
  {
    hide IsTree, ValidEvidence;
    var p := DanglingProgram(evidence);
    assert p.nodes[1..] == [p.nodes[1]] && p.nodes[1..][1..] == [];
    assert EvidenceRoots(p.nodes[1..]) == [evidence.plan];
    NoPlanIsInvalid(reg, p.types, evidence.plan);
    OneNodeIsTree(p);
    assert WellTyped(reg, p) by {
      assert Derives(reg, p, [], Derivation(0, 2, []));
    }
  }

  lemma NoPlanIsInvalid(reg: Registry, types: TypeArena, root: PlanId)
    ensures !ValidEvidence(reg, types, [], root)
  {
    assert Walk(PlanGraph([]), root, []) == Some(root);
    assert Reaches(PlanGraph([]), root, root) && !LocallyValid(reg, types, [], root);
  }

  lemma OneNodeIsTree(p: CoreProgram)
    requires p.root < |p.nodes| && p.nodes[p.root].kind.Builtin?
    ensures IsTree(Edges(p), p.root)
  {
    forall path: seq<nat> | Walk(Edges(p), p.root, path).Some? ensures path == [] {
      StaysAtLeaf(Edges(p), p.root, path);
    }
  }

  lemma {:induction false} StaysAtLeaf(g: Graph, leaf: nat, path: seq<nat>)
    requires leaf < |g| && g[leaf] == [] && Walk(g, leaf, path).Some?
    ensures path == []
  {
    if path != [] {
      StaysAtLeaf(g, leaf, path[..|path| - 1]);
    }
  }
}
