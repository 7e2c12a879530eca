/** The declarative typing judgement of the core, by derivation trees. Nothing
    here mentions work lists, colours or recomputed types. */
module Judgement {
  import opened Wrappers
  import opened Graphs
  import opened Types
  import opened Core
  import opened Evidence

  ghost predicate TypesInArena(types: TypeArena, tys: seq<TypeId>) {
    forall i :: 0 <= i < |tys| ==> tys[i] < |types|
  }

  function TupleName(arity: nat): string
    requires 2 <= arity <= 4
  {
    if arity == 2 then "(,)" else if arity == 3 then "(,,)" else "(,,,)"
  }

  function ConstantTypeName(c: Constant): string {
    match c
    case UnitConstant => "()"
    case BoolConstant => "Bool"
    case IntConstant => "Int"
    case DoubleConstant => "Double"
    case CharacterConstant => "Char"
    case TextConstant => "Text"
  }

  /** `ty` is the tuple type of exactly these element types. */
  predicate IsTupleOf(types: TypeArena, ty: TypeId, elements: seq<TypeId>)
    requires ty < |types|
  {
    && 2 <= |elements| <= 4
    && ConstructorName(types, SpineOf(types, ty).head) == Some(TupleName(|elements|))
    && SpineOf(types, ty).arguments == elements
  }

  function ProjectHead(types: TypeArena, steps: seq<HeadStep>, ty: TypeId): Option<TypeId>
    requires ty < |types|
    decreases |steps|
  {
    if steps == [] then Some(ty)
    else
      var rest := steps[1..];
      match steps[0]
      case FunctionArgument(index) =>
        var arrows := ArrowsOf(types, ty);
        if index < |arrows.parameters| then ProjectHead(types, rest, arrows.parameters[index]) else None
      case FunctionResult => ProjectHead(types, rest, ArrowsOf(types, ty).result)
      case ApplyFunction =>
        if types[ty].Apply? then
          assert types[ty].callee in Parts(types[ty]);
          ProjectHead(types, rest, types[ty].callee)
        else None
      case ApplyArgument =>
        if types[ty].Apply? then
          assert types[ty].argument in Parts(types[ty]);
          ProjectHead(types, rest, types[ty].argument)
        else None
  }

  function InstanceHead(reg: Registry, types: TypeArena, name: string, ty: TypeId): Option<TypeId>
    requires ty < |types|
  {
    var steps := reg.projection(name);
    if steps.None? then None else ProjectHead(types, steps.value, ty)
  }

  ghost predicate EvidenceSupports(reg: Registry, types: TypeArena, plans: seq<EvidencePlan>, evidence: ClassEvidence)
    requires PlansInArena(|types|, plans)
  {
    && evidence.plan < |plans|
    && plans[evidence.plan].cls == evidence.cls
    && plans[evidence.plan].head == evidence.head
    && ValidEvidence(reg, types, plans, evidence.plan)
  }

  // -----------------------------------------------------------------------
  // One rule per kind of node. `env` lists the binder types from the outermost
  // in, `premises` the types of the children, `ty` the type concluded.

  predicate VariableRule(types: TypeArena, env: seq<TypeId>, deBruijn: nat, projection: Projection, ty: TypeId)
    requires TypesInArena(types, env)
  {
    && deBruijn < |env|
    && var bound := env[|env| - 1 - deBruijn];
    && match projection
       case Identity => ty == bound
       case TupleElement(arity, index) =>
         var arguments := SpineOf(types, bound).arguments;
         |arguments| == arity && IsTupleOf(types, bound, arguments) && index < arity && ty == arguments[index]
  }

  ghost predicate BuiltinRule(reg: Registry, types: TypeArena, plans: seq<EvidencePlan>,
                              builtin: nat, evidence: Option<ClassEvidence>, ty: TypeId)
    requires PlansInArena(|types|, plans) && ty < |types|
  {
    && builtin < |reg.specs|
    && var spec := reg.specs[builtin];
    && spec.available
    && reg.plausible(types, spec.name, ty)
    && match (spec.typeClass, evidence)
       case (None, None) => true
       case (Some(expected), Some(actual)) =>
         && expected == actual.cls
         && InstanceHead(reg, types, spec.name, ty) == Some(actual.head)
         && EvidenceSupports(reg, types, plans, actual)
       case _ => false
  }

  function FieldTypes(layout: RecordLayout): seq<TypeId> {
    seq(|layout.fields|, i requires 0 <= i < |layout.fields| => layout.fields[i].ty)
  }

  ghost predicate HandledBy(branches: seq<CaseBranch>, c: nat) {
    exists i :: 0 <= i < |branches| && branches[i].constructorIndex == c
  }

  /** Branches fit the layout, no constructor is handled twice, and without a
      default every constructor is handled. */
  ghost predicate BranchesFit(shape: VariantLayout, branches: seq<CaseBranch>, hasDefault: bool) {
    && (forall i :: 0 <= i < |branches| ==>
          branches[i].constructorIndex < |shape.constructors|
          && shape.constructors[branches[i].constructorIndex].payload == branches[i].payloadType)
    && (forall i, j :: 0 <= i < j < |branches| ==> branches[i].constructorIndex != branches[j].constructorIndex)
    && (hasDefault || forall c: nat :: c < |shape.constructors| ==> HandledBy(branches, c))
  }

  ghost predicate Rule(reg: Registry, types: TypeArena, plans: seq<EvidencePlan>, env: seq<TypeId>,
                       kind: CoreKind, premises: seq<TypeId>, ty: TypeId)
    requires PlansInArena(|types|, plans) && TypesInArena(types, env) && TypesInArena(types, premises)
    requires ty < |types| && |premises| == |Children(kind)|
  {
    match kind
    case BoundVar(deBruijn, projection) => VariableRule(types, env, deBruijn, projection, ty)
    case Lambda(parameterType, _) => types[ty] == Function(parameterType, premises[0])
    case Application(_, _) => types[premises[0]] == Function(premises[1], ty)
    case Literal(constant) => ConstructorName(types, ty) == Some(ConstantTypeName(constant))
    case Builtin(builtin, evidence) => BuiltinRule(reg, types, plans, builtin, evidence, ty)
    case Tuple(_) => IsTupleOf(types, ty, premises)
    case List(_) =>
      && types[ty].Apply?
      && (assert types[ty].callee in Parts(types[ty]); ConstructorName(types, types[ty].callee) == Some("[]"))
      && forall i :: 0 <= i < |premises| ==> premises[i] == types[ty].argument
    case Record(layout, _) =>
      HeadName(types, ty) == Some(layout.typeName) && premises == FieldTypes(layout)
    case RecordGet(layout, index, _) =>
      && index < |layout.fields|
      && HeadName(types, premises[0]) == Some(layout.typeName)
      && ty == layout.fields[index].ty
    case RecordSet(layout, index, _, _) =>
      && index < |layout.fields|
      && HeadName(types, ty) == Some(layout.typeName)
      && premises == [layout.fields[index].ty, ty]
    case RecordModify(layout, index, _, _) =>
      && index < |layout.fields|
      && HeadName(types, ty) == Some(layout.typeName)
      && premises[1] == ty
      && types[premises[0]] == Function(layout.fields[index].ty, layout.fields[index].ty)
    case Variant(shape, index, payload) =>
      && HeadName(types, ty) == Some(shape.typeName)
      && index < |shape.constructors|
      && (match shape.constructors[index].payload
          case None => premises == []
          case Some(expected) => premises == [expected])
    case Case(_, shape, branches, default) =>
      && HeadName(types, premises[0]) == Some(shape.typeName)
      && BranchesFit(shape, branches, default.Some?)
      && forall i :: 1 <= i < |premises| ==> premises[i] == ty
  }

  // -----------------------------------------------------------------------
  // Derivations

  datatype Derivation = Derivation(id: CoreId, ty: TypeId, premises: seq<Derivation>)

  function Conclusions(premises: seq<Derivation>): (tys: seq<TypeId>)
    ensures |tys| == |premises| && forall k :: 0 <= k < |tys| ==> tys[k] == premises[k].ty
  {
    seq(|premises|, k requires 0 <= k < |premises| => premises[k].ty)
  }

  lemma ExtendInArena(types: TypeArena, env: seq<TypeId>, kind: CoreKind, k: nat)
    requires TypesInArena(types, env) && KindInArena(|types|, kind)
    ensures TypesInArena(types, Extend(env, kind, k))
  {}

  /** A derivation tree: each node concludes its stored type, which is closed,
      by its rule, from derivations of its children under the extended
      environments. */
  ghost predicate Derives(reg: Registry, p: CoreProgram, env: seq<TypeId>, d: Derivation)
    requires InArena(p) && TypesInArena(p.types, env)
    decreases d
  {
    && d.id < |p.nodes|
    && var node := p.nodes[d.id];
    && node.ty == d.ty
    && Closed(p.types, d.ty)
    && |d.premises| == |Children(node.kind)|
    && (forall k :: 0 <= k < |d.premises| ==>
          d.premises[k].id == Children(node.kind)[k]
          && (ExtendInArena(p.types, env, node.kind, k);
              Derives(reg, p, Extend(env, node.kind, k), d.premises[k])))
    && TypesInArena(p.types, Conclusions(d.premises))
    && Rule(reg, p.types, p.plans, env, node.kind, Conclusions(d.premises), d.ty)
  }

  /** The program's root has a derivation of the declared type in the empty environment. */
  ghost predicate WellTyped(reg: Registry, p: CoreProgram)
    requires InArena(p)
  {
    exists d: Derivation :: d.id == p.root && d.ty == p.mainType && Derives(reg, p, [], d)
  }

  // -----------------------------------------------------------------------
  // The same judgement read path by path

  /** The binder types met on the way to the end of a path. */
  ghost function EnvAt(p: CoreProgram, path: seq<nat>): seq<TypeId>
    decreases |path|
  {
    if path == [] then []
    else
      var before := path[..|path| - 1];
      var at := Walk(Edges(p), p.root, before);
      if at.Some? && at.value < |p.nodes|
      then Extend(EnvAt(p, before), p.nodes[at.value].kind, path[|path| - 1])
      else []
  }

  lemma {:induction false} EnvAtInArena(p: CoreProgram, path: seq<nat>)
    requires InArena(p)
    ensures TypesInArena(p.types, EnvAt(p, path))
    decreases |path|
  {
    if path != [] {
      EnvAtInArena(p, path[..|path| - 1]);
    }
  }

  function StoredTypes(p: CoreProgram, ids: seq<CoreId>): (tys: seq<TypeId>)
    requires forall k :: 0 <= k < |ids| ==> ids[k] < |p.nodes|
    ensures |tys| == |ids| && forall k :: 0 <= k < |tys| ==> tys[k] == p.nodes[ids[k]].ty
  {
    seq(|ids|, k requires 0 <= k < |ids| => p.nodes[ids[k]].ty)
  }

  ghost predicate ChildrenInBounds(p: CoreProgram, id: CoreId) {
    id < |p.nodes| && forall k :: 0 <= k < |Children(p.nodes[id].kind)| ==> Children(p.nodes[id].kind)[k] < |p.nodes|
  }

  /** Node `id` obeys its rule in `env`, given the stored types of its children. */
  ghost predicate NodeOk(reg: Registry, p: CoreProgram, env: seq<TypeId>, id: CoreId)
    requires InArena(p) && TypesInArena(p.types, env) && ChildrenInBounds(p, id)
  {
    var node := p.nodes[id];
    && Closed(p.types, node.ty)
    && Rule(reg, p.types, p.plans, env, node.kind, StoredTypes(p, Children(node.kind)), node.ty)
  }

  /** Every path from the root ends at a node that obeys its rule. */
  ghost predicate EveryNodeOk(reg: Registry, p: CoreProgram)
    requires InArena(p)
  {
    forall path :: Walk(Edges(p), p.root, path).Some? ==>
      ChildrenInBounds(p, Walk(Edges(p), p.root, path).value)
      && (EnvAtInArena(p, path); NodeOk(reg, p, EnvAt(p, path), Walk(Edges(p), p.root, path).value))
  }

  /** A derivation of the root contains one of every node below it. */
  lemma {:induction false} DerivationBelow(reg: Registry, p: CoreProgram, d: Derivation, path: seq<nat>)
    returns (below: Derivation)
    requires InArena(p) && d.id == p.root && Derives(reg, p, [], d)
    requires Walk(Edges(p), p.root, path).Some?
    ensures TypesInArena(p.types, EnvAt(p, path))
    ensures below.id == Walk(Edges(p), p.root, path).value && Derives(reg, p, EnvAt(p, path), below)
    decreases |path|
  {
    EnvAtInArena(p, path);
    if path == [] {
      below := d;
    } else {
      var above := DerivationBelow(reg, p, d, path[..|path| - 1]);
      below := above.premises[path[|path| - 1]];
    }
  }

  lemma DerivedNodeOk(reg: Registry, p: CoreProgram, env: seq<TypeId>, d: Derivation)
    requires InArena(p) && TypesInArena(p.types, env) && Derives(reg, p, env, d)
    ensures ChildrenInBounds(p, d.id) && NodeOk(reg, p, env, d.id)
  {
    var kind := p.nodes[d.id].kind;
    assert forall k :: 0 <= k < |d.premises| ==> Children(kind)[k] == d.premises[k].id;
    assert StoredTypes(p, Children(kind)) == Conclusions(d.premises);
  }

  lemma DerivationMakesNodesOk(reg: Registry, p: CoreProgram, d: Derivation)
    requires InArena(p) && d.id == p.root && Derives(reg, p, [], d)
    ensures EveryNodeOk(reg, p)
  {
    forall path | Walk(Edges(p), p.root, path).Some?
      ensures ChildrenInBounds(p, Walk(Edges(p), p.root, path).value)
              && (EnvAtInArena(p, path); NodeOk(reg, p, EnvAt(p, path), Walk(Edges(p), p.root, path).value))
    {
      var below := DerivationBelow(reg, p, d, path);
      DerivedNodeOk(reg, p, EnvAt(p, path), below);
    }
  }

  /** In a tree the nodes along a path are distinct, so paths are short. */
  lemma {:induction false} PathNodes(g: Graph, root: nat, path: seq<nat>) returns (nodes: set<nat>)
    requires IsTree(g, root) && Walk(g, root, path).Some?
    ensures |nodes| == |path| + 1 && forall n :: n in nodes ==> n < |g|
    ensures forall n :: n in nodes ==> exists i :: 0 <= i <= |path| && Walk(g, root, path[..i]) == Some(n)
    decreases |path|
  {
    var last := Walk(g, root, path).value;
    if path == [] {
      nodes := {last};
      assert path[..0] == path;
    } else {
      var before := path[..|path| - 1];
      var rest := PathNodes(g, root, before);
      forall n | n in rest ensures n != last && exists i :: 0 <= i <= |path| && Walk(g, root, path[..i]) == Some(n) {
        var i :| 0 <= i <= |before| && Walk(g, root, before[..i]) == Some(n);
        assert before[..i] == path[..i];
      }
      nodes := rest + {last};
      assert path[..|path|] == path;
    }
  }

  lemma PathsAreShort(g: Graph, root: nat, path: seq<nat>)
    requires IsTree(g, root) && Walk(g, root, path).Some?
    ensures |path| < |g|
  {
    var nodes := PathNodes(g, root, path);
    FullSubset(nodes, |g|);
  }

  lemma NodeOkAt(reg: Registry, p: CoreProgram, path: seq<nat>)
    requires InArena(p) && EveryNodeOk(reg, p) && Walk(Edges(p), p.root, path).Some?
    ensures ChildrenInBounds(p, Walk(Edges(p), p.root, path).value) && TypesInArena(p.types, EnvAt(p, path))
    ensures NodeOk(reg, p, EnvAt(p, path), Walk(Edges(p), p.root, path).value)
  {
    EnvAtInArena(p, path);
  }

  /** `ds` derive the first children of node `id` under their environments. */
  ghost predicate DeriveFirst(reg: Registry, p: CoreProgram, env: seq<TypeId>, id: CoreId, ds: seq<Derivation>)
    requires InArena(p) && id < |p.nodes|
  {
    && |ds| <= |Children(p.nodes[id].kind)|
    && forall k :: 0 <= k < |ds| ==>
         ds[k].id == Children(p.nodes[id].kind)[k]
         && TypesInArena(p.types, Extend(env, p.nodes[id].kind, k))
         && Derives(reg, p, Extend(env, p.nodes[id].kind, k), ds[k])
  }

  lemma DeriveNode(reg: Registry, p: CoreProgram, env: seq<TypeId>, id: CoreId, ds: seq<Derivation>)
    requires InArena(p) && TypesInArena(p.types, env) && ChildrenInBounds(p, id) && NodeOk(reg, p, env, id)
    requires DeriveFirst(reg, p, env, id, ds) && |ds| == |Children(p.nodes[id].kind)|
    ensures Derives(reg, p, env, Derivation(id, p.nodes[id].ty, ds))
  {
    assert StoredTypes(p, Children(p.nodes[id].kind)) == Conclusions(ds);
  }

  /** In a tree whose nodes obey their rules, every node has a derivation. */
  lemma {:induction false} BuildDerivation(reg: Registry, p: CoreProgram, path: seq<nat>) returns (d: Derivation)
    requires InArena(p) && IsTree(Edges(p), p.root) && EveryNodeOk(reg, p)
    requires Walk(Edges(p), p.root, path).Some?
    ensures TypesInArena(p.types, EnvAt(p, path))
    ensures d.id == Walk(Edges(p), p.root, path).value && Derives(reg, p, EnvAt(p, path), d)
    decreases |p.nodes| - |path|
  {
    hide IsTree, EveryNodeOk, Rule, Derives, NodeOk;
    PathsAreShort(Edges(p), p.root, path);
    NodeOkAt(reg, p, path);
    var id := Walk(Edges(p), p.root, path).value;
    var kind, env := p.nodes[id].kind, EnvAt(p, path);
    var premises: seq<Derivation> := [];
    while |premises| < |Children(kind)|
      invariant DeriveFirst(reg, p, env, id, premises)
    {
      var k := |premises|;
      WalkStep(Edges(p), p.root, path, k);
      assert (path + [k])[..|path|] == path;
      PathsAreShort(Edges(p), p.root, path + [k]);
      var premise := BuildDerivation(reg, p, path + [k]);
      premises := premises + [premise];
    }
    DeriveNode(reg, p, env, id, premises);
    d := Derivation(id, p.nodes[id].ty, premises);
  }

  /** On trees the two readings agree. */
  lemma WellTypedByPaths(reg: Registry, p: CoreProgram)
    requires InArena(p) && p.root < |p.nodes| && IsTree(Edges(p), p.root)
    ensures WellTyped(reg, p) <==> EveryNodeOk(reg, p) && p.nodes[p.root].ty == p.mainType
  {
    assert Walk(Edges(p), p.root, []) == Some(p.root);
    if WellTyped(reg, p) {
      var d: Derivation :| d.id == p.root && d.ty == p.mainType && Derives(reg, p, [], d);
      DerivationMakesNodesOk(reg, p, d);
    }
    if EveryNodeOk(reg, p) && p.nodes[p.root].ty == p.mainType {
      var d := BuildDerivation(reg, p, []);
    }
  }
}
