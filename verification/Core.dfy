/** The typed core of `hell-core`: its data, its edges, and the declarative
    typing judgement that the verifier is meant to decide. */
module Core {
  import opened Wrappers
  import opened Graphs
  import opened Types

  type CoreId = nat
  type PlanId = nat
  type TypeClass = nat

  datatype Projection = Identity | TupleElement(arity: nat, index: nat)

  datatype Constant =
    | UnitConstant | BoolConstant | IntConstant | DoubleConstant | CharacterConstant | TextConstant

  datatype RecordField = RecordField(name: string, ty: TypeId)
  datatype RecordLayout = RecordLayout(typeName: string, constructorName: string, fields: seq<RecordField>)
  datatype VariantConstructor = VariantConstructor(name: string, payload: Option<TypeId>)
  datatype VariantLayout = VariantLayout(typeName: string, constructors: seq<VariantConstructor>)
  datatype CaseBranch = CaseBranch(constructorIndex: nat, payloadType: Option<TypeId>, body: CoreId)

  datatype ClassEvidence = ClassEvidence(cls: TypeClass, head: TypeId, plan: PlanId)
  datatype Resolution = Direct(arity: nat) | Entail(count: nat)
  datatype EvidencePlan = EvidencePlan(cls: TypeClass, head: TypeId, resolution: Resolution, premises: seq<PlanId>)

  datatype CoreKind =
    | BoundVar(deBruijn: nat, projection: Projection)
    | Lambda(parameterType: TypeId, body: CoreId)
    | Application(callee: CoreId, argument: CoreId)
    | Literal(constant: Constant)
    | Builtin(builtin: nat, evidence: Option<ClassEvidence>)
    | Tuple(elements: seq<CoreId>)
    | List(elements: seq<CoreId>)
    | Record(layout: RecordLayout, fields: seq<CoreId>)
    | RecordGet(layout: RecordLayout, fieldIndex: nat, record: CoreId)
    | RecordSet(layout: RecordLayout, fieldIndex: nat, value: CoreId, record: CoreId)
    | RecordModify(layout: RecordLayout, fieldIndex: nat, modifier: CoreId, record: CoreId)
    | Variant(shape: VariantLayout, constructorIndex: nat, payload: Option<CoreId>)
    | Case(scrutinee: CoreId, shape: VariantLayout, branches: seq<CaseBranch>, default: Option<CoreId>)

  datatype CoreNode = CoreNode(ty: TypeId, kind: CoreKind)

  datatype CoreProgram = CoreProgram(
    root: CoreId, nodes: seq<CoreNode>, types: TypeArena, mainType: TypeId, plans: seq<EvidencePlan>)

  // -----------------------------------------------------------------------
  // The builtin registry, an input of the verifier

  datatype BuiltinSpec = BuiltinSpec(name: string, available: bool, typeClass: Option<TypeClass>)

  datatype HeadStep = FunctionArgument(index: nat) | FunctionResult | ApplyFunction | ApplyArgument

  /** `plausible` stands for the table of displayed types, `projection` for the
      head paths of constrained builtins, `instance` for the class manifest. */
  datatype Registry = Registry(
    specs: seq<BuiltinSpec>,
    plausible: (TypeArena, string, TypeId) -> bool,
    projection: string -> Option<seq<HeadStep>>,
    instance: (TypeClass, string) -> Option<Resolution>)

  // -----------------------------------------------------------------------
  // Edges and binders

  function BranchBodies(branches: seq<CaseBranch>): seq<CoreId> {
    seq(|branches|, i requires 0 <= i < |branches| => branches[i].body)
  }

  /** The children of a node, in evaluation order. */
  function Children(kind: CoreKind): seq<CoreId> {
    match kind
    case BoundVar(_, _) => []
    case Literal(_) => []
    case Builtin(_, _) => []
    case Lambda(_, body) => [body]
    case Application(callee, argument) => [callee, argument]
    case Tuple(elements) => elements
    case List(elements) => elements
    case Record(_, fields) => fields
    case RecordGet(_, _, record) => [record]
    case RecordSet(_, _, value, record) => [value, record]
    case RecordModify(_, _, modifier, record) => [modifier, record]
    case Variant(_, _, payload) => if payload.Some? then [payload.value] else []
    case Case(scrutinee, _, branches, default) =>
      [scrutinee] + BranchBodies(branches) + (if default.Some? then [default.value] else [])
  }

  function Edges(p: CoreProgram): (g: Graph)
    ensures |g| == |p.nodes| && forall i :: 0 <= i < |g| ==> g[i] == Children(p.nodes[i].kind)
  {
    seq(|p.nodes|, i requires 0 <= i < |p.nodes| => Children(p.nodes[i].kind))
  }

  /** The type bound on the way into child `k`, if any. */
  function Binder(kind: CoreKind, k: nat): Option<TypeId> {
    match kind
    case Lambda(parameterType, _) => Some(parameterType)
    case Case(_, _, branches, _) => if 1 <= k <= |branches| then branches[k - 1].payloadType else None
    case _ => None
  }

  function Extend(env: seq<TypeId>, kind: CoreKind, k: nat): seq<TypeId> {
    if Binder(kind, k).Some? then env + [Binder(kind, k).value] else env
  }

  // -----------------------------------------------------------------------
  // Ids of types always come from the program's own arena

  ghost predicate LayoutInArena(n: nat, layout: RecordLayout) {
    forall i :: 0 <= i < |layout.fields| ==> layout.fields[i].ty < n
  }

  ghost predicate ShapeInArena(n: nat, shape: VariantLayout) {
    forall i :: 0 <= i < |shape.constructors| ==>
      shape.constructors[i].payload.Some? ==> shape.constructors[i].payload.value < n
  }

  ghost predicate KindInArena(n: nat, kind: CoreKind) {
    match kind
    case Lambda(parameterType, _) => parameterType < n
    case Builtin(_, evidence) => evidence.Some? ==> evidence.value.head < n
    case Record(layout, _) => LayoutInArena(n, layout)
    case RecordGet(layout, _, _) => LayoutInArena(n, layout)
    case RecordSet(layout, _, _, _) => LayoutInArena(n, layout)
    case RecordModify(layout, _, _, _) => LayoutInArena(n, layout)
    case Variant(shape, _, _) => ShapeInArena(n, shape)
    case Case(_, shape, branches, _) =>
      && ShapeInArena(n, shape)
      && forall i :: 0 <= i < |branches| ==> branches[i].payloadType.Some? ==> branches[i].payloadType.value < n
    case _ => true
  }

  ghost predicate PlansInArena(n: nat, plans: seq<EvidencePlan>) {
    forall i :: 0 <= i < |plans| ==> plans[i].head < n
  }

  /** Type ids index the arena: ids are only ever handed out by it. */
  ghost predicate InArena(p: CoreProgram) {
    && p.mainType < |p.types|
    && (forall i :: 0 <= i < |p.nodes| ==> p.nodes[i].ty < |p.types| && KindInArena(|p.types|, p.nodes[i].kind))
    && PlansInArena(|p.types|, p.plans)
  }
}
