/** The post-order step of the typing pass: one node is checked against the
    recomputed types of its children. Each method states exactly when it
    succeeds; `InferNode` ties all of them to the typing rules. */
module Infer {
  import opened Wrappers
  import opened Graphs
  import opened Types
  import opened Core
  import opened Evidence
  import opened Judgement

  /** Why a node was refused. */
  datatype Reason =
    | OpenType | IndexOutOfScope | BadProjection | NotVerified | Inconsistent | UnknownBuiltin | UnavailableBuiltin
    | ImplausibleBuiltin | EvidenceMismatch | NonExhaustiveCase | StoredTypeDiffers

  type Computed = seq<Option<TypeId>>

  ghost predicate ComputedInArena(types: TypeArena, computed: Computed) {
    forall i :: 0 <= i < |computed| && computed[i].Some? ==> computed[i].value < |types|
  }

  ghost predicate IdsInBounds(computed: Computed, ids: seq<CoreId>) {
    forall k :: 0 <= k < |ids| ==> ids[k] < |computed|
  }

  method InferVariable(types: TypeArena, env: seq<TypeId>, deBruijn: nat, projection: Projection)
    returns (r: Result<TypeId, Reason>)
    requires TypesInArena(types, env)
    ensures forall ty: TypeId :: r == Ok(ty) <==> VariableRule(types, env, deBruijn, projection, ty)
  {
    if |env| < deBruijn + 1 {
      return Err(IndexOutOfScope);
    }
    var bound: TypeId := env[|env| - (deBruijn + 1)];
    match projection
    case Identity => return Ok(bound);
    case TupleElement(arity, index) =>
      var spine := UnwindApplication(types, bound);
      if arity < 2 || arity > 4 {
        return Err(BadProjection);
      }
      if ConstructorName(types, spine.head) != Some(TupleName(arity))
        || |spine.arguments| != arity || index >= |spine.arguments|
      {
        return Err(BadProjection);
      }
      return Ok(spine.arguments[index]);
  }

  method CheckLambda(types: TypeArena, parameterType: TypeId, body: CoreId, computed: Computed, ty: TypeId)
    returns (fault: Option<Reason>)
    requires ty < |types| && body < |computed|
    ensures fault.None? <==> computed[body].Some? && types[ty] == Function(parameterType, computed[body].value)
  {
    if computed[body].None? {
      return Some(NotVerified);
    }
    match types[ty]
    case Function(parameter, result) =>
      if parameter == parameterType && result == computed[body].value {
        return None;
      }
      return Some(Inconsistent);
    case _ => return Some(Inconsistent);
  }

  method CheckApplication(types: TypeArena, callee: CoreId, argument: CoreId, computed: Computed, ty: TypeId)
    returns (fault: Option<Reason>)
    requires callee < |computed| && argument < |computed| && ComputedInArena(types, computed)
    ensures fault.None? <==>
              computed[callee].Some? && computed[argument].Some?
              && types[computed[callee].value] == Function(computed[argument].value, ty)
  {
    if computed[callee].None? || computed[argument].None? {
      return Some(NotVerified);
    }
    match types[computed[callee].value]
    case Function(expected, result) =>
      if expected == computed[argument].value && result == ty {
        return None;
      }
      return Some(Inconsistent);
    case _ => return Some(Inconsistent);
  }

  method BuiltinInstanceHead(reg: Registry, types: TypeArena, name: string, ty: TypeId)
    returns (head: Option<TypeId>)
    requires ty < |types|
    ensures head == InstanceHead(reg, types, name, ty)
  {
    var steps := reg.projection(name);
    if steps.None? {
      return None;
    }
    var current: TypeId, n := ty, 0;
    while n < |steps.value|
      invariant 0 <= n <= |steps.value| && current < |types|
      invariant ProjectHead(types, steps.value, ty) == ProjectHead(types, steps.value[n..], current)
    {
      assert steps.value[n..][1..] == steps.value[n + 1..];
      match steps.value[n] {
        case FunctionArgument(index) =>
          var arrows := FunctionTypeParts(types, current);
          if index >= |arrows.parameters| {
            return None;
          }
          current := arrows.parameters[index];
        case FunctionResult =>
          var arrows := FunctionTypeParts(types, current);
          current := arrows.result;
        case ApplyFunction =>
          if !types[current].Apply? {
            return None;
          }
          assert types[current].callee in Parts(types[current]);
          current := types[current].callee;
        case ApplyArgument =>
          if !types[current].Apply? {
            return None;
          }
          assert types[current].argument in Parts(types[current]);
          current := types[current].argument;
      }
      n := n + 1;
    }
    return Some(current);
  }

  method ValidatePlan(reg: Registry, types: TypeArena, plans: seq<EvidencePlan>, evidence: ClassEvidence)
    returns (ok: bool)
    requires PlansInArena(|types|, plans)
    ensures ok <==> EvidenceSupports(reg, types, plans, evidence)
  {
    if evidence.plan >= |plans| {
      return false;
    }
    var root := plans[evidence.plan];
    if root.cls != evidence.cls || root.head != evidence.head {
      return false;
    }
    var reachable := ValidateGraph(reg, types, plans, evidence.plan);
    return reachable.Some?;
  }

  method CheckBuiltin(reg: Registry, types: TypeArena, plans: seq<EvidencePlan>,
                      builtin: nat, evidence: Option<ClassEvidence>, ty: TypeId)
    returns (fault: Option<Reason>)
    requires PlansInArena(|types|, plans) && ty < |types|
    ensures fault.None? <==> BuiltinRule(reg, types, plans, builtin, evidence, ty)
  {
    if builtin >= |reg.specs| {
      return Some(UnknownBuiltin);
    }
    var spec := reg.specs[builtin];
    if !spec.available {
      return Some(UnavailableBuiltin);
    }
    if !reg.plausible(types, spec.name, ty) {
      return Some(ImplausibleBuiltin);
    }
    match (spec.typeClass, evidence)
    case (None, None) => return None;
    case (Some(expected), Some(actual)) =>
      if expected == actual.cls {
        var head := BuiltinInstanceHead(reg, types, spec.name, ty);
        if head == Some(actual.head) {
          var ok := ValidatePlan(reg, types, plans, actual);
          if ok {
            return None;
          }
        }
      }
      return Some(EvidenceMismatch);
    case _ => return Some(EvidenceMismatch);
  }

  /** Whether the recomputed types of `ids` are `expected`, in order. */
  method Matches(computed: Computed, ids: seq<CoreId>, expected: seq<TypeId>) returns (ok: bool)
    requires IdsInBounds(computed, ids) && |ids| == |expected|
    ensures ok <==> forall k :: 0 <= k < |ids| ==> computed[ids[k]] == Some(expected[k])
  {
    var n := 0;
    while n < |ids|
      invariant 0 <= n <= |ids|
      invariant forall k :: 0 <= k < n ==> computed[ids[k]] == Some(expected[k])
    {
      if computed[ids[n]] != Some(expected[n]) {
        return false;
      }
      n := n + 1;
    }
    return true;
  }

  method CheckTuple(types: TypeArena, elements: seq<CoreId>, computed: Computed, ty: TypeId)
    returns (fault: Option<Reason>)
    requires ty < |types| && IdsInBounds(computed, elements)
    ensures fault.None? <==>
              2 <= |elements| <= 4
              && ConstructorName(types, SpineOf(types, ty).head) == Some(TupleName(|elements|))
              && |SpineOf(types, ty).arguments| == |elements|
              && forall k :: 0 <= k < |elements| ==> computed[elements[k]] == Some(SpineOf(types, ty).arguments[k])
  {
    if |elements| < 2 || |elements| > 4 {
      return Some(Inconsistent);
    }
    var spine := UnwindApplication(types, ty);
    if ConstructorName(types, spine.head) != Some(TupleName(|elements|)) || |spine.arguments| != |elements| {
      return Some(Inconsistent);
    }
    var ok := Matches(computed, elements, spine.arguments);
    return if ok then None else Some(Inconsistent);
  }

  method CheckList(types: TypeArena, elements: seq<CoreId>, computed: Computed, ty: TypeId)
    returns (fault: Option<Reason>)
    requires ty < |types| && IdsInBounds(computed, elements)
    ensures fault.None? <==>
              types[ty].Apply?
              && (assert types[ty].callee in Parts(types[ty]); ConstructorName(types, types[ty].callee) == Some("[]"))
              && forall k :: 0 <= k < |elements| ==> computed[elements[k]] == Some(types[ty].argument)
  {
    if !types[ty].Apply? {
      return Some(Inconsistent);
    }
    assert types[ty].callee in Parts(types[ty]);
    if ConstructorName(types, types[ty].callee) != Some("[]") {
      return Some(Inconsistent);
    }
    var ok := Matches(computed, elements, seq(|elements|, _ => types[ty].argument));
    return if ok then None else Some(Inconsistent);
  }

  method CheckRecord(types: TypeArena, layout: RecordLayout, fields: seq<CoreId>, computed: Computed, ty: TypeId)
    returns (fault: Option<Reason>)
    requires ty < |types| && IdsInBounds(computed, fields)
    ensures fault.None? <==>
              HeadName(types, ty) == Some(layout.typeName)
              && |fields| == |layout.fields|
              && forall k :: 0 <= k < |fields| ==> computed[fields[k]] == Some(layout.fields[k].ty)
  {
    var head := TypeHeadName(types, ty);
    if head != Some(layout.typeName) || |fields| != |layout.fields| {
      return Some(Inconsistent);
    }
    var ok := Matches(computed, fields, FieldTypes(layout));
    return if ok then None else Some(Inconsistent);
  }

  method CheckRecordGet(types: TypeArena, layout: RecordLayout, index: nat, record: CoreId,
                        computed: Computed, ty: TypeId)
    returns (fault: Option<Reason>)
    requires record < |computed| && ComputedInArena(types, computed)
    ensures fault.None? <==>
              index < |layout.fields| && computed[record].Some?
              && HeadName(types, computed[record].value) == Some(layout.typeName)
              && ty == layout.fields[index].ty
  {
    if index >= |layout.fields| {
      return Some(Inconsistent);
    }
    var head: Option<string> := None;
    if computed[record].Some? {
      head := TypeHeadName(types, computed[record].value);
    }
    if head != Some(layout.typeName) || ty != layout.fields[index].ty {
      return Some(Inconsistent);
    }
    return None;
  }

  method CheckRecordSet(types: TypeArena, layout: RecordLayout, index: nat, value: CoreId, record: CoreId,
                        computed: Computed, ty: TypeId)
    returns (fault: Option<Reason>)
    requires ty < |types| && value < |computed| && record < |computed|
    ensures fault.None? <==>
              index < |layout.fields| && HeadName(types, ty) == Some(layout.typeName)
              && computed[value] == Some(layout.fields[index].ty) && computed[record] == Some(ty)
  {
    if index >= |layout.fields| {
      return Some(Inconsistent);
    }
    var head := TypeHeadName(types, ty);
    if computed[record] != Some(ty) || head != Some(layout.typeName)
      || computed[value] != Some(layout.fields[index].ty)
    {
      return Some(Inconsistent);
    }
    return None;
  }

  method CheckRecordModify(types: TypeArena, layout: RecordLayout, index: nat, modifier: CoreId, record: CoreId,
                           computed: Computed, ty: TypeId)
    returns (fault: Option<Reason>)
    requires ty < |types| && modifier < |computed| && record < |computed| && ComputedInArena(types, computed)
    ensures fault.None? <==>
              index < |layout.fields| && HeadName(types, ty) == Some(layout.typeName)
              && computed[record] == Some(ty) && computed[modifier].Some?
              && types[computed[modifier].value] == Function(layout.fields[index].ty, layout.fields[index].ty)
  {
    if index >= |layout.fields| {
      return Some(Inconsistent);
    }
    var field := layout.fields[index];
    var validFunction := false;
    if computed[modifier].Some? {
      validFunction := match types[computed[modifier].value]
        case Function(parameter, result) => parameter == field.ty && result == field.ty
        case _ => false;
    }
    var head := TypeHeadName(types, ty);
    if computed[record] != Some(ty) || head != Some(layout.typeName) || !validFunction {
      return Some(Inconsistent);
    }
    return None;
  }

  method CheckVariant(types: TypeArena, shape: VariantLayout, index: nat, payload: Option<CoreId>,
                      computed: Computed, ty: TypeId)
    returns (fault: Option<Reason>)
    requires ty < |types| && (payload.Some? ==> payload.value < |computed|)
    ensures fault.None? <==>
              HeadName(types, ty) == Some(shape.typeName) && index < |shape.constructors|
              && (shape.constructors[index].payload.Some? <==> payload.Some?)
              && (payload.Some? ==> computed[payload.value] == shape.constructors[index].payload)
  {
    var head := TypeHeadName(types, ty);
    if head != Some(shape.typeName) {
      return Some(Inconsistent);
    }
    if index >= |shape.constructors| {
      return Some(Inconsistent);
    }
    match (shape.constructors[index].payload, payload)
    case (None, None) => return None;
    case (Some(expected), Some(id)) =>
      if computed[id] == Some(expected) {
        return None;
      }
      return Some(Inconsistent);
    case _ => return Some(Inconsistent);
  }

  /** The constructor indices of the first branches. */
  ghost predicate SeenIs(branches: seq<CaseBranch>, n: nat, seen: set<nat>)
    requires n <= |branches|
  {
    forall c: nat :: c in seen <==> exists i :: 0 <= i < n && branches[i].constructorIndex == c
  }

  /** Distinct in-range indices exhaust the constructors exactly when there are
      as many of them: the count comparison of the code is a pigeonhole. */
  lemma SeenExhausts(shape: VariantLayout, branches: seq<CaseBranch>, seen: set<nat>)
    requires SeenIs(branches, |branches|, seen)
    requires forall i :: 0 <= i < |branches| ==> branches[i].constructorIndex < |shape.constructors|
    ensures |seen| == |shape.constructors| <==> forall c: nat :: c < |shape.constructors| ==> HandledBy(branches, c)
  {
    FullSubset(seen, |shape.constructors|);
    forall c: nat ensures c in seen <==> HandledBy(branches, c) {}
  }

  /** The loop over the branches of a case. */
  method CheckBranches(shape: VariantLayout, branches: seq<CaseBranch>, computed: Computed, ty: TypeId)
    returns (ok: bool, seen: set<nat>)
    requires forall i :: 0 <= i < |branches| ==> branches[i].body < |computed|
    ensures ok <==> BranchesFit(shape, branches, true)
                    && forall i :: 0 <= i < |branches| ==> computed[branches[i].body] == Some(ty)
    ensures ok ==> SeenIs(branches, |branches|, seen)
  {
    seen := {};
    var n := 0;
    while n < |branches|
      invariant 0 <= n <= |branches|
      invariant BranchesFit(shape, branches[..n], true) && SeenIs(branches, n, seen)
      invariant forall i :: 0 <= i < n ==> computed[branches[i].body] == Some(ty)
    {
      var branch := branches[n];
      if branch.constructorIndex >= |shape.constructors| {
        return false, seen;
      }
      if branch.constructorIndex in seen
        || shape.constructors[branch.constructorIndex].payload != branch.payloadType
        || computed[branch.body] != Some(ty)
      {
        return false, seen;
      }
      seen := seen + {branch.constructorIndex};
      n := n + 1;
    }
    assert branches[..n] == branches;
    return true, seen;
  }

  method CheckCase(types: TypeArena, scrutinee: CoreId, shape: VariantLayout, branches: seq<CaseBranch>,
                   default: Option<CoreId>, computed: Computed, ty: TypeId)
    returns (fault: Option<Reason>)
    requires ComputedInArena(types, computed) && scrutinee < |computed|
    requires forall i :: 0 <= i < |branches| ==> branches[i].body < |computed|
    requires default.Some? ==> default.value < |computed|
    ensures fault.None? <==>
              computed[scrutinee].Some? && HeadName(types, computed[scrutinee].value) == Some(shape.typeName)
              && BranchesFit(shape, branches, default.Some?)
              && (forall i :: 0 <= i < |branches| ==> computed[branches[i].body] == Some(ty))
              && (default.Some? ==> computed[default.value] == Some(ty))
  {
    if computed[scrutinee].None? {
      return Some(NotVerified);
    }
    var head := TypeHeadName(types, computed[scrutinee].value);
    if head != Some(shape.typeName) {
      return Some(Inconsistent);
    }
    var ok, seen := CheckBranches(shape, branches, computed, ty);
    if !ok {
      return Some(Inconsistent);
    }
    if default.Some? && computed[default.value] != Some(ty) {
      return Some(Inconsistent);
    }
    SeenExhausts(shape, branches, seen);
    if default.None? && |seen| != |shape.constructors| {
      return Some(NonExhaustiveCase);
    }
    return None;
  }
}
