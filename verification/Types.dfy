/** The interned type arena of `hell-types`, and the type-shape walks of `hell-core`. */
module Types {
  import opened Wrappers
  import opened Graphs

  type TypeId = nat

  datatype TypeNode =
    | Meta(meta: nat)
    | Bound(index: nat)
    | Constructor(name: string, kind: nat)
    | Apply(callee: TypeId, argument: TypeId)
    | Function(parameter: TypeId, result: TypeId)
    | Symbol(text: string)
    | RowNil
    | RowCons(tag: string, field: TypeId, tail: TypeId)

  function Parts(node: TypeNode): seq<TypeId> {
    match node
    case Apply(left, right) => [left, right]
    case Function(left, right) => [left, right]
    case RowCons(_, field, tail) => [field, tail]
    case _ => []
  }

  /** Interning hands out ids in order, so a node only mentions earlier ids. */
  ghost predicate Interned(nodes: seq<TypeNode>) {
    forall i, part :: 0 <= i < |nodes| && part in Parts(nodes[i]) ==> part < i
  }

  type TypeArena = nodes: seq<TypeNode> | Interned(nodes) witness []

  // -----------------------------------------------------------------------
  // Closed types

  predicate OpenNode(node: TypeNode) {
    node.Meta? || node.Bound?
  }

  /** No meta variable and no bound index occurs in the type. */
  ghost predicate Closed(types: TypeArena, ty: TypeId)
    requires ty < |types|
    decreases ty
  {
    !OpenNode(types[ty]) && forall part :: part in Parts(types[ty]) ==> Closed(types, part)
  }

  /** The parts of every visited node are visited or waiting. */
  ghost predicate PartsCovered(types: TypeArena, visited: set<TypeId>, stack: seq<TypeId>) {
    forall ty, part :: ty in visited && ty < |types| && part in Parts(types[ty]) ==> part in visited || part in stack
  }

  lemma {:induction false} VisitedAreClosed(types: TypeArena, visited: set<TypeId>, ty: TypeId)
    requires ty < |types| && ty in visited
    requires PartsCovered(types, visited, [])
    requires forall t :: t in visited ==> t < |types| && !OpenNode(types[t])
    ensures Closed(types, ty)
    decreases ty
  {
    forall part | part in Parts(types[ty]) ensures Closed(types, part) {
      VisitedAreClosed(types, visited, part);
    }
  }

  ghost predicate AllInArena(types: TypeArena, stack: seq<TypeId>) {
    forall j :: 0 <= j < |stack| ==> stack[j] < |types|
  }

  ghost predicate AllClosed(types: TypeArena, stack: seq<TypeId>)
    requires AllInArena(types, stack)
  {
    forall j :: 0 <= j < |stack| ==> Closed(types, stack[j])
  }

  lemma PushParts(types: TypeArena, visited: set<TypeId>, stack: seq<TypeId>, ty: TypeId)
    requires ty < |types| && AllInArena(types, stack) && PartsCovered(types, visited, stack + [ty])
    ensures AllInArena(types, stack + Parts(types[ty]))
    ensures PartsCovered(types, visited + {ty}, stack + Parts(types[ty]))
    ensures Closed(types, ty) && AllClosed(types, stack) ==> AllClosed(types, stack + Parts(types[ty]))
  {
    var pushed := Parts(types[ty]);
    forall j | 0 <= j < |stack + pushed| ensures (stack + pushed)[j] < |types| {
      assert j >= |stack| ==> pushed[j - |stack|] in pushed;
    }
    PushCovers(types, visited, stack, ty);
  }

  lemma PushCovers(types: TypeArena, visited: set<TypeId>, stack: seq<TypeId>, ty: TypeId)
    requires ty < |types| && PartsCovered(types, visited, stack + [ty])
    ensures PartsCovered(types, visited + {ty}, stack + Parts(types[ty]))
  {
    hide Parts, Closed;
    var pushed := Parts(types[ty]);
    forall t, part | t in visited + {ty} && t < |types| && part in Parts(types[t])
      ensures part in visited + {ty} || part in stack + pushed
    {
      if t != ty {
        assert part in visited || part in stack + [ty];
      }
    }
  }

  lemma PopVisited(types: TypeArena, visited: set<TypeId>, stack: seq<TypeId>, ty: TypeId)
    requires AllInArena(types, stack + [ty]) && PartsCovered(types, visited, stack + [ty])
    ensures ty < |types| && AllInArena(types, stack)
    ensures ty in visited ==> PartsCovered(types, visited, stack)
    ensures AllClosed(types, stack + [ty]) ==> Closed(types, ty) && AllClosed(types, stack)
  {
    var was := stack + [ty];
    assert was[|stack|] == ty && forall j :: 0 <= j < |stack| ==> was[j] == stack[j];
  }

  /** Decides closedness with a work list and a visited set. */
  method TypeIsClosed(types: TypeArena, root: TypeId) returns (closed: bool)
    requires root < |types|
    ensures closed <==> Closed(types, root)
  {
    hide PartsCovered, AllClosed;
    var stack: seq<TypeId> := [root];
    var visited: set<TypeId> := {};
    ghost var all := Ids(|types|);
    StartClosed(types, root);
    while stack != []
      invariant visited <= all && AllInArena(types, stack)
      invariant root in visited || root in stack
      invariant forall t :: t in visited ==> !OpenNode(types[t])
      invariant PartsCovered(types, visited, stack)
      invariant Closed(types, root) ==> AllClosed(types, stack)
      decreases all - visited, |stack|
    {
      var ty: TypeId := stack[|stack| - 1];
      assert stack == stack[..|stack| - 1] + [ty];
      stack := stack[..|stack| - 1];
      PopVisited(types, visited, stack, ty);
      if ty !in visited {
        if OpenNode(types[ty]) {
          return false;
        }
        PushParts(types, visited, stack, ty);
        visited := visited + {ty};
        stack := stack + Parts(types[ty]);
      }
    }
    VisitedAreClosed(types, visited, root);
    return true;
  }

  lemma StartClosed(types: TypeArena, root: TypeId)
    requires root < |types|
    ensures PartsCovered(types, {}, [root])
    ensures AllInArena(types, [root]) && (Closed(types, root) ==> AllClosed(types, [root]))
  {}

  // -----------------------------------------------------------------------
  // Application spines: `((head a0) a1) .. an`

  datatype Spine = Spine(head: TypeId, arguments: seq<TypeId>)

  function SpineOf(types: TypeArena, ty: TypeId): (s: Spine)
    requires ty < |types|
    ensures s.head < |types| && !types[s.head].Apply?
    ensures forall i :: 0 <= i < |s.arguments| ==> s.arguments[i] < |types|
    decreases ty
  {
    match types[ty]
    case Apply(callee, argument) =>
      assert callee in Parts(types[ty]) && argument in Parts(types[ty]);
      var inner := SpineOf(types, callee);
      Spine(inner.head, inner.arguments + [argument])
    case _ => Spine(ty, [])
  }

  function Reversed<T>(s: seq<T>): (r: seq<T>)
    ensures |r| == |s| && forall i :: 0 <= i < |s| ==> r[i] == s[|s| - 1 - i]
  {
    if s == [] then [] else [s[|s| - 1]] + Reversed(s[..|s| - 1])
  }

  /** Collects the arguments outermost first and reverses them at the end. */
  method UnwindApplication(types: TypeArena, ty: TypeId) returns (spine: Spine)
    requires ty < |types|
    ensures spine == SpineOf(types, ty)
  {
    var arguments: seq<TypeId> := [];
    var current: TypeId := ty;
    while types[current].Apply?
      invariant current < |types|
      invariant SpineOf(types, ty).head == SpineOf(types, current).head
      invariant SpineOf(types, ty).arguments == SpineOf(types, current).arguments + Reversed(arguments)
      decreases current
    {
      assert types[current].callee in Parts(types[current]);
      ghost var argument: TypeId := types[current].argument;
      assert Reversed(arguments + [argument]) == [argument] + Reversed(arguments) by {
        assert (arguments + [argument])[..|arguments|] == arguments;
      }
      arguments := arguments + [types[current].argument];
      current := types[current].callee;
    }
    spine := Spine(current, Reversed(arguments));
  }

  function ConstructorName(types: TypeArena, ty: TypeId): Option<string>
    requires ty < |types|
  {
    match types[ty]
    case Constructor(name, _) => Some(name)
    case _ => None
  }

  /** The nominal head of an application, when it is a constructor. */
  function HeadName(types: TypeArena, ty: TypeId): Option<string>
    requires ty < |types|
  {
    ConstructorName(types, SpineOf(types, ty).head)
  }

  method TypeHeadName(types: TypeArena, ty: TypeId) returns (name: Option<string>)
    requires ty < |types|
    ensures name == HeadName(types, ty)
  {
    var current: TypeId := ty;
    while types[current].Apply?
      invariant current < |types| && SpineOf(types, current).head == SpineOf(types, ty).head
      decreases current
    {
      assert types[current].callee in Parts(types[current]);
      current := types[current].callee;
    }
    name := ConstructorName(types, current);
  }

  // -----------------------------------------------------------------------
  // Function types: `a0 -> a1 -> .. -> result`

  datatype Arrows = Arrows(parameters: seq<TypeId>, result: TypeId)

  function ArrowsOf(types: TypeArena, ty: TypeId): (a: Arrows)
    requires ty < |types|
    ensures a.result < |types| && forall i :: 0 <= i < |a.parameters| ==> a.parameters[i] < |types|
    decreases ty
  {
    match types[ty]
    case Function(parameter, result) =>
      assert parameter in Parts(types[ty]) && result in Parts(types[ty]);
      var rest := ArrowsOf(types, result);
      Arrows([parameter] + rest.parameters, rest.result)
    case _ => Arrows([], ty)
  }

  method FunctionTypeParts(types: TypeArena, ty: TypeId) returns (arrows: Arrows)
    requires ty < |types|
    ensures arrows == ArrowsOf(types, ty)
  {
    var parameters: seq<TypeId> := [];
    var current: TypeId := ty;
    while types[current].Function?
      invariant current < |types|
      invariant ArrowsOf(types, ty).parameters == parameters + ArrowsOf(types, current).parameters
      invariant ArrowsOf(types, ty).result == ArrowsOf(types, current).result
      decreases current
    {
      assert types[current].result in Parts(types[current]);
      parameters := parameters + [types[current].parameter];
      current := types[current].result;
    }
    arrows := Arrows(parameters, current);
  }
}
