/** The typing pass: an explicit-stack post-order walk that keeps no visited
    marks. It relies on the graph being a tree. */
module Typing {
  import opened Wrappers
  import opened Graphs
  import opened Types
  import opened Core
  import opened Judgement
  import opened Infer

  ghost predicate ChildrenComputed(p: CoreProgram, id: CoreId, computed: Computed)
    requires ChildrenInBounds(p, id) && |computed| == |p.nodes|
  {
    forall k :: 0 <= k < |Children(p.nodes[id].kind)| ==>
      computed[Children(p.nodes[id].kind)[k]] == Some(p.nodes[Children(p.nodes[id].kind)[k]].ty)
  }

  lemma ChildIds(kind: CoreKind)
    ensures kind.Lambda? ==> Children(kind)[0] == kind.body
    ensures kind.Application? ==> Children(kind)[0] == kind.callee && Children(kind)[1] == kind.argument
    ensures kind.RecordGet? ==> Children(kind)[0] == kind.record
    ensures kind.RecordSet? ==> Children(kind)[0] == kind.value && Children(kind)[1] == kind.record
    ensures kind.RecordModify? ==> Children(kind)[0] == kind.modifier && Children(kind)[1] == kind.record
    ensures kind.Variant? && kind.payload.Some? ==> Children(kind)[0] == kind.payload.value
    ensures kind.Case? ==>
              Children(kind)[0] == kind.scrutinee
              && (forall i :: 0 <= i < |kind.branches| ==> Children(kind)[i + 1] == kind.branches[i].body)
              && |Children(kind)| == 1 + |kind.branches| + (if kind.default.Some? then 1 else 0)
              && (kind.default.Some? ==> Children(kind)[|kind.branches| + 1] == kind.default.value)
  {}

  /** The nodes checked against a record or variant layout. */
  method CheckNominal(ghost reg: Registry, p: CoreProgram, id: CoreId, ghost env: seq<TypeId>, computed: Computed)
    returns (fault: Option<Reason>)
    requires InArena(p) && TypesInArena(p.types, env) && ChildrenInBounds(p, id)
    requires |computed| == |p.nodes| && ComputedInArena(p.types, computed)
    requires var kind := p.nodes[id].kind;
             kind.Record? || kind.RecordGet? || kind.RecordSet? || kind.RecordModify? || kind.Variant? || kind.Case?
    ensures ChildrenComputed(p, id, computed) ==>
              (fault.None? <==>
               Rule(reg, p.types, p.plans, env, p.nodes[id].kind, StoredTypes(p, Children(p.nodes[id].kind)),
                    p.nodes[id].ty))
  {
    hide BranchesFit;
    var ty := p.nodes[id].ty;
    ChildIds(p.nodes[id].kind);
    ghost var ts := StoredTypes(p, Children(p.nodes[id].kind));
    match p.nodes[id].kind {
      case Record(layout, fields) =>
        fault := CheckRecord(p.types, layout, fields, computed, ty);
        assert ChildrenComputed(p, id, computed) && |fields| == |layout.fields| ==>
            (ts == FieldTypes(layout) <==>
             forall k :: 0 <= k < |fields| ==> computed[fields[k]] == Some(layout.fields[k].ty));
      case RecordGet(layout, index, record) =>
        fault := CheckRecordGet(p.types, layout, index, record, computed, ty);
      case RecordSet(layout, index, value, record) =>
        fault := CheckRecordSet(p.types, layout, index, value, record, computed, ty);
      case RecordModify(layout, index, modifier, record) =>
        fault := CheckRecordModify(p.types, layout, index, modifier, record, computed, ty);
      case Variant(shape, index, payload) =>
        fault := CheckVariant(p.types, shape, index, payload, computed, ty);
      case Case(scrutinee, shape, branches, default) =>
        fault := CheckCase(p.types, scrutinee, shape, branches, default, computed, ty);
        CaseOthers(p, id, computed, ty);
    }
  }

  lemma NodeInArena(p: CoreProgram, id: CoreId)
    requires InArena(p) && id < |p.nodes|
    ensures p.nodes[id].ty < |p.types| && KindInArena(|p.types|, p.nodes[id].kind) && PlansInArena(|p.types|, p.plans)
  {}

  /** Recomputes the type of one node. With its children recomputed as stored,
      it succeeds with the stored type exactly when the node obeys its rule. */
  method InferNode(reg: Registry, p: CoreProgram, id: CoreId, env: seq<TypeId>, computed: Computed)
    returns (r: Result<TypeId, Reason>)
    requires InArena(p) && TypesInArena(p.types, env) && ChildrenInBounds(p, id)
    requires |computed| == |p.nodes| && ComputedInArena(p.types, computed)
    ensures ChildrenComputed(p, id, computed) ==>
              (r == Ok(p.nodes[id].ty) <==>
               Rule(reg, p.types, p.plans, env, p.nodes[id].kind, StoredTypes(p, Children(p.nodes[id].kind)),
                    p.nodes[id].ty))
  {
    hide BuiltinRule, VariableRule, BranchesFit, InArena;
    var ty := p.nodes[id].ty;
    NodeInArena(p, id);
    ChildIds(p.nodes[id].kind);
    ghost var ts := StoredTypes(p, Children(p.nodes[id].kind));
    var fault: Option<Reason> := None;
    match p.nodes[id].kind {
      case BoundVar(deBruijn, projection) =>
        r := InferVariable(p.types, env, deBruijn, projection);
        return;
      case Lambda(parameterType, body) =>
        fault := CheckLambda(p.types, parameterType, body, computed, ty);
      case Application(callee, argument) =>
        fault := CheckApplication(p.types, callee, argument, computed, ty);
      case Literal(constant) =>
        if ConstructorName(p.types, ty) != Some(ConstantTypeName(constant)) {
          fault := Some(Inconsistent);
        }
      case Builtin(builtin, evidence) =>
        fault := CheckBuiltin(reg, p.types, p.plans, builtin, evidence, ty);
      case Tuple(elements) =>
        fault := CheckTuple(p.types, elements, computed, ty);
        assert ChildrenComputed(p, id, computed) && |SpineOf(p.types, ty).arguments| == |elements| ==>
            (SpineOf(p.types, ty).arguments == ts <==>
             forall k :: 0 <= k < |elements| ==> computed[elements[k]] == Some(SpineOf(p.types, ty).arguments[k]));
      case List(elements) =>
        fault := CheckList(p.types, elements, computed, ty);
      case _ =>
        fault := CheckNominal(reg, p, id, env, computed);
    }
    r := if fault.None? then Ok(ty) else Err(fault.value);
  }

  lemma CaseOthers(p: CoreProgram, id: CoreId, computed: Computed, ty: TypeId)
    requires ChildrenInBounds(p, id) && p.nodes[id].kind.Case? && |computed| == |p.nodes|
    requires forall i :: 0 <= i < |p.nodes[id].kind.branches| ==> p.nodes[id].kind.branches[i].body < |computed|
    requires p.nodes[id].kind.default.Some? ==> p.nodes[id].kind.default.value < |computed|
    ensures ChildrenComputed(p, id, computed) ==>
              var kind := p.nodes[id].kind;
              var ts := StoredTypes(p, Children(kind));
              ((forall i :: 1 <= i < |ts| ==> ts[i] == ty) <==>
               (forall i :: 0 <= i < |kind.branches| ==> computed[kind.branches[i].body] == Some(ty))
               && (kind.default.Some? ==> computed[kind.default.value] == Some(ty)))
  {
    var kind := p.nodes[id].kind;
    var ts := StoredTypes(p, Children(kind));
    ChildIds(kind);
    if ChildrenComputed(p, id, computed) {
      assert forall i :: 0 <= i < |kind.branches| ==> Some(ts[i + 1]) == computed[kind.branches[i].body];
      if forall i :: 0 <= i < |kind.branches| ==> computed[kind.branches[i].body] == Some(ty) {
        forall i | 1 <= i <= |kind.branches| ensures ts[i] == ty {
          assert computed[kind.branches[i - 1].body] == Some(ty);
        }
      }
    }
  }

  // -----------------------------------------------------------------------
  // Nodes of a tree, named by their only path

  ghost function PathTo(p: CoreProgram, id: CoreId): (path: seq<nat>)
    requires Reaches(Edges(p), p.root, id)
    ensures Walk(Edges(p), p.root, path) == Some(id)
  {
    var path :| Walk(Edges(p), p.root, path) == Some(id);
    path
  }

  /** The binder types on the only path to a node. */
  ghost function EnvOf(p: CoreProgram, id: CoreId): seq<TypeId>
    requires Reaches(Edges(p), p.root, id)
  {
    EnvAt(p, PathTo(p, id))
  }

  ghost predicate TreeProgram(p: CoreProgram) {
    InArena(p) && p.root < |p.nodes| && IsTree(Edges(p), p.root)
  }

  /** `k` is a position among the children of the reachable node `u`. */
  ghost predicate EdgeFrom(p: CoreProgram, u: CoreId, k: nat) {
    Reaches(Edges(p), p.root, u) && u < |p.nodes| && k < |Children(p.nodes[u].kind)|
  }

  function Child(p: CoreProgram, u: CoreId, k: nat): CoreId
    requires u < |p.nodes| && k < |Children(p.nodes[u].kind)|
  {
    Children(p.nodes[u].kind)[k]
  }

  lemma RootFacts(p: CoreProgram)
    requires TreeProgram(p)
    ensures Reaches(Edges(p), p.root, p.root) && EnvOf(p, p.root) == []
  {
    assert Walk(Edges(p), p.root, []) == Some(p.root);
  }

  lemma EnvOfInArena(p: CoreProgram, id: CoreId)
    requires TreeProgram(p) && Reaches(Edges(p), p.root, id)
    ensures id < |p.nodes| && TypesInArena(p.types, EnvOf(p, id)) && ChildrenInBounds(p, id)
  {
    var path := PathTo(p, id);
    EnvAtInArena(p, path);
    forall k | 0 <= k < |Children(p.nodes[id].kind)| ensures Children(p.nodes[id].kind)[k] < |p.nodes| {
      WalkStep(Edges(p), p.root, path, k);
    }
  }

  lemma ChildFacts(p: CoreProgram, u: CoreId, k: nat)
    requires TreeProgram(p) && EdgeFrom(p, u, k)
    ensures Reaches(Edges(p), p.root, Child(p, u, k)) && Child(p, u, k) < |p.nodes| && Child(p, u, k) != p.root
    ensures EnvOf(p, Child(p, u, k)) == Extend(EnvOf(p, u), p.nodes[u].kind, k)
  {
    hide IsTree, InArena, Children, Extend;
    var path, child := PathTo(p, u), Child(p, u, k);
    WalkStep(Edges(p), p.root, path, k);
    OnlyPath(Edges(p), p.root, PathTo(p, child), path + [k]);
    assert (path + [k])[..|path|] == path;
    if child == p.root {
      OnlyPath(Edges(p), p.root, [], path + [k]);
    }
  }

  lemma OneParent(p: CoreProgram, u: CoreId, i: nat, v: CoreId, j: nat)
    requires TreeProgram(p) && EdgeFrom(p, u, i) && EdgeFrom(p, v, j)
    requires Child(p, u, i) == Child(p, v, j)
    ensures u == v && i == j
  {
    hide IsTree, InArena, Children;
    var a, b := PathTo(p, u), PathTo(p, v);
    WalkStep(Edges(p), p.root, a, i);
    WalkStep(Edges(p), p.root, b, j);
    OnlyPath(Edges(p), p.root, a + [i], b + [j]);
    assert (a + [i])[..|a|] == a && (b + [j])[..|b|] == b;
    assert (a + [i])[|a|] == i && (b + [j])[|b|] == j;
  }

  // -----------------------------------------------------------------------
  // The work list

  datatype Frame = Frame(id: CoreId, visited: bool, locals: seq<TypeId>)

  /** The frames of a node's children, last child first. */
  function ChildFrames(kind: CoreKind, locals: seq<TypeId>): (fs: seq<Frame>)
    ensures |fs| == |Children(kind)|
    ensures forall j :: 0 <= j < |fs| ==>
              var k := |Children(kind)| - 1 - j;
              fs[j] == Frame(Children(kind)[k], false, Extend(locals, kind, k))
  {
    var n := |Children(kind)|;
    seq(n, j requires 0 <= j < n => Frame(Children(kind)[n - 1 - j], false, Extend(locals, kind, n - 1 - j)))
  }

  ghost predicate Waiting(stack: seq<Frame>, from: nat, id: CoreId) {
    exists j :: from <= j < |stack| && stack[j].id == id
  }

  ghost predicate FramesOk(p: CoreProgram, stack: seq<Frame>) {
    && (forall j :: 0 <= j < |stack| ==>
          Reaches(Edges(p), p.root, stack[j].id) && stack[j].id < |p.nodes| && stack[j].locals == EnvOf(p, stack[j].id))
    && (forall i, j :: 0 <= i < j < |stack| ==> stack[i].id != stack[j].id)
  }

  ghost predicate ComputedOk(reg: Registry, p: CoreProgram, computed: Computed)
    requires TreeProgram(p)
  {
    && |computed| == |p.nodes|
    && forall c :: 0 <= c < |computed| && computed[c].Some? ==>
         computed[c] == Some(p.nodes[c].ty)
         && Reaches(Edges(p), p.root, c)
         && (EnvOfInArena(p, c); NodeOk(reg, p, EnvOf(p, c), c) && ChildrenComputed(p, c, computed))
  }

  /** Children of an expanded frame are recomputed or wait above it. */
  ghost predicate ChildrenAwaited(p: CoreProgram, computed: Computed, stack: seq<Frame>)
    requires |computed| == |p.nodes|
  {
    forall j, k :: 0 <= j < |stack| && stack[j].visited && EdgeFrom(p, stack[j].id, k) ==>
      var c := Child(p, stack[j].id, k);
      (c < |computed| && computed[c].Some?) || Waiting(stack, j + 1, c)
  }

  /** Which nodes have been expanded: those being finished or finished. */
  ghost predicate ExpandedOk(p: CoreProgram, computed: Computed, stack: seq<Frame>, expanded: set<CoreId>)
    requires |computed| == |p.nodes|
  {
    && (forall j :: 0 <= j < |stack| ==>
          (stack[j].visited <==> stack[j].id in expanded)
          && (stack[j].id < |computed| ==> computed[stack[j].id].None?))
    && (forall c :: c in expanded ==>
          c < |computed| && Reaches(Edges(p), p.root, c) && (computed[c].Some? || Waiting(stack, 0, c)))
    && (forall c :: 0 <= c < |computed| && computed[c].Some? ==> c in expanded)
  }

  /** A child is only touched after its parent was expanded. */
  ghost predicate ParentsFirst(p: CoreProgram, stack: seq<Frame>, expanded: set<CoreId>) {
    forall u, k :: EdgeFrom(p, u, k) && (Child(p, u, k) in expanded || Waiting(stack, 0, Child(p, u, k))) ==>
      u in expanded
  }

  ghost predicate PassInvariant(reg: Registry, p: CoreProgram, computed: Computed, stack: seq<Frame>,
                                expanded: set<CoreId>)
    requires TreeProgram(p)
  {
    && |computed| == |p.nodes|
    && FramesOk(p, stack)
    && ComputedOk(reg, p, computed)
    && ChildrenAwaited(p, computed, stack)
    && ExpandedOk(p, computed, stack, expanded)
    && ParentsFirst(p, stack, expanded)
    && (computed[p.root].Some? || Waiting(stack, 0, p.root))
  }

  // -----------------------------------------------------------------------
  // First pop of a node: it is expanded

  ghost predicate Popped(was: seq<Frame>, stack: seq<Frame>, frame: Frame) {
    was == stack + [frame]
  }

  lemma PoppedFrames(was: seq<Frame>, stack: seq<Frame>, frame: Frame)
    requires Popped(was, stack, frame)
    ensures |was| == |stack| + 1 && was[|stack|] == frame
    ensures forall j :: 0 <= j < |stack| ==> was[j] == stack[j]
  {}

  lemma FreshChildren(p: CoreProgram, computed: Computed, was: seq<Frame>, stack: seq<Frame>, frame: Frame,
                      expanded: set<CoreId>, k: nat)
    requires |computed| == |p.nodes| && Popped(was, stack, frame) && !frame.visited
    requires FramesOk(p, was) && ExpandedOk(p, computed, was, expanded) && ParentsFirst(p, was, expanded)
    requires EdgeFrom(p, frame.id, k)
    ensures Child(p, frame.id, k) !in expanded && !Waiting(was, 0, Child(p, frame.id, k))
    ensures frame.id !in expanded
  {
    PoppedFrames(was, stack, frame);
    assert was[|stack|].id !in expanded;
  }

  function Expanded(p: CoreProgram, stack: seq<Frame>, frame: Frame): seq<Frame>
    requires frame.id < |p.nodes|
  {
    stack + [frame.(visited := true)] + ChildFrames(p.nodes[frame.id].kind, frame.locals)
  }

  /** The frames of the expanded stack, by position. */
  lemma ExpandedFrames(p: CoreProgram, stack: seq<Frame>, frame: Frame)
    requires frame.id < |p.nodes|
    ensures var now := Expanded(p, stack, frame);
            var n := |Children(p.nodes[frame.id].kind)|;
            && |now| == |stack| + 1 + n
            && now[|stack|] == frame.(visited := true)
            && (forall j :: 0 <= j < |stack| ==> now[j] == stack[j])
            && (forall j :: |stack| < j < |now| ==>
                  var k := |stack| + n - j;
                  now[j] == Frame(Child(p, frame.id, k), false, Extend(frame.locals, p.nodes[frame.id].kind, k)))
  {
    var now := Expanded(p, stack, frame);
    var frames := ChildFrames(p.nodes[frame.id].kind, frame.locals);
    assert forall j :: |stack| < j < |now| ==> now[j] == frames[j - |stack| - 1];
  }

  lemma ExpandFrames(p: CoreProgram, computed: Computed, was: seq<Frame>, stack: seq<Frame>, frame: Frame,
                     expanded: set<CoreId>)
    requires TreeProgram(p) && |computed| == |p.nodes| && Popped(was, stack, frame) && !frame.visited
    requires FramesOk(p, was) && ExpandedOk(p, computed, was, expanded) && ParentsFirst(p, was, expanded)
    ensures frame.id < |p.nodes| && FramesOk(p, Expanded(p, stack, frame))
  {
    hide TreeProgram, ExpandedOk, ParentsFirst, Expanded, Extend, Popped, EnvOf, Reaches;
    PoppedFrames(was, stack, frame);
    assert was[|stack|].id < |p.nodes|;
    ExpandedFrames(p, stack, frame);
    var now, n := Expanded(p, stack, frame), |Children(p.nodes[frame.id].kind)|;
    forall j | |stack| < j < |now|
      ensures Reaches(Edges(p), p.root, now[j].id) && now[j].id < |p.nodes| && now[j].locals == EnvOf(p, now[j].id)
      ensures forall i :: 0 <= i < j ==> now[i].id != now[j].id
    {
      var k := |stack| + n - j;
      assert EdgeFrom(p, frame.id, k);
      ChildFacts(p, frame.id, k);
      FreshChildren(p, computed, was, stack, frame, expanded, k);
      forall i | 0 <= i < j ensures now[i].id != now[j].id {
        if i <= |stack| {
          assert was[i].id == now[i].id;
        } else if now[i].id == now[j].id {
          assert EdgeFrom(p, frame.id, |stack| + n - i);
          OneParent(p, frame.id, k, frame.id, |stack| + n - i);
        }
      }
    }
    forall i, j | 0 <= i < j < |now| ensures now[i].id != now[j].id {
      if j <= |stack| {
        assert was[i].id == now[i].id && was[j].id == now[j].id;
      }
    }
  }

  lemma ExpandAwaited(p: CoreProgram, computed: Computed, was: seq<Frame>, stack: seq<Frame>, frame: Frame)
    requires TreeProgram(p) && |computed| == |p.nodes| && Popped(was, stack, frame) && frame.id < |p.nodes|
    requires ChildrenAwaited(p, computed, was)
    ensures ChildrenAwaited(p, computed, Expanded(p, stack, frame))
  {
    PoppedFrames(was, stack, frame);
    ExpandedFrames(p, stack, frame);
    var now, n := Expanded(p, stack, frame), |Children(p.nodes[frame.id].kind)|;
    forall j, k | 0 <= j < |now| && now[j].visited && EdgeFrom(p, now[j].id, k)
      ensures var c := Child(p, now[j].id, k);
              (c < |computed| && computed[c].Some?) || Waiting(now, j + 1, c)
    {
      var c := Child(p, now[j].id, k);
      if j == |stack| {
        assert now[|stack| + n - k].id == c;
      } else if !(c < |computed| && computed[c].Some?) {
        assert was[j].visited && Waiting(was, j + 1, c);
        var i :| j + 1 <= i < |was| && was[i].id == c;
        assert now[i].id == c;
      }
    }
  }

  lemma ExpandExpanded(p: CoreProgram, computed: Computed, was: seq<Frame>, stack: seq<Frame>, frame: Frame,
                       expanded: set<CoreId>)
    requires TreeProgram(p) && |computed| == |p.nodes| && Popped(was, stack, frame) && !frame.visited
    requires FramesOk(p, was) && ExpandedOk(p, computed, was, expanded) && ParentsFirst(p, was, expanded)
    requires frame.id < |p.nodes|
    ensures frame.id !in expanded && ExpandedOk(p, computed, Expanded(p, stack, frame), expanded + {frame.id})
  {
    PoppedFrames(was, stack, frame);
    ExpandedFrames(p, stack, frame);
    assert was[|stack|].id !in expanded;
    var now, n := Expanded(p, stack, frame), |Children(p.nodes[frame.id].kind)|;
    forall j | 0 <= j < |now|
      ensures (now[j].visited <==> now[j].id in expanded + {frame.id})
              && (now[j].id < |computed| ==> computed[now[j].id].None?)
    {
      if j < |stack| {
        assert was[j].id == now[j].id && was[|stack|].id != was[j].id;
      } else if j > |stack| {
        var k := |stack| + n - j;
        FreshChildren(p, computed, was, stack, frame, expanded, k);
        assert was[|stack|].id == frame.id;
      }
    }
    forall c | c in expanded + {frame.id}
      ensures c < |computed| && Reaches(Edges(p), p.root, c) && (computed[c].Some? || Waiting(now, 0, c))
    {
      if c == frame.id {
        assert now[|stack|].id == c && Reaches(Edges(p), p.root, was[|stack|].id);
      } else if computed[c].None? {
        var j :| 0 <= j < |was| && was[j].id == c;
        assert now[j].id == c;
      }
    }
  }

  lemma ExpandParents(p: CoreProgram, was: seq<Frame>, stack: seq<Frame>, frame: Frame, expanded: set<CoreId>)
    requires TreeProgram(p) && Popped(was, stack, frame) && frame.id < |p.nodes|
    requires Reaches(Edges(p), p.root, frame.id)
    requires ParentsFirst(p, was, expanded)
    ensures ParentsFirst(p, Expanded(p, stack, frame), expanded + {frame.id})
  {
    PoppedFrames(was, stack, frame);
    ExpandedFrames(p, stack, frame);
    var now, n := Expanded(p, stack, frame), |Children(p.nodes[frame.id].kind)|;
    forall u, k | EdgeFrom(p, u, k) && (Child(p, u, k) in expanded + {frame.id} || Waiting(now, 0, Child(p, u, k)))
      ensures u in expanded + {frame.id}
    {
      var c := Child(p, u, k);
      if c == frame.id {
        assert was[|stack|].id == c;
        assert Waiting(was, 0, c);
      } else if c !in expanded {
        var j :| 0 <= j < |now| && now[j].id == c;
        if j <= |stack| {
          assert was[j].id == c;
          assert Waiting(was, 0, c);
        } else {
          assert EdgeFrom(p, frame.id, |stack| + n - j);
          OneParent(p, u, k, frame.id, |stack| + n - j);
        }
      }
    }
  }

  lemma ExpandStep(reg: Registry, p: CoreProgram, computed: Computed, was: seq<Frame>, stack: seq<Frame>, frame: Frame,
                   expanded: set<CoreId>)
    requires TreeProgram(p) && Popped(was, stack, frame) && !frame.visited
    requires PassInvariant(reg, p, computed, was, expanded)
    ensures frame.id < |p.nodes| && frame.id !in expanded
    ensures PassInvariant(reg, p, computed, Expanded(p, stack, frame), expanded + {frame.id})
  {
    hide FramesOk, ComputedOk, ChildrenAwaited, ExpandedOk, ParentsFirst;
    FrameReaches(p, was, stack, frame);
    ExpandFrames(p, computed, was, stack, frame, expanded);
    ExpandAwaited(p, computed, was, stack, frame);
    ExpandExpanded(p, computed, was, stack, frame, expanded);
    ExpandParents(p, was, stack, frame, expanded);
    PoppedFrames(was, stack, frame);
    ExpandedFrames(p, stack, frame);
    if computed[p.root].None? {
      var j :| 0 <= j < |was| && was[j].id == p.root;
      assert Expanded(p, stack, frame)[j].id == p.root;
    }
  }

  lemma FrameReaches(p: CoreProgram, was: seq<Frame>, stack: seq<Frame>, frame: Frame)
    requires Popped(was, stack, frame) && FramesOk(p, was)
    ensures frame.id < |p.nodes| && Reaches(Edges(p), p.root, frame.id) && frame.locals == EnvOf(p, frame.id)
  {
    PoppedFrames(was, stack, frame);
    assert was[|stack|] == frame;
  }

  // -----------------------------------------------------------------------
  // Second pop of a node: its children are recomputed

  lemma ComputedAt(reg: Registry, p: CoreProgram, computed: Computed, c: CoreId)
    requires TreeProgram(p) && ComputedOk(reg, p, computed) && c < |computed| && computed[c].Some?
    ensures computed[c] == Some(p.nodes[c].ty) && ChildrenInBounds(p, c) && ChildrenComputed(p, c, computed)
  {
    hide ChildrenComputed, NodeOk;
    EnvOfInArena(p, c);
  }

  lemma AwaitedAtTop(p: CoreProgram, computed: Computed, was: seq<Frame>, stack: seq<Frame>, frame: Frame, k: nat)
    requires Popped(was, stack, frame) && frame.visited && |computed| == |p.nodes|
    requires ChildrenAwaited(p, computed, was) && EdgeFrom(p, frame.id, k)
    ensures Child(p, frame.id, k) < |computed| && computed[Child(p, frame.id, k)].Some?
  {
    PoppedFrames(was, stack, frame);
    assert EdgeFrom(p, was[|stack|].id, k);
  }

  /** The "was not verified" cases never arise. */
  lemma ChildrenAreComputed(reg: Registry, p: CoreProgram, computed: Computed, was: seq<Frame>, stack: seq<Frame>,
                            frame: Frame, expanded: set<CoreId>)
    requires TreeProgram(p) && Popped(was, stack, frame) && frame.visited
    requires PassInvariant(reg, p, computed, was, expanded)
    ensures ChildrenInBounds(p, frame.id) && ChildrenComputed(p, frame.id, computed)
  {
    hide FramesOk, ComputedOk, ChildrenAwaited, ExpandedOk, ParentsFirst;
    FrameReaches(p, was, stack, frame);
    EnvOfInArena(p, frame.id);
    forall k | 0 <= k < |Children(p.nodes[frame.id].kind)|
      ensures computed[Children(p.nodes[frame.id].kind)[k]] == Some(p.nodes[Children(p.nodes[frame.id].kind)[k]].ty)
    {
      assert EdgeFrom(p, frame.id, k);
      AwaitedAtTop(p, computed, was, stack, frame, k);
      ComputedAt(reg, p, computed, Child(p, frame.id, k));
    }
  }

  lemma FinishComputed(reg: Registry, p: CoreProgram, computed: Computed, id: CoreId)
    requires TreeProgram(p) && ComputedOk(reg, p, computed) && Reaches(Edges(p), p.root, id)
    requires id < |p.nodes| && TypesInArena(p.types, EnvOf(p, id))
    requires ChildrenInBounds(p, id) && ChildrenComputed(p, id, computed) && NodeOk(reg, p, EnvOf(p, id), id)
    requires computed[id].None?
    ensures ComputedOk(reg, p, computed[id := Some(p.nodes[id].ty)])
  {
    hide NodeOk;
    var computed' := computed[id := Some(p.nodes[id].ty)];
    forall c | 0 <= c < |computed'| && computed'[c].Some?
      ensures computed'[c] == Some(p.nodes[c].ty)
      ensures Reaches(Edges(p), p.root, c)
      ensures (EnvOfInArena(p, c); NodeOk(reg, p, EnvOf(p, c), c) && ChildrenComputed(p, c, computed'))
    {
      EnvOfInArena(p, c);
      assert ChildrenComputed(p, c, computed);
    }
  }

  lemma FinishAwaited(p: CoreProgram, computed: Computed, was: seq<Frame>, stack: seq<Frame>, frame: Frame)
    requires Popped(was, stack, frame) && |computed| == |p.nodes| && frame.id < |p.nodes|
    requires ChildrenAwaited(p, computed, was)
    ensures ChildrenAwaited(p, computed[frame.id := Some(p.nodes[frame.id].ty)], stack)
  {
    PoppedFrames(was, stack, frame);
    var computed' := computed[frame.id := Some(p.nodes[frame.id].ty)];
    forall j, k | 0 <= j < |stack| && stack[j].visited && EdgeFrom(p, stack[j].id, k)
      ensures var c := Child(p, stack[j].id, k);
              (c < |computed'| && computed'[c].Some?) || Waiting(stack, j + 1, c)
    {
      var c := Child(p, stack[j].id, k);
      assert was[j].visited && EdgeFrom(p, was[j].id, k);
      if !(c < |computed| && computed[c].Some?) {
        var i :| j + 1 <= i < |was| && was[i].id == c;
        assert i < |stack| ==> stack[i].id == c;
      }
    }
  }

  lemma FinishExpanded(p: CoreProgram, computed: Computed, was: seq<Frame>, stack: seq<Frame>, frame: Frame,
                       expanded: set<CoreId>)
    requires Popped(was, stack, frame) && frame.visited && |computed| == |p.nodes|
    requires FramesOk(p, was) && ExpandedOk(p, computed, was, expanded)
    ensures frame.id < |p.nodes| && computed[frame.id].None?
    ensures ExpandedOk(p, computed[frame.id := Some(p.nodes[frame.id].ty)], stack, expanded)
  {
    PoppedFrames(was, stack, frame);
    assert was[|stack|].id < |p.nodes|;
    var computed' := computed[frame.id := Some(p.nodes[frame.id].ty)];
    assert forall j :: 0 <= j < |stack| ==> was[j].id == stack[j].id && was[j].id != was[|stack|].id;
    assert was[|stack|].id in expanded;
    forall c | c in expanded && computed'[c].None? ensures Waiting(stack, 0, c) {
      var j :| 0 <= j < |was| && was[j].id == c;
      assert stack[j].id == c;
    }
  }

  lemma FinishFrames(p: CoreProgram, was: seq<Frame>, stack: seq<Frame>, frame: Frame, expanded: set<CoreId>)
    requires Popped(was, stack, frame) && FramesOk(p, was) && ParentsFirst(p, was, expanded)
    ensures FramesOk(p, stack) && ParentsFirst(p, stack, expanded)
  {
    PoppedFrames(was, stack, frame);
    forall c | Waiting(stack, 0, c) ensures Waiting(was, 0, c) {
      var j :| 0 <= j < |stack| && stack[j].id == c;
      assert was[j].id == c;
    }
  }

  lemma FinishStep(reg: Registry, p: CoreProgram, computed: Computed, was: seq<Frame>, stack: seq<Frame>, frame: Frame,
                   expanded: set<CoreId>)
    requires TreeProgram(p) && Popped(was, stack, frame) && frame.visited
    requires PassInvariant(reg, p, computed, was, expanded)
    requires frame.id < |p.nodes| && Reaches(Edges(p), p.root, frame.id) && TypesInArena(p.types, EnvOf(p, frame.id))
    requires ChildrenInBounds(p, frame.id) && NodeOk(reg, p, EnvOf(p, frame.id), frame.id)
    ensures computed[frame.id].None?
    ensures PassInvariant(reg, p, computed[frame.id := Some(p.nodes[frame.id].ty)], stack, expanded)
  {
    ChildrenAreComputed(reg, p, computed, was, stack, frame, expanded);
    hide FramesOk, ComputedOk, ChildrenAwaited, ExpandedOk, ParentsFirst, NodeOk, ChildrenComputed;
    FinishExpanded(p, computed, was, stack, frame, expanded);
    FinishFrames(p, was, stack, frame, expanded);
    FinishAwaited(p, computed, was, stack, frame);
    FinishComputed(reg, p, computed, frame.id);
    PoppedFrames(was, stack, frame);
    if computed[p.root].None? && p.root != frame.id {
      var j :| 0 <= j < |was| && was[j].id == p.root;
      assert stack[j].id == p.root;
    }
  }

  lemma BadNodeRefutes(reg: Registry, p: CoreProgram, id: CoreId)
    requires TreeProgram(p) && Reaches(Edges(p), p.root, id) && ChildrenInBounds(p, id)
    requires TypesInArena(p.types, EnvOf(p, id)) && !NodeOk(reg, p, EnvOf(p, id), id)
    ensures !EveryNodeOk(reg, p)
  {
    var path := PathTo(p, id);
    EnvAtInArena(p, path);
    if EveryNodeOk(reg, p) {
      NodeOkAt(reg, p, path);
    }
  }

  // -----------------------------------------------------------------------
  // Start and end

  lemma PassStarts(reg: Registry, p: CoreProgram, computed: Computed)
    requires TreeProgram(p) && |computed| == |p.nodes|
    requires forall c :: 0 <= c < |computed| ==> computed[c].None?
    ensures PassInvariant(reg, p, computed, [Frame(p.root, false, [])], {})
  {
    RootFacts(p);
    var stack := [Frame(p.root, false, [])];
    assert stack[0].id == p.root && Waiting(stack, 0, p.root);
    forall u, k | EdgeFrom(p, u, k) ensures !Waiting(stack, 0, Child(p, u, k)) {
      ChildFacts(p, u, k);
    }
  }

  lemma {:induction false} AllComputed(reg: Registry, p: CoreProgram, computed: Computed, path: seq<nat>)
    requires TreeProgram(p) && |computed| == |p.nodes| && ComputedOk(reg, p, computed) && computed[p.root].Some?
    requires Walk(Edges(p), p.root, path).Some?
    ensures Walk(Edges(p), p.root, path).value < |p.nodes| && computed[Walk(Edges(p), p.root, path).value].Some?
    decreases |path|
  {
    hide ComputedOk;
    if path != [] {
      AllComputed(reg, p, computed, path[..|path| - 1]);
      var u := Walk(Edges(p), p.root, path[..|path| - 1]).value;
      ComputedAt(reg, p, computed, u);
      assert computed[Children(p.nodes[u].kind)[path[|path| - 1]]].Some?;
    }
  }

  lemma PassDone(reg: Registry, p: CoreProgram, computed: Computed, expanded: set<CoreId>)
    requires TreeProgram(p) && PassInvariant(reg, p, computed, [], expanded)
    ensures EveryNodeOk(reg, p) && computed[p.root] == Some(p.nodes[p.root].ty)
    ensures forall c :: c in expanded <==> Reaches(Edges(p), p.root, c)
  {
    forall path | Walk(Edges(p), p.root, path).Some?
      ensures ChildrenInBounds(p, Walk(Edges(p), p.root, path).value)
              && (EnvAtInArena(p, path); NodeOk(reg, p, EnvAt(p, path), Walk(Edges(p), p.root, path).value))
      ensures Walk(Edges(p), p.root, path).value in expanded
    {
      AllComputed(reg, p, computed, path);
      var id := Walk(Edges(p), p.root, path).value;
      EnvOfInArena(p, id);
      assert PathTo(p, id) == path;
    }
  }

  /** The pass accepts exactly when every node obeys its rule, and then it pops
      every reachable node exactly twice. */
  method TypingPass(reg: Registry, p: CoreProgram)
    returns (fault: Option<Reason>, rootType: Option<TypeId>, ghost pops: nat, ghost reached: set<CoreId>)
    requires TreeProgram(p)
    ensures fault.None? <==> EveryNodeOk(reg, p)
    ensures fault.None? ==> rootType == Some(p.nodes[p.root].ty)
    ensures fault.None? ==> pops == 2 * |reached| && forall c :: c in reached <==> Reaches(Edges(p), p.root, c)
  {
    hide PassInvariant, EveryNodeOk, NodeOk, IsTree;
    var computed: Computed := seq(|p.nodes|, _ => None);
    var stack := [Frame(p.root, false, [])];
    reached := {};
    ghost var finished: set<CoreId>, all := {}, Ids(|p.nodes|);
    pops := 0;
    PassStarts(reg, p, computed);
    while stack != []
      invariant |computed| == |p.nodes| && PassInvariant(reg, p, computed, stack, reached)
      invariant reached <= all && finished <= all
      invariant forall c: CoreId :: c < |computed| ==> (c in finished <==> computed[c].Some?)
      invariant pops == |reached| + |finished|
      decreases all - reached, |stack|
    {
      var frame := stack[|stack| - 1];
      ghost var was := stack;
      stack := stack[..|stack| - 1];
      assert Popped(was, stack, frame);
      pops := pops + 1;
      FrameFacts(reg, p, computed, was, stack, frame, reached);
      var ty := p.nodes[frame.id].ty;
      var closed := TypeIsClosed(p.types, ty);
      if !closed {
        OpenTypeRefutes(reg, p, frame.id);
        return Some(OpenType), None, pops, reached;
      }
      if !frame.visited {
        ExpandStep(reg, p, computed, was, stack, frame, reached);
        reached := reached + {frame.id};
        stack := stack + [frame.(visited := true)] + ChildFrames(p.nodes[frame.id].kind, frame.locals);
      } else {
        ChildrenAreComputed(reg, p, computed, was, stack, frame, reached);
        var inferred := InferNode(reg, p, frame.id, frame.locals, computed);
        NodeOkByRule(reg, p, frame.locals, frame.id);
        if inferred != Ok(ty) {
          BadNodeRefutes(reg, p, frame.id);
          return Some(if inferred.Err? then inferred.error else StoredTypeDiffers), None, pops, reached;
        }
        FinishStep(reg, p, computed, was, stack, frame, reached);
        computed := computed[frame.id := Some(ty)];
        finished := finished + {frame.id};
      }
    }
    PassDone(reg, p, computed, reached);
    AllFinished(reg, p, computed, reached, finished);
    return None, computed[p.root], pops, reached;
  }

  lemma FrameFacts(reg: Registry, p: CoreProgram, computed: Computed, was: seq<Frame>, stack: seq<Frame>, frame: Frame,
                   expanded: set<CoreId>)
    requires TreeProgram(p) && Popped(was, stack, frame) && PassInvariant(reg, p, computed, was, expanded)
    ensures Reaches(Edges(p), p.root, frame.id) && ChildrenInBounds(p, frame.id)
    ensures frame.locals == EnvOf(p, frame.id) && TypesInArena(p.types, frame.locals)
    ensures p.nodes[frame.id].ty < |p.types| && ComputedInArena(p.types, computed)
  {
    FrameReaches(p, was, stack, frame);
    EnvOfInArena(p, frame.id);
  }

  lemma OpenTypeRefutes(reg: Registry, p: CoreProgram, id: CoreId)
    requires TreeProgram(p) && Reaches(Edges(p), p.root, id) && ChildrenInBounds(p, id)
    requires !Closed(p.types, p.nodes[id].ty)
    ensures !EveryNodeOk(reg, p)
  {
    EnvOfInArena(p, id);
    BadNodeRefutes(reg, p, id);
  }

  lemma NodeOkByRule(reg: Registry, p: CoreProgram, env: seq<TypeId>, id: CoreId)
    requires InArena(p) && TypesInArena(p.types, env) && ChildrenInBounds(p, id) && Closed(p.types, p.nodes[id].ty)
    ensures NodeOk(reg, p, env, id) <==>
              Rule(reg, p.types, p.plans, env, p.nodes[id].kind, StoredTypes(p, Children(p.nodes[id].kind)),
                   p.nodes[id].ty)
  {}

  lemma AllFinished(reg: Registry, p: CoreProgram, computed: Computed, expanded: set<CoreId>, finished: set<CoreId>)
    requires TreeProgram(p) && PassInvariant(reg, p, computed, [], expanded)
    requires finished <= Ids(|p.nodes|) && expanded <= Ids(|p.nodes|)
    requires forall c: CoreId :: c < |computed| ==> (c in finished <==> computed[c].Some?)
    ensures finished == expanded
  {}
}
