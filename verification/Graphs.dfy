/** Finite ordered graphs: the successors of node `i` are `g[i]`, in order.
    The expression graph and the instance-evidence graph of `hell-core` are
    both read through this view. */
module Graphs {
  import opened Wrappers

  type Graph = seq<seq<nat>>

  /** The node at the end of a path, given as the successive edge positions.
      Only edges of nodes that exist can be followed; the last node itself may
      be out of bounds. */
  ghost function Walk(g: Graph, from: nat, path: seq<nat>): Option<nat>
    decreases |path|
  {
    if path == [] then Some(from)
    else
      var at := Walk(g, from, path[..|path| - 1]);
      var edge := path[|path| - 1];
      if at.Some? && at.value < |g| && edge < |g[at.value]| then Some(g[at.value][edge]) else None
  }

  /** Every node that can be reached from `root` exists. */
  ghost predicate InBounds(g: Graph, root: nat) {
    forall path :: Walk(g, root, path).Some? ==> Walk(g, root, path).value < |g|
  }

  /** No node can be reached from `root` along two different paths: there is
      neither sharing nor a cycle. */
  ghost predicate UniquePaths(g: Graph, root: nat) {
    forall p, q :: Walk(g, root, p).Some? && Walk(g, root, p) == Walk(g, root, q) ==> p == q
  }

  ghost predicate IsTree(g: Graph, root: nat) {
    InBounds(g, root) && UniquePaths(g, root)
  }

  lemma OnlyPath(g: Graph, root: nat, p: seq<nat>, q: seq<nat>)
    requires IsTree(g, root) && Walk(g, root, p).Some? && Walk(g, root, p) == Walk(g, root, q)
    ensures p == q && Walk(g, root, p).value < |g|
  {}

  /** The ids `0 .. n - 1`. */
  ghost function Ids(n: nat): (s: set<nat>)
    ensures forall i: nat :: i in s <==> i < n
    ensures |s| == n
  {
    if n == 0 then {} else Ids(n - 1) + {n - 1}
  }

  lemma {:induction false} FullSubset(found: set<nat>, n: nat)
    requires forall id :: id in found ==> id < n
    ensures |found| <= n
    ensures |found| == n <==> forall id: nat :: id < n ==> id in found
  {
    if n == 0 {
      assert found == {};
    } else {
      FullSubset(found - {n - 1}, n - 1);
    }
  }

  lemma WalkStep(g: Graph, from: nat, path: seq<nat>, edge: nat)
    requires Walk(g, from, path).Some?
    requires Walk(g, from, path).value < |g| && edge < |g[Walk(g, from, path).value]|
    ensures Walk(g, from, path + [edge]) == Some(g[Walk(g, from, path).value][edge])
  {
    assert (path + [edge])[..|path|] == path;
  }

  ghost predicate Reaches(g: Graph, from: nat, to: nat) {
    exists path :: Walk(g, from, path) == Some(to)
  }

  /** Reached along at least one edge. */
  ghost predicate Leads(g: Graph, from: nat, to: nat) {
    exists path :: path != [] && Walk(g, from, path) == Some(to)
  }

  lemma {:induction false} WalkOn(g: Graph, from: nat, p: seq<nat>, q: seq<nat>)
    requires Walk(g, from, p).Some?
    ensures Walk(g, from, p + q) == Walk(g, Walk(g, from, p).value, q)
    decreases |q|
  {
    if q == [] {
      assert p + q == p;
    } else {
      WalkOn(g, from, p, q[..|q| - 1]);
      assert (p + q)[..|p + q| - 1] == p + q[..|q| - 1];
    }
  }

  lemma EdgeLeads(g: Graph, u: nat, i: nat)
    requires u < |g| && i < |g[u]|
    ensures Leads(g, u, g[u][i])
  {
    WalkStep(g, u, [], i);
  }

  lemma ReachesThenLeads(g: Graph, a: nat, b: nat, c: nat)
    requires Leads(g, b, c)
    ensures Reaches(g, a, b) ==> Reaches(g, a, c)
    ensures Leads(g, a, b) ==> Leads(g, a, c)
  {
    var q :| q != [] && Walk(g, b, q) == Some(c);
    if Reaches(g, a, b) {
      var p :| Walk(g, a, p) == Some(b);
      WalkOn(g, a, p, q);
    }
    if Leads(g, a, b) {
      var p :| p != [] && Walk(g, a, p) == Some(b);
      WalkOn(g, a, p, q);
    }
  }

  // -----------------------------------------------------------------------
  // The tree check: a depth-first pass with colours and in-degree counts.

  datatype GraphFault = OutOfBounds(at: nat) | Cyclic(at: nat) | Shared(at: nat)

  const WHITE: nat := 0
  const GREY: nat := 1
  const BLACK: nat := 2

  function SaturatingAdd32(a: nat, b: nat): nat {
    if a + b < 0x1_0000_0000 then a + b else 0xffff_ffff
  }

  type Frame = (nat, bool)

  /** What the pass has learned. `parent[c]` is the one recorded edge into `c`,
      `path[c]` a path from the root to `c`. */
  ghost predicate Bookkeeping(g: Graph, root: nat, incoming: seq<nat>, colors: seq<nat>,
                              parent: map<nat, (nat, nat)>, path: map<nat, seq<nat>>)
  {
    && |incoming| == |colors| == |g|
    && root < |g|
    && (forall c :: c in path ==> c < |g| && Walk(g, root, path[c]) == Some(c))
    && (root in path && path[root] == [])
    && (forall c :: c in parent ==>
          c < |g| && parent[c].0 < |g| && parent[c].1 < |g[parent[c].0]|
          && g[parent[c].0][parent[c].1] == c && parent[c].0 in path)
    && (forall c :: 0 <= c < |g| ==> incoming[c] == if c in parent then 1 else 0)
    && (forall c :: 0 <= c < |g| && colors[c] != WHITE ==> c in path)
    && (forall c: nat {:trigger c in parent} :: c < |g| && colors[c] != WHITE && c != root ==> c in parent)
    && (forall c :: 0 <= c < |g| ==> colors[c] <= BLACK)
  }

  /** The shape of the work list once the root has been entered. */
  ghost predicate Pending(g: Graph, root: nat, colors: seq<nat>, stack: seq<Frame>,
                          parent: map<nat, (nat, nat)>, path: map<nat, seq<nat>>)
    requires |colors| == |g| && root < |g|
  {
    && (forall j :: 0 <= j < |stack| ==> stack[j].0 < |g| && stack[j].0 in path)
    && (forall j :: 0 <= j < |stack| && !stack[j].1 ==>
          stack[j].0 in parent && (colors[stack[j].0] == WHITE || stack[j].0 == root))
    && (forall i, j :: 0 <= i < j < |stack| && !stack[i].1 && !stack[j].1 ==> stack[i].0 != stack[j].0)
    && (forall j :: 0 <= j < |stack| && stack[j].1 ==> colors[stack[j].0] != WHITE && (j > 0 ==> stack[j].0 != root))
    && (stack != [] ==> stack[0] == (root, true) && colors[root] == GREY)
  }

  /** Every edge of `u` from position `from` on is recorded, and its target is
      done or waiting. */
  ghost predicate EdgesRecorded(g: Graph, root: nat, colors: seq<nat>, stack: seq<Frame>,
                                parent: map<nat, (nat, nat)>, u: nat, from: nat)
    requires |colors| == |g| && u < |g|
  {
    forall i :: from <= i < |g[u]| ==>
      g[u][i] < |g| && g[u][i] in parent && parent[g[u][i]] == (u, i)
      && ((colors[g[u][i]] != WHITE && g[u][i] != root) || (g[u][i], false) in stack)
  }

  /** Two recorded ways into one node refute uniqueness. */
  lemma TwoPathsRefuteTree(g: Graph, root: nat, p: seq<nat>, q: seq<nat>)
    requires p != q && Walk(g, root, p).Some? && Walk(g, root, p) == Walk(g, root, q)
    ensures !IsTree(g, root)
  {}

  lemma SecondEdgeRefutesTree(g: Graph, root: nat, u: nat, i: nat, v: nat, j: nat, p: seq<nat>, q: seq<nat>)
    requires u < |g| && i < |g[u]| && v < |g| && j < |g[v]|
    requires Walk(g, root, p) == Some(u) && Walk(g, root, q) == Some(v)
    requires g[u][i] == g[v][j] && (u, i) != (v, j)
    ensures !IsTree(g, root)
  {
    WalkStep(g, root, p, i);
    WalkStep(g, root, q, j);
    assert (p + [i])[..|p|] == p && (q + [j])[..|q|] == q;
    TwoPathsRefuteTree(g, root, p + [i], q + [j]);
  }

  lemma OutOfBoundsRefutesTree(g: Graph, root: nat, u: nat, i: nat, p: seq<nat>)
    requires u < |g| && i < |g[u]| && Walk(g, root, p) == Some(u)
    requires g[u][i] >= |g|
    ensures !IsTree(g, root)
  {
    WalkStep(g, root, p, i);
  }

  // One edge `(id, k)` into `child`, not recorded before, is recorded.

  ghost function PathWith(path: map<nat, seq<nat>>, root: nat, id: nat, k: nat, child: nat): map<nat, seq<nat>>
    requires id in path
  {
    if child == root then path else path[child := path[id] + [k]]
  }

  lemma RecordInBookkeeping(g: Graph, root: nat, incoming: seq<nat>, colors: seq<nat>,
                            parent: map<nat, (nat, nat)>, path: map<nat, seq<nat>>, id: nat, k: nat)
    requires Bookkeeping(g, root, incoming, colors, parent, path)
    requires id in path && k < |g[id]| && g[id][k] < |g| && g[id][k] !in parent
    ensures Bookkeeping(g, root, incoming[g[id][k] := 1], colors,
                        parent[g[id][k] := (id, k)], PathWith(path, root, id, k, g[id][k]))
  {
    WalkStep(g, root, path[id], k);
  }

  lemma RecordInPending(g: Graph, root: nat, incoming: seq<nat>, colors: seq<nat>, stack: seq<Frame>,
                        parent: map<nat, (nat, nat)>, path: map<nat, seq<nat>>, id: nat, k: nat)
    requires Bookkeeping(g, root, incoming, colors, parent, path)
    requires Pending(g, root, colors, stack, parent, path) && stack != []
    requires id in path && k < |g[id]| && g[id][k] < |g| && g[id][k] !in parent
    ensures Pending(g, root, colors, stack + [(g[id][k], false)],
                    parent[g[id][k] := (id, k)], PathWith(path, root, id, k, g[id][k]))
  {
    var child := g[id][k];
    var stack' := stack + [(child, false)];
    assert forall j :: 0 <= j < |stack| ==> stack'[j] == stack[j];
  }

  lemma RecordInEdges(g: Graph, root: nat, incoming: seq<nat>, colors: seq<nat>, stack: seq<Frame>,
                      parent: map<nat, (nat, nat)>, path: map<nat, seq<nat>>, id: nat, k: nat)
    requires Bookkeeping(g, root, incoming, colors, parent, path)
    requires id in path && k < |g[id]| && g[id][k] < |g| && g[id][k] !in parent
    requires EdgesRecorded(g, root, colors, stack, parent, id, k + 1)
    ensures EdgesRecorded(g, root, colors, stack + [(g[id][k], false)], parent[g[id][k] := (id, k)], id, k)
  {
    var stack' := stack + [(g[id][k], false)];
    assert stack'[|stack|] == (g[id][k], false);
    assert forall f :: f in stack ==> f in stack';
  }

  lemma NoEdgesYet(g: Graph, root: nat, colors: seq<nat>, stack: seq<Frame>, parent: map<nat, (nat, nat)>, id: nat)
    requires |colors| == |g| && id < |g|
    ensures EdgesRecorded(g, root, colors, stack, parent, id, |g[id]|)
  {}

  /** Pushes the children of `id`, last first, counting their in-degrees. */
  method PushChildren(g: Graph, root: nat, id: nat, incoming0: seq<nat>, colors: seq<nat>, stack0: seq<Frame>,
                      ghost parent0: map<nat, (nat, nat)>, ghost path0: map<nat, seq<nat>>)
    returns (fault: Option<GraphFault>, incoming: seq<nat>, stack: seq<Frame>,
             ghost parent: map<nat, (nat, nat)>, ghost path: map<nat, seq<nat>>)
    requires Bookkeeping(g, root, incoming0, colors, parent0, path0)
    requires Pending(g, root, colors, stack0, parent0, path0) && stack0 != []
    requires id in path0
    requires forall c :: c in parent0 ==> parent0[c].0 != id
    ensures fault.Some? ==> !IsTree(g, root)
    ensures fault.None? ==> Bookkeeping(g, root, incoming, colors, parent, path)
    ensures fault.None? ==> Pending(g, root, colors, stack, parent, path) && stack0 <= stack
    ensures fault.None? ==> forall c :: c in parent0 ==> c in parent && parent[c] == parent0[c]
    ensures fault.None? ==> forall c :: c in parent ==> c in parent0 || parent[c].0 == id
    ensures fault.None? ==> EdgesRecorded(g, root, colors, stack, parent, id, 0)
  {
    hide IsTree, Walk, Pending, EdgesRecorded;
    incoming, stack, parent, path := incoming0, stack0, parent0, path0;
    var k := |g[id]|;
    NoEdgesYet(g, root, colors, stack, parent, id);
    while k > 0
      invariant 0 <= k <= |g[id]|
      invariant Bookkeeping(g, root, incoming, colors, parent, path)
      invariant Pending(g, root, colors, stack, parent, path) && stack0 <= stack
      invariant id in path
      invariant forall c :: c in parent0 ==> c in parent && parent[c] == parent0[c]
      invariant forall c :: c in parent && parent[c].0 == id ==> parent[c].1 >= k
      invariant forall c :: c in parent ==> c in parent0 || parent[c].0 == id
      invariant EdgesRecorded(g, root, colors, stack, parent, id, k)
    {
      k := k - 1;
      var child := g[id][k];
      if child >= |g| {
        OutOfBoundsRefutesTree(g, root, id, k, path[id]);
        return Some(OutOfBounds(id)), incoming, stack, parent, path;
      }
      if SaturatingAdd32(incoming[child], 1) > 1 {
        var (v, j) := parent[child];
        SecondEdgeRefutesTree(g, root, id, k, v, j, path[id], path[v]);
        return Some(Shared(child)), incoming, stack, parent, path;
      }
      RecordInBookkeeping(g, root, incoming, colors, parent, path, id, k);
      RecordInPending(g, root, incoming, colors, stack, parent, path, id, k);
      RecordInEdges(g, root, incoming, colors, stack, parent, path, id, k);
      path := PathWith(path, root, id, k, child);
      parent := parent[child := (id, k)];
      incoming := incoming[child := SaturatingAdd32(incoming[child], 1)];
      stack := stack + [(child, false)];
    }
    fault := None;
  }

  /** All entered nodes have their edges recorded, and only entered nodes do. */
  ghost predicate EnteredRecorded(g: Graph, root: nat, colors: seq<nat>, stack: seq<Frame>,
                                  parent: map<nat, (nat, nat)>)
    requires |colors| == |g|
  {
    && (forall u :: 0 <= u < |g| && colors[u] != WHITE ==> EdgesRecorded(g, root, colors, stack, parent, u, 0))
    && (forall c :: c in parent ==> parent[c].0 < |g| && colors[parent[c].0] != WHITE)
  }

  lemma LeavePending(g: Graph, root: nat, colors: seq<nat>, stack: seq<Frame>,
                     parent: map<nat, (nat, nat)>, path: map<nat, seq<nat>>, id: nat)
    requires |colors| == |g| && root < |g| && id < |g|
    requires Pending(g, root, colors, stack + [(id, true)], parent, path)
    ensures colors[id] != WHITE && Pending(g, root, colors[id := BLACK], stack, parent, path)
  {
    var was := stack + [(id, true)];
    assert forall j :: 0 <= j < |stack| ==> was[j] == stack[j];
    assert was[|stack|] == (id, true);
  }

  lemma LeaveBookkeeping(g: Graph, root: nat, incoming: seq<nat>, colors: seq<nat>,
                         parent: map<nat, (nat, nat)>, path: map<nat, seq<nat>>, id: nat)
    requires Bookkeeping(g, root, incoming, colors, parent, path) && id < |g| && colors[id] != WHITE
    ensures Bookkeeping(g, root, incoming, colors[id := BLACK], parent, path)
  {}

  lemma LeaveEdges(g: Graph, root: nat, colors: seq<nat>, stack: seq<Frame>, parent: map<nat, (nat, nat)>, id: nat)
    requires |colors| == |g| && id < |g| && colors[id] != WHITE
    requires EnteredRecorded(g, root, colors, stack + [(id, true)], parent)
    ensures EnteredRecorded(g, root, colors[id := BLACK], stack, parent)
  {
    var colors' := colors[id := BLACK];
    forall u | 0 <= u < |g| && colors'[u] != WHITE
      ensures EdgesRecorded(g, root, colors', stack, parent, u, 0)
    {
      assert EdgesRecorded(g, root, colors, stack + [(id, true)], parent, u, 0);
    }
  }

  lemma EnterPending(g: Graph, root: nat, incoming: seq<nat>, colors: seq<nat>, stack: seq<Frame>,
                     parent: map<nat, (nat, nat)>, path: map<nat, seq<nat>>, id: nat)
    requires Bookkeeping(g, root, incoming, colors, parent, path)
    requires Pending(g, root, colors, stack + [(id, false)], parent, path) && stack != []
    requires id < |g| && colors[id] == WHITE
    ensures id != root && id in path && id in parent
    ensures Pending(g, root, colors[id := GREY], stack + [(id, true)], parent, path)
  {
    var was, now := stack + [(id, false)], stack + [(id, true)];
    assert was[|stack|] == (id, false) && now[|stack|] == (id, true);
    assert forall j :: 0 <= j < |stack| ==> was[j] == stack[j] == now[j];
    assert was[0] == (root, true) && id != root;
  }

  lemma EnterEdges(g: Graph, root: nat, colors: seq<nat>, stack: seq<Frame>,
                   parent: map<nat, (nat, nat)>, id: nat, u: nat)
    requires |colors| == |g| && id < |g| && u < |g| && id != root
    requires EdgesRecorded(g, root, colors, stack + [(id, false)], parent, u, 0)
    ensures EdgesRecorded(g, root, colors[id := GREY], stack + [(id, true)], parent, u, 0)
  {
    var was, now := stack + [(id, false)], stack + [(id, true)];
    forall f | f in was && f != (id, false) ensures f in now {
      assert f in stack;
    }
  }

  lemma EnterRoot(g: Graph, root: nat, incoming: seq<nat>, colors: seq<nat>, path: map<nat, seq<nat>>)
    requires Bookkeeping(g, root, incoming, colors, map[], path)
    requires forall u :: 0 <= u < |g| ==> colors[u] == WHITE
    ensures Bookkeeping(g, root, incoming, colors[root := GREY], map[], path)
    ensures Pending(g, root, colors[root := GREY], [(root, true)], map[], path)
  {}

  /** Growing the work list and the records keeps what was recorded. */
  lemma GrowRecords(g: Graph, root: nat, colors: seq<nat>, stack: seq<Frame>, stack': seq<Frame>,
                    parent: map<nat, (nat, nat)>, parent': map<nat, (nat, nat)>, u: nat)
    requires |colors| == |g| && u < |g| && stack <= stack'
    requires forall c :: c in parent ==> c in parent' && parent'[c] == parent[c]
    requires EdgesRecorded(g, root, colors, stack, parent, u, 0)
    ensures EdgesRecorded(g, root, colors, stack', parent', u, 0)
  {
    assert forall f :: f in stack ==> f in stack';
  }

  lemma BackEdgeRefutesTree(g: Graph, root: nat, incoming: seq<nat>, colors: seq<nat>,
                            parent: map<nat, (nat, nat)>, path: map<nat, seq<nat>>)
    requires Bookkeeping(g, root, incoming, colors, parent, path) && root in parent
    ensures !IsTree(g, root)
  {
    var (u, i) := parent[root];
    WalkStep(g, root, path[u], i);
    TwoPathsRefuteTree(g, root, [], path[u] + [i]);
  }

  /** A finished pass: every path stays inside the entered nodes, and walking
      back along recorded edges finds the only path to a node. */
  lemma FinishedStaysEntered(g: Graph, root: nat, colors: seq<nat>, parent: map<nat, (nat, nat)>, p: seq<nat>)
    requires |colors| == |g| && root < |g| && colors[root] != WHITE
    requires EnteredRecorded(g, root, colors, [], parent)
    ensures Walk(g, root, p).Some? ==> Walk(g, root, p).value < |g| && colors[Walk(g, root, p).value] != WHITE
    ensures Walk(g, root, p).Some? && p != [] ==>
              Walk(g, root, p).value != root && Walk(g, root, p).value in parent
              && Some(parent[Walk(g, root, p).value].0) == Walk(g, root, p[..|p| - 1])
              && parent[Walk(g, root, p).value].1 == p[|p| - 1]
    decreases |p|
  {
    if p != [] {
      FinishedStaysEntered(g, root, colors, parent, p[..|p| - 1]);
      if Walk(g, root, p).Some? {
        var u := Walk(g, root, p[..|p| - 1]).value;
        assert EdgesRecorded(g, root, colors, [], parent, u, 0);
      }
    }
  }

  lemma FinishedUnique(g: Graph, root: nat, colors: seq<nat>, parent: map<nat, (nat, nat)>, p: seq<nat>, q: seq<nat>)
    requires |colors| == |g| && root < |g| && colors[root] != WHITE
    requires EnteredRecorded(g, root, colors, [], parent)
    requires Walk(g, root, p).Some? && Walk(g, root, p) == Walk(g, root, q)
    ensures p == q
    decreases |p|
  {
    FinishedStaysEntered(g, root, colors, parent, p);
    FinishedStaysEntered(g, root, colors, parent, q);
    if p != [] && q != [] {
      FinishedUnique(g, root, colors, parent, p[..|p| - 1], q[..|q| - 1]);
      assert p == p[..|p| - 1] + [p[|p| - 1]] && q == q[..|q| - 1] + [q[|q| - 1]];
    }
  }

  lemma FinishedIsTree(g: Graph, root: nat, colors: seq<nat>, parent: map<nat, (nat, nat)>)
    requires |colors| == |g| && root < |g| && colors[root] != WHITE
    requires EnteredRecorded(g, root, colors, [], parent)
    ensures IsTree(g, root)
  {
    forall p | Walk(g, root, p).Some? ensures Walk(g, root, p).value < |g| {
      FinishedStaysEntered(g, root, colors, parent, p);
    }
    forall p, q | Walk(g, root, p).Some? && Walk(g, root, p) == Walk(g, root, q) ensures p == q {
      FinishedUnique(g, root, colors, parent, p, q);
    }
  }

  /** The loop invariant of the pass. */
  ghost predicate PassInvariant(g: Graph, root: nat, incoming: seq<nat>, colors: seq<nat>, stack: seq<Frame>,
                                parent: map<nat, (nat, nat)>, path: map<nat, seq<nat>>)
  {
    && Bookkeeping(g, root, incoming, colors, parent, path)
    && (if colors[root] == WHITE
        then stack == [(root, false)] && parent == map[] && forall c :: 0 <= c < |g| ==> colors[c] == WHITE
        else Pending(g, root, colors, stack, parent, path) && EnteredRecorded(g, root, colors, stack, parent))
  }

  lemma TopInBounds(g: Graph, root: nat, incoming: seq<nat>, colors: seq<nat>, stack: seq<Frame>,
                    parent: map<nat, (nat, nat)>, path: map<nat, seq<nat>>, id: nat, exiting: bool)
    requires PassInvariant(g, root, incoming, colors, stack + [(id, exiting)], parent, path)
    ensures |colors| == |g| && id < |g| && (exiting ==> colors[id] != WHITE) && colors[id] <= BLACK
  {
    assert (stack + [(id, exiting)])[|stack|] == (id, exiting);
  }

  lemma LeaveStep(g: Graph, root: nat, incoming: seq<nat>, colors: seq<nat>, stack: seq<Frame>,
                  parent: map<nat, (nat, nat)>, path: map<nat, seq<nat>>, id: nat)
    requires PassInvariant(g, root, incoming, colors, stack + [(id, true)], parent, path) && id < |g|
    ensures PassInvariant(g, root, incoming, colors[id := BLACK], stack, parent, path)
  {
    assert (stack + [(id, true)])[|stack|] == (id, true);
    LeavePending(g, root, colors, stack, parent, path, id);
    LeaveEdges(g, root, colors, stack, parent, id);
    LeaveBookkeeping(g, root, incoming, colors, parent, path, id);
  }

  lemma PassDone(g: Graph, root: nat, incoming: seq<nat>, colors: seq<nat>,
                 parent: map<nat, (nat, nat)>, path: map<nat, seq<nat>>)
    requires PassInvariant(g, root, incoming, colors, [], parent, path)
    ensures IsTree(g, root)
  {
    FinishedIsTree(g, root, colors, parent);
  }

  /** A popped node that is neither new nor being left is the root again. */
  lemma RevisitRefutesTree(g: Graph, root: nat, incoming: seq<nat>, colors: seq<nat>, stack: seq<Frame>,
                           parent: map<nat, (nat, nat)>, path: map<nat, seq<nat>>, id: nat)
    requires PassInvariant(g, root, incoming, colors, stack + [(id, false)], parent, path)
    requires id < |g| && colors[id] != WHITE
    ensures colors[id] == GREY && !IsTree(g, root)
  {
    var was := stack + [(id, false)];
    assert was[|stack|] == (id, false);
    BackEdgeRefutesTree(g, root, incoming, colors, parent, path);
  }

  /** Enters the new node `id`, popped off `stack0`. */
  method Enter(g: Graph, root: nat, id: nat, incoming0: seq<nat>, colors0: seq<nat>, stack0: seq<Frame>,
               ghost parent0: map<nat, (nat, nat)>, ghost path0: map<nat, seq<nat>>)
    returns (fault: Option<GraphFault>, incoming: seq<nat>, colors: seq<nat>, stack: seq<Frame>,
             ghost parent: map<nat, (nat, nat)>, ghost path: map<nat, seq<nat>>)
    requires PassInvariant(g, root, incoming0, colors0, stack0 + [(id, false)], parent0, path0)
    requires id < |g| && colors0[id] == WHITE
    ensures fault.Some? ==> !IsTree(g, root)
    ensures colors == colors0[id := GREY]
    ensures fault.None? ==> PassInvariant(g, root, incoming, colors, stack, parent, path)
  {
    hide IsTree, Walk, EdgesRecorded;
    assert (stack0 + [(id, false)])[|stack0|] == (id, false);
    colors := colors0[id := GREY];
    if id == root {
      assert colors0[root] == WHITE;
      EnterRoot(g, root, incoming0, colors0, path0);
    } else {
      assert stack0 != [];
      EnterPending(g, root, incoming0, colors0, stack0, parent0, path0, id);
    }
    fault, incoming, stack, parent, path :=
      PushChildren(g, root, id, incoming0, colors, stack0 + [(id, true)], parent0, path0);
    if fault.None? {
      forall u | 0 <= u < |g| && colors[u] != WHITE
        ensures EdgesRecorded(g, root, colors, stack, parent, u, 0)
      {
        if u != id {
          EnterEdges(g, root, colors0, stack0, parent0, id, u);
          GrowRecords(g, root, colors, stack0 + [(id, true)], stack, parent0, parent, u);
        }
      }
    }
  }

  /** The nodes not entered yet. */
  ghost function White(colors: seq<nat>): (s: set<nat>)
    ensures forall c: nat :: c in s <==> c < |colors| && colors[c] == WHITE
  {
    set c: nat | c in Ids(|colors|) && colors[c] == WHITE
  }

  /** One round of the loop: handles the frame `(id, exiting)` popped off `stack0`. */
  method Visit(g: Graph, root: nat, id: nat, exiting: bool, incoming0: seq<nat>, colors0: seq<nat>,
               stack0: seq<Frame>, ghost parent0: map<nat, (nat, nat)>, ghost path0: map<nat, seq<nat>>)
    returns (fault: Option<GraphFault>, incoming: seq<nat>, colors: seq<nat>, stack: seq<Frame>,
             ghost parent: map<nat, (nat, nat)>, ghost path: map<nat, seq<nat>>)
    requires PassInvariant(g, root, incoming0, colors0, stack0 + [(id, exiting)], parent0, path0)
    ensures fault.Some? ==> !IsTree(g, root)
    ensures fault.None? ==> PassInvariant(g, root, incoming, colors, stack, parent, path)
    ensures id < |g| && |colors| == |colors0| == |g|
    ensures if !exiting && colors0[id] == WHITE then White(colors) == White(colors0) - {id} && id in White(colors0)
            else White(colors) == White(colors0) && stack == stack0
  {
    TopInBounds(g, root, incoming0, colors0, stack0, parent0, path0, id, exiting);
    fault, incoming, colors, stack, parent, path := None, incoming0, colors0, stack0, parent0, path0;
    if exiting {
      LeaveStep(g, root, incoming, colors, stack, parent, path, id);
      colors := colors[id := BLACK];
    } else if colors[id] == WHITE {
      fault, incoming, colors, stack, parent, path := Enter(g, root, id, incoming, colors, stack, parent, path);
    } else {
      RevisitRefutesTree(g, root, incoming, colors, stack, parent, path, id);
      if colors[id] == GREY {
        fault := Some(Cyclic(id));
      }
    }
  }

  lemma PassStarts(g: Graph, root: nat, incoming: seq<nat>, colors: seq<nat>)
    requires root < |g| && |incoming| == |colors| == |g|
    requires forall c :: 0 <= c < |g| ==> incoming[c] == 0 && colors[c] == WHITE
    ensures PassInvariant(g, root, incoming, colors, [(root, false)], map[], map[root := []])
  {}

  /** Accepts exactly the graphs whose part reachable from `root` is a tree. */
  method CheckTree(g: Graph, root: nat) returns (fault: Option<GraphFault>)
    requires root < |g|
    ensures fault.None? <==> IsTree(g, root)
  {
    hide PassInvariant;
    var incoming: seq<nat> := seq(|g|, _ => 0);
    var colors: seq<nat> := seq(|g|, _ => WHITE);
    var stack: seq<Frame> := [(root, false)];
    ghost var parent: map<nat, (nat, nat)>, path: map<nat, seq<nat>> := map[], map[root := []];
    PassStarts(g, root, incoming, colors);
    while stack != []
      invariant PassInvariant(g, root, incoming, colors, stack, parent, path)
      decreases White(colors), |stack|
    {
      var (id, exiting) := stack[|stack| - 1];
      assert stack == stack[..|stack| - 1] + [(id, exiting)];
      fault, incoming, colors, stack, parent, path :=
        Visit(g, root, id, exiting, incoming, colors, stack[..|stack| - 1], parent, path);
      if fault.Some? {
        return fault;
      }
    }
    PassDone(g, root, incoming, colors, parent, path);
    return None;
  }
}
