// cycle_detector of bfs_and_cycle_detection.py exactly as written: the path
// list is only ever appended to, and a node that closes a cycle is recursed
// into again. Python bounds recursion depth and raises RecursionError past
// it; here `depth` is that bound and None is the error.
module Literal {
  import opened Graph
  import opened Wrappers
  import CycleDetection

  /** The two lists the recursion shares: current_path and result. */
  datatype LiteralState = LiteralState(path: seq<nat>, result: seq<seq<nat>>)

  /**
   * cycle_detector(node, current_path, result) as written, allowed `depth`
   * nested calls. A node already on the path records the path from it to the
   * end; any other node is appended to the path; either way every neighbour
   * is then visited.
   */
  function LiteralDetector(g: seq<seq<nat>>, node: nat, st: LiteralState, depth: nat): (r: Option<LiteralState>)
    requires ValidGraph(g) && node < |g|
    ensures r.Some? ==> forall x :: x in st.path ==> x in r.value.path
    decreases depth, 0
  {
    if depth == 0 then None
    else
      var st' :=
        if node in st.path then LiteralState(st.path, st.result + [st.path[CycleDetection.IndexOf(st.path, node)..]])
        else LiteralState(st.path + [node], st.result);
      LiteralEach(g, g[node], st', depth - 1)
  }

  /** The `for node in root.connected` loop of that call. */
  function LiteralEach(g: seq<seq<nat>>, nbrs: seq<nat>, st: LiteralState, depth: nat): (r: Option<LiteralState>)
    requires ValidGraph(g) && forall k :: 0 <= k < |nbrs| ==> nbrs[k] < |g|
    ensures r.Some? ==> forall x :: x in st.path ==> x in r.value.path
    decreases depth, 1, |nbrs|
  {
    if nbrs == [] then Some(st)
    else
      match LiteralDetector(g, nbrs[0], st, depth)
      case None => None
      case Some(st1) => LiteralEach(g, nbrs[1..], st1, depth)
  }

  /**
   * cycle_detection(root) as written: the result list, or None for a
   * recursion error. A root with no connected nodes yields an empty list.
   */
  function LiteralCycleDetection(g: seq<seq<nat>>, root: nat, depth: nat): (r: Option<seq<seq<nat>>>)
    requires ValidGraph(g) && root < |g|
    ensures depth > 0 && |g[root]| == 0 ==> r == Some([])
  {
    assert [] + [root] == [root];
    assert depth > 0 && |g[root]| == 0 ==> LiteralEach(g, g[root], LiteralState([root], []), depth - 1) == Some(LiteralState([root], []));
    match LiteralDetector(g, root, LiteralState([], []), depth)
    case None => None
    case Some(st) => Some(st.result)
  }

  /**
   * Once every node of a cycle is on the path, the call on any of them never
   * returns, whatever the depth bound: it records the cycle and recurses into
   * the next node of the cycle, which is still on the path.
   */
  lemma {:induction false} CycleOnPathDiverges(g: seq<seq<nat>>, c: seq<nat>, k: nat, st: LiteralState, depth: nat)
    requires ValidGraph(g) && IsCycle(g, c) && k < |c|
    requires forall i :: 0 <= i < |c| ==> c[i] in st.path
    ensures LiteralDetector(g, c[k], st, depth) == None
    decreases depth, 0
  {
    if depth > 0 {
      var st' := LiteralState(st.path, st.result + [st.path[CycleDetection.IndexOf(st.path, c[k])..]]);
      var next := if k + 1 < |c| then k + 1 else 0;
      assert c[next] in g[c[k]];
      EachDiverges(g, g[c[k]], c, next, st', depth - 1);
    }
  }

  /** The loop over a list that names a node of a cycle on the path never finishes. */
  lemma {:induction false} EachDiverges(g: seq<seq<nat>>, nbrs: seq<nat>, c: seq<nat>, k: nat, st: LiteralState, depth: nat)
    requires ValidGraph(g) && forall j :: 0 <= j < |nbrs| ==> nbrs[j] < |g|
    requires IsCycle(g, c) && k < |c| && c[k] in nbrs
    requires forall i :: 0 <= i < |c| ==> c[i] in st.path
    ensures LiteralEach(g, nbrs, st, depth) == None
    decreases depth, 1, |nbrs|
  {
    if nbrs[0] == c[k] {
      CycleOnPathDiverges(g, c, k, st, depth);
    } else {
      match LiteralDetector(g, nbrs[0], st, depth)
      case None =>
      case Some(st1) =>
        assert c[k] in nbrs[1..];
        EachDiverges(g, nbrs[1..], c, k, st1, depth);
    }
  }

  /**
   * When the root has an edge to itself, cycle_detection as written fails at
   * every depth bound: after recording [root] it calls itself on root again.
   */
  lemma RootSelfLoopDiverges(g: seq<seq<nat>>, root: nat, depth: nat)
    requires ValidGraph(g) && root < |g| && root in g[root]
    ensures LiteralCycleDetection(g, root, depth) == None
  {
    if depth > 0 {
      var st := LiteralState([root], []);
      assert [] + [root] == [root];
      EachDiverges(g, g[root], [root], 0, st, depth - 1);
    }
  }

  /** A single node with an edge to itself. */
  function SelfLoop(): (g: seq<seq<nat>>)
    ensures ValidGraph(g) && IsSimpleCycle(g, [0])
  {
    [[0]]
  }

  /** The smallest graph with a cycle: cycle_detection as written never returns on it. */
  lemma SelfLoopDiverges(depth: nat)
    ensures LiteralCycleDetection(SelfLoop(), 0, depth) == None
  {
    assert SelfLoop()[0] == [0];
    RootSelfLoopDiverges(SelfLoop(), 0, depth);
  }

  /** 0 -> 1 -> 3 and 0 -> 2 -> 3: two routes to node 3 and no cycle. */
  function Diamond(): (g: seq<seq<nat>>)
    ensures ValidGraph(g) && |g| == 4
  {
    [[1, 2], [3], [3], []]
  }

  /** The diamond has no cycle at all. */
  lemma DiamondAcyclic(c: seq<nat>)
    ensures !IsCycle(Diamond(), c)
  {
    var g := Diamond();
    forall u, j | 0 <= u < |g| && 0 <= j < |g[u]|
      ensures u < g[u][j]
    {
      assert g[0] == [1, 2] && g[1] == [3] && g[2] == [3] && g[3] == [];
    }
    ForwardEdgesNoCycle(g, c);
  }

  /** The first branch of the diamond: 1 then 3, both appended to the path. */
  lemma DiamondThroughOne(depth: nat)
    requires depth >= 2
    ensures LiteralDetector(Diamond(), 1, LiteralState([0], []), depth) == Some(LiteralState([0, 1, 3], []))
  {
    var g := Diamond();
    assert g[1] == [3] && g[3] == [];
    assert [0] + [1] == [0, 1] && [0, 1] + [3] == [0, 1, 3];
    assert LiteralEach(g, [], LiteralState([0, 1, 3], []), depth - 2) == Some(LiteralState([0, 1, 3], []));
    assert LiteralDetector(g, 3, LiteralState([0, 1], []), depth - 1) == Some(LiteralState([0, 1, 3], []));
    assert LiteralEach(g, [3], LiteralState([0, 1], []), depth - 1) == Some(LiteralState([0, 1, 3], []));
  }

  /** The second branch: 2 is appended, and 3, still on the path, is recorded with 2. */
  lemma DiamondThroughTwo(depth: nat)
    requires depth >= 2
    ensures LiteralDetector(Diamond(), 2, LiteralState([0, 1, 3], []), depth)
            == Some(LiteralState([0, 1, 3, 2], [[3, 2]]))
  {
    var g := Diamond();
    assert g[2] == [3] && g[3] == [];
    assert [0, 1, 3] + [2] == [0, 1, 3, 2];
    var st2 := LiteralState([0, 1, 3, 2], []);
    assert CycleDetection.IndexOf(st2.path, 3) == 2;
    assert [0, 1, 3, 2][2..] == [3, 2] && [] + [[3, 2]] == [[3, 2]];
    var st3 := LiteralState([0, 1, 3, 2], [[3, 2]]);
    assert LiteralEach(g, [], st3, depth - 2) == Some(st3);
    assert LiteralDetector(g, 3, st2, depth - 1) == Some(st3);
    assert LiteralEach(g, [3], st2, depth - 1) == Some(st3);
  }

  /**
   * On the diamond, cycle_detection as written returns [[3, 2]] once the
   * depth bound allows three nested calls: node 3 is still on the path when
   * it is reached again through 2. [3, 2] is not a cycle.
   */
  lemma DiamondSpuriousCycle(depth: nat)
    requires depth >= 3
    ensures LiteralCycleDetection(Diamond(), 0, depth) == Some([[3, 2]])
    ensures !IsCycle(Diamond(), [3, 2])
  {
    var g := Diamond();
    assert g[0] == [1, 2] && [] + [0] == [0];
    var st3 := LiteralState([0, 1, 3, 2], [[3, 2]]);
    DiamondThroughOne(depth - 1);
    DiamondThroughTwo(depth - 1);
    assert LiteralEach(g, [2], LiteralState([0, 1, 3], []), depth - 1) == Some(st3);
    assert LiteralEach(g, [1, 2], LiteralState([0], []), depth - 1) == Some(st3);
    DiamondAcyclic([3, 2]);
  }
}
