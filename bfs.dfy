// BFS(root, target) of bfs_and_cycle_detection.py: a breadth-first search with
// a FIFO list of pending nodes and a set of visited nodes. A neighbour is
// appended when it is not in `visited`; the pending list itself is not
// consulted, so a node can be pending, and be popped, more than once.
module Bfs {
  import opened Graph
  import opened Wrappers

  /**
   * The neighbours the inner loop appends to the queue, in their order:
   * those not in `visited`.
   */
  function Unvisited(nbrs: seq<nat>, visited: set<nat>): (r: seq<nat>)
    ensures forall x :: x in r <==> x in nbrs && x !in visited
    ensures |r| <= |nbrs|
  {
    if nbrs == [] then []
    else
      var last := nbrs[|nbrs| - 1];
      assert nbrs == nbrs[..|nbrs| - 1] + [last];
      Unvisited(nbrs[..|nbrs| - 1], visited) + (if last in visited then [] else [last])
  }

  /** Nodes never marked visited; shrinks whenever a node is visited for the first time. */
  ghost function Unreached(g: seq<seq<nat>>, visited: set<nat>): set<nat>
  {
    set v | 0 <= v < |g| && v !in visited
  }

  /** Pending entries whose node was visited already; each pop of one of them shrinks it. */
  function Revisits(q: seq<nat>, visited: set<nat>): nat
  {
    if q == [] then 0 else (if q[0] in visited then 1 else 0) + Revisits(q[1..], visited)
  }

  lemma {:induction false} RevisitsAppendUnvisited(q: seq<nat>, pushed: seq<nat>, visited: set<nat>)
    requires forall x :: x in pushed ==> x !in visited
    ensures Revisits(q + pushed, visited) == Revisits(q, visited)
  {
    if q == [] {
      assert q + pushed == pushed;
      RevisitsNone(pushed, visited);
    } else {
      assert (q + pushed)[1..] == q[1..] + pushed;
      RevisitsAppendUnvisited(q[1..], pushed, visited);
    }
  }

  lemma {:induction false} RevisitsNone(q: seq<nat>, visited: set<nat>)
    requires forall x :: x in q ==> x !in visited
    ensures Revisits(q, visited) == 0
  {
    if q != [] {
      RevisitsNone(q[1..], visited);
    }
  }

  // ---------------------------------------------------------------------------
  // The loop invariant, in parts. `lv` gives, for each pending entry, the BFS
  // level it was appended at (the level of the node that appended it, plus 1).

  /** FIFO discipline: levels never drop along the queue and span at most two layers. */
  ghost predicate Frontier(g: seq<seq<nat>>, root: nat, q: seq<nat>, lv: seq<nat>)
  {
    && |lv| == |q|
    && (forall i :: 0 <= i < |q| ==> q[i] < |g|)
    && (forall i {:trigger lv[i]} :: 0 <= i < |q| ==> q[i] in Within(g, root, lv[i]))
    && (forall i, j :: 0 <= i < j < |q| ==> lv[i] <= lv[j])
    && (forall i :: 0 <= i < |q| ==> lv[i] <= lv[0] + 1)
  }

  /** Every neighbour of a visited node is visited or pending. */
  ghost predicate Closed(g: seq<seq<nat>>, q: seq<nat>, visited: set<nat>)
  {
    forall u, j :: u in visited && u < |g| && 0 <= j < |g[u]| ==> g[u][j] in visited || g[u][j] in q
  }

  /**
   * Layering: with the head of the queue at level f, all nodes nearer than f
   * are visited, and every node at distance f is visited or pending at level f.
   */
  ghost predicate Layered(g: seq<seq<nat>>, root: nat, q: seq<nat>, lv: seq<nat>, visited: set<nat>)
  {
    |q| > 0 && |lv| == |q| ==>
      && (lv[0] > 0 ==> Within(g, root, lv[0] - 1) <= visited)
      && (forall w :: w in Within(g, root, lv[0]) ==>
            w in visited || exists i :: 0 <= i < |q| && q[i] == w && lv[i] == lv[0])
  }

  /**
   * `order` lists the visited nodes in the order they were first examined,
   * each at its distance `depth`, and those distances never drop.
   */
  ghost predicate FirstVisits(g: seq<seq<nat>>, root: nat, visited: set<nat>, order: seq<nat>, depth: seq<nat>)
  {
    && Distinct(order)
    && (forall v {:trigger v in order} :: v in visited <==> v in order)
    && |depth| == |order|
    && (forall i {:trigger depth[i]} :: 0 <= i < |order| ==> AtDistance(g, root, order[i], depth[i]))
    && (forall i, j :: 0 <= i < j < |depth| ==> depth[i] <= depth[j])
  }

  ghost predicate BfsInv(g: seq<seq<nat>>, root: nat, target: nat, q: seq<nat>, lv: seq<nat>,
                         visited: set<nat>, order: seq<nat>, depth: seq<nat>)
  {
    && ValidGraph(g) && root < |g|
    && Frontier(g, root, q, lv)
    && (forall v :: v in visited ==> v < |g|)
    && target !in visited
    && (root in visited || root in q)
    && (root == target ==> visited == {} && order == [] && q == [root])
    && Closed(g, q, visited)
    && Layered(g, root, q, lv, visited)
    && FirstVisits(g, root, visited, order, depth)
    && (|q| > 0 && |depth| > 0 ==> depth[|depth| - 1] <= lv[0])
  }

  /** The queue after a pop and the appends, entry by entry. */
  ghost predicate PoppedAndAppended(q: seq<nat>, lv: seq<nat>, pushed: seq<nat>, q': seq<nat>, lv': seq<nat>)
    requires |q| > 0 && |lv| == |q|
  {
    && |q'| == |q| - 1 + |pushed| && |lv'| == |q'|
    && (forall i :: 0 <= i < |q| - 1 ==> q'[i] == q[i + 1] && lv'[i] == lv[i + 1])
    && (forall i :: |q| - 1 <= i < |q'| ==> q'[i] == pushed[i - (|q| - 1)] && lv'[i] == lv[0] + 1)
  }

  lemma PopAppendShape(q: seq<nat>, lv: seq<nat>, pushed: seq<nat>, q': seq<nat>, lv': seq<nat>)
    requires |q| > 0 && |lv| == |q|
    requires q' == q[1..] + pushed && lv' == lv[1..] + seq(|pushed|, _ => lv[0] + 1)
    ensures PoppedAndAppended(q, lv, pushed, q', lv')
  {
  }

  lemma StepFrontier(g: seq<seq<nat>>, root: nat, q: seq<nat>, lv: seq<nat>, pushed: seq<nat>,
                     q': seq<nat>, lv': seq<nat>)
    requires ValidGraph(g) && Frontier(g, root, q, lv) && |q| > 0
    requires forall x :: x in pushed ==> x in g[q[0]]
    requires PoppedAndAppended(q, lv, pushed, q', lv')
    ensures Frontier(g, root, q', lv')
    ensures forall i :: 0 <= i < |q'| ==> lv[0] <= lv'[i] <= lv[0] + 1
  {
    var f, n := lv[0], |q| - 1;
    assert q[0] in Within(g, root, lv[0]);
    forall i | 0 <= i < |q'|
      ensures q'[i] < |g| && q'[i] in Within(g, root, lv'[i]) && f <= lv'[i] <= f + 1
    {
      if i < n {
        assert q[i + 1] in Within(g, root, lv[i + 1]);
      } else {
        assert pushed[i - n] in pushed;
        var j :| 0 <= j < |g[q[0]]| && g[q[0]][j] == q'[i];
        SuccessorInNext(g, root, f, q[0], j);
      }
    }
    forall i, j | 0 <= i < j < |q'|
      ensures lv'[i] <= lv'[j]
    {
      if j < n {
        assert lv[i + 1] <= lv[j + 1];
      }
    }
  }

  lemma StepClosed(g: seq<seq<nat>>, q: seq<nat>, visited: set<nat>, pushed: seq<nat>,
                   q': seq<nat>, visited': set<nat>)
    requires Closed(g, q, visited) && |q| > 0 && q[0] < |g|
    requires visited' == visited + {q[0]}
    requires pushed == Unvisited(g[q[0]], visited')
    requires q' == q[1..] + pushed
    ensures Closed(g, q', visited')
  {
    forall u, j | u in visited' && u < |g| && 0 <= j < |g[u]|
      ensures g[u][j] in visited' || g[u][j] in q'
    {
      if u != q[0] && g[u][j] !in visited' {
        assert g[u][j] in q;
        var i :| 0 <= i < |q| && q[i] == g[u][j];
        assert q'[i - 1] == g[u][j];
      }
    }
  }

  /** Popping an entry whose layer still has pending entries keeps the layering. */
  lemma StepLayeredSameLayer(g: seq<seq<nat>>, root: nat, q: seq<nat>, lv: seq<nat>, visited: set<nat>,
                             q': seq<nat>, lv': seq<nat>, visited': set<nat>)
    requires |q| > 1 && |lv| == |q| && |lv'| == |q'| >= |q| - 1
    requires Layered(g, root, q, lv, visited)
    requires visited' == visited + {q[0]}
    requires q'[..|q| - 1] == q[1..] && lv'[..|q| - 1] == lv[1..]
    requires lv'[0] == lv[0]
    ensures Layered(g, root, q', lv', visited')
  {
    var f := lv[0];
    forall w | w in Within(g, root, f) && w !in visited'
      ensures exists i :: 0 <= i < |q'| && q'[i] == w && lv'[i] == f
    {
      var i :| 0 <= i < |q| && q[i] == w && lv[i] == f;
      assert q'[..|q| - 1][i - 1] == q[1..][i - 1] && lv'[..|q| - 1][i - 1] == lv[1..][i - 1];
    }
  }

  /**
   * Popping the last pending entry of layer f: every node within f steps is
   * now visited, and every node at distance f + 1 is visited or pending.
   */
  lemma StepLayeredNextLayer(g: seq<seq<nat>>, root: nat, q: seq<nat>, lv: seq<nat>, visited: set<nat>,
                             q': seq<nat>, lv': seq<nat>, visited': set<nat>)
    requires |q| > 0 && |lv| == |q| && |q'| > 0 && |lv'| == |q'| >= |q| - 1
    requires forall i, j :: 0 <= i < j < |q| ==> lv[i] <= lv[j]
    requires forall i :: 0 <= i < |q'| ==> lv'[0] <= lv'[i] <= lv[0] + 1
    requires Layered(g, root, q, lv, visited) && Closed(g, q', visited')
    requires visited' == visited + {q[0]}
    requires |q| > 1 ==> lv'[0] == lv[1]
    requires lv'[0] == lv[0] + 1
    ensures Layered(g, root, q', lv', visited')
  {
    var f := lv[0];
    assert Within(g, root, f) <= visited';
    forall w | w in Within(g, root, f + 1) && w !in visited'
      ensures exists i :: 0 <= i < |q'| && q'[i] == w && lv'[i] == f + 1
    {
      assert w in Successors(g, Within(g, root, f));
      SuccessorsElim(g, Within(g, root, f), w);
      var u, j :| u in Within(g, root, f) && u < |g| && 0 <= j < |g[u]| && w == g[u][j];
      assert u in visited';
      var i :| 0 <= i < |q'| && q'[i] == w;
      assert lv'[i] == f + 1;
    }
  }

  lemma StepFirstVisits(g: seq<seq<nat>>, root: nat, q: seq<nat>, lv: seq<nat>,
                        visited: set<nat>, order: seq<nat>, depth: seq<nat>,
                        visited': set<nat>, order': seq<nat>, depth': seq<nat>)
    requires |q| > 0 && Frontier(g, root, q, lv) && Layered(g, root, q, lv, visited)
    requires FirstVisits(g, root, visited, order, depth) && (|depth| > 0 ==> depth[|depth| - 1] <= lv[0])
    requires visited' == visited + {q[0]}
    requires order' == (if q[0] in visited then order else order + [q[0]])
    requires depth' == (if q[0] in visited then depth else depth + [lv[0]])
    ensures FirstVisits(g, root, visited', order', depth')
    ensures |depth'| > 0 ==> depth'[|depth'| - 1] <= lv[0]
  {
    var u, f := q[0], lv[0];
    if u !in visited {
      FirstVisitsExtend(g, root, u, f, visited, order, depth);
    }
  }

  lemma FirstVisitsExtend(g: seq<seq<nat>>, root: nat, u: nat, f: nat,
                          visited: set<nat>, order: seq<nat>, depth: seq<nat>)
    requires u !in visited && u in Within(g, root, f) && (f > 0 ==> Within(g, root, f - 1) <= visited)
    requires FirstVisits(g, root, visited, order, depth) && (|depth| > 0 ==> depth[|depth| - 1] <= f)
    ensures FirstVisits(g, root, visited + {u}, order + [u], depth + [f])
  {
    assert u !in order;
    ExtendDistinct(order, u);
    assert AtDistance(g, root, u, f);
    ExtendAtDistance(g, root, order, depth, u, f);
    ExtendSorted(depth, f);
  }

  lemma ExtendDistinct(s: seq<nat>, x: nat)
    requires Distinct(s) && x !in s
    ensures Distinct(s + [x])
  {
    forall i, j | 0 <= i < j < |s| + 1
      ensures (s + [x])[i] != (s + [x])[j]
    {
      assert (s + [x])[i] == s[i];
    }
  }

  lemma ExtendAtDistance(g: seq<seq<nat>>, root: nat, order: seq<nat>, depth: seq<nat>, u: nat, f: nat)
    requires |depth| == |order|
    requires forall i :: 0 <= i < |order| ==> AtDistance(g, root, order[i], depth[i])
    requires AtDistance(g, root, u, f)
    ensures forall i :: 0 <= i < |order| + 1 ==> AtDistance(g, root, (order + [u])[i], (depth + [f])[i])
  {
  }

  lemma ExtendSorted(depth: seq<nat>, f: nat)
    requires forall i, j :: 0 <= i < j < |depth| ==> depth[i] <= depth[j]
    requires |depth| > 0 ==> depth[|depth| - 1] <= f
    ensures forall i, j :: 0 <= i < j < |depth| + 1 ==> (depth + [f])[i] <= (depth + [f])[j]
  {
    forall i, j | 0 <= i < j < |depth| + 1
      ensures (depth + [f])[i] <= (depth + [f])[j]
    {
      if j < |depth| {
        assert (depth + [f])[i] == depth[i] && (depth + [f])[j] == depth[j];
      } else {
        assert (depth + [f])[i] == depth[i] <= depth[|depth| - 1];
      }
    }
  }

  /** A node that was pending or visited before the pop still is after it. */
  lemma StepKeepsPending(q: seq<nat>, q': seq<nat>, visited: set<nat>, visited': set<nat>, x: nat)
    requires |q| > 0 && |q'| >= |q| - 1 && q'[..|q| - 1] == q[1..]
    requires visited' == visited + {q[0]}
    requires x in visited || x in q
    ensures x in visited' || x in q'
  {
    if x !in visited' {
      var i :| 0 <= i < |q| && q[i] == x;
      assert q'[..|q| - 1][i - 1] == q[1..][i - 1];
    }
  }

  /** One iteration of the outer loop, when the popped node is not the target, keeps the invariant. */
  lemma StepPreservesInv(g: seq<seq<nat>>, root: nat, target: nat, q: seq<nat>, lv: seq<nat>,
                         visited: set<nat>, order: seq<nat>, depth: seq<nat>,
                         q': seq<nat>, lv': seq<nat>, visited': set<nat>, order': seq<nat>, depth': seq<nat>)
    requires BfsInv(g, root, target, q, lv, visited, order, depth)
    requires |q| > 0 && q[0] != target
    requires visited' == visited + {q[0]}
    requires q' == q[1..] + Unvisited(g[q[0]], visited')
    requires lv' == lv[1..] + seq(|q'| - (|q| - 1), _ => lv[0] + 1)
    requires order' == (if q[0] in visited then order else order + [q[0]])
    requires depth' == (if q[0] in visited then depth else depth + [lv[0]])
    ensures BfsInv(g, root, target, q', lv', visited', order', depth')
  {
    var pushed := Unvisited(g[q[0]], visited');
    PopAppendShape(q, lv, pushed, q', lv');
    StepFrontier(g, root, q, lv, pushed, q', lv');
    StepClosed(g, q, visited, pushed, q', visited');
    assert q'[..|q| - 1] == q[1..] && lv'[..|q| - 1] == lv[1..];
    if |q'| > 0 {
      if lv'[0] == lv[0] {
        StepLayeredSameLayer(g, root, q, lv, visited, q', lv', visited');
      } else {
        StepLayeredNextLayer(g, root, q, lv, visited, q', lv', visited');
      }
    }
    StepFirstVisits(g, root, q, lv, visited, order, depth, visited', order', depth');
    StepKeepsPending(q, q', visited, visited', root);
    NodesStayNodes(g, visited, q[0]);
  }

  /** Marking a node visited keeps `visited` within the graph's nodes. */
  lemma NodesStayNodes(g: seq<seq<nat>>, visited: set<nat>, x: nat)
    requires forall v :: v in visited ==> v < |g|
    requires x < |g|
    ensures forall v :: v in visited + {x} ==> v < |g|
  {
  }

  /** The termination measure of the outer loop drops with every pop. */
  lemma StepDecreases(g: seq<seq<nat>>, q: seq<nat>, visited: set<nat>, q': seq<nat>, visited': set<nat>)
    requires |q| > 0 && q[0] < |g|
    requires visited' == visited + {q[0]}
    requires q' == q[1..] + Unvisited(g[q[0]], visited')
    ensures Unreached(g, visited') < Unreached(g, visited)
            || (Unreached(g, visited') == Unreached(g, visited) && Revisits(q', visited') < Revisits(q, visited))
  {
    if q[0] in visited {
      assert visited' == visited;
      RevisitsAppendUnvisited(q[1..], Unvisited(g[q[0]], visited'), visited');
    } else {
      assert q[0] in Unreached(g, visited) - Unreached(g, visited');
    }
  }

  /**
   * Popping the target: it sits at the distance of its queue level, no nearer
   * than any visited node, and every node nearer than it was visited first.
   */
  lemma FoundAtHead(g: seq<seq<nat>>, root: nat, target: nat, q: seq<nat>, lv: seq<nat>,
                    visited: set<nat>, order: seq<nat>, depth: seq<nat>)
    requires BfsInv(g, root, target, q, lv, visited, order, depth)
    requires |q| > 0 && q[0] == target
    ensures Reachable(g, root, target)
    ensures AtDistance(g, root, target, lv[0]) && forall i :: 0 <= i < |depth| ==> depth[i] <= lv[0]
    ensures forall v, d: nat :: d < lv[0] && AtDistance(g, root, v, d) ==> v in order
  {
    assert AtDistance(g, root, target, lv[0]);
    forall v, d: nat | d < lv[0] && AtDistance(g, root, v, d)
      ensures v in order
    {
      WithinMonotone(g, root, d, lv[0] - 1);
    }
    forall i | 0 <= i < |depth|
      ensures depth[i] <= lv[0]
    {
      if i < |depth| - 1 {
        assert depth[i] <= depth[|depth| - 1];
      }
    }
  }

  /**
   * With the queue empty, every node reachable from `root` has been visited,
   * so the target, never visited, is unreachable.
   */
  lemma ExhaustedQueue(g: seq<seq<nat>>, root: nat, target: nat, q: seq<nat>, lv: seq<nat>,
                       visited: set<nat>, order: seq<nat>, depth: seq<nat>)
    requires BfsInv(g, root, target, q, lv, visited, order, depth)
    requires q == []
    ensures !Reachable(g, root, target)
    ensures forall v :: Reachable(g, root, v) <==> v in order
  {
    forall k: nat
      ensures Within(g, root, k) <= visited
    {
      ClosedHoldsWithin(g, root, visited, k);
    }
    forall v
      ensures Reachable(g, root, v) <==> v in order
    {
      if v in order {
        var i :| 0 <= i < |order| && order[i] == v;
        assert AtDistance(g, root, order[i], depth[i]);
      }
    }
  }

  /**
   * The inner loop (lines 10-13): append each neighbour that is not visited,
   * in order.
   */
  method AppendUnvisited(queue: seq<nat>, nbrs: seq<nat>, visited: set<nat>) returns (queue': seq<nat>)
    ensures queue' == queue + Unvisited(nbrs, visited)
  {
    queue' := queue;
    for j := 0 to |nbrs|
      invariant queue' == queue + Unvisited(nbrs[..j], visited)
    {
      UnvisitedSnoc(nbrs, j, visited);
      if nbrs[j] !in visited {
        queue' := queue' + [nbrs[j]];
      }
    }
    assert nbrs[..|nbrs|] == nbrs;
  }

  /** Unvisited over one more neighbour. */
  lemma UnvisitedSnoc(nbrs: seq<nat>, j: nat, visited: set<nat>)
    requires j < |nbrs|
    ensures Unvisited(nbrs[..j + 1], visited) == Unvisited(nbrs[..j], visited) + (if nbrs[j] in visited then [] else [nbrs[j]])
  {
    assert nbrs[..j + 1] == nbrs[..j] + [nbrs[j]];
    assert nbrs[..j + 1][..j] == nbrs[..j];
  }

  /**
   * One turn of the loop once the popped node is not the target (lines 6 and
   * 9-13): mark it visited and append its unvisited neighbours. The loop
   * invariant is kept and the termination measure drops.
   */
  method Step(g: seq<seq<nat>>, root: nat, target: nat, queue: seq<nat>, ghost lv: seq<nat>,
              visited: set<nat>, ghost order: seq<nat>, ghost depth: seq<nat>)
    returns (queue': seq<nat>, ghost lv': seq<nat>, visited': set<nat>, ghost order': seq<nat>, ghost depth': seq<nat>)
    requires BfsInv(g, root, target, queue, lv, visited, order, depth)
    requires queue != [] && queue[0] != target
    ensures visited' == visited + {queue[0]}
    ensures queue' == queue[1..] + Unvisited(g[queue[0]], visited')
    ensures order' == if queue[0] in visited then order else order + [queue[0]]
    ensures BfsInv(g, root, target, queue', lv', visited', order', depth')
    ensures Unreached(g, visited') < Unreached(g, visited)
            || (Unreached(g, visited') == Unreached(g, visited) && Revisits(queue', visited') < Revisits(queue, visited))
  {
    var current := queue[0];
    order', depth' := order, depth;
    if current !in visited {
      order', depth' := order + [current], depth + [lv[0]];
    }
    visited' := visited + {current};
    queue' := AppendUnvisited(queue[1..], g[current], visited');
    lv' := lv[1..] + seq(|queue'| - (|queue| - 1), _ => lv[0] + 1);
    StepPreservesInv(g, root, target, queue, lv, visited, order, depth, queue', lv', visited', order', depth');
    StepDecreases(g, queue, visited, queue', visited');
  }

  /**
   * BFS(root, target). Returns the target exactly when it is reachable from
   * `root` (matching by identity), and nothing otherwise. The ghost outputs
   * record the nodes in the order they were first marked visited, each with
   * its distance from `root`: no node twice, distances never dropping, none
   * beyond the target's distance, and every node nearer than the target among
   * them.
   */
  method BFS(g: seq<seq<nat>>, root: nat, target: nat)
    returns (r: Option<nat>, ghost order: seq<nat>, ghost depth: seq<nat>)
    requires ValidGraph(g) && root < |g|
    ensures r == None || r == Some(target)
    ensures r == Some(target) <==> Reachable(g, root, target)
    ensures root == target ==> r == Some(root) && order == []
    ensures Distinct(order) && |depth| == |order|
    ensures forall i :: 0 <= i < |order| ==> AtDistance(g, root, order[i], depth[i])
    ensures forall i, j :: 0 <= i < j < |depth| ==> depth[i] <= depth[j]
    ensures r == None ==> forall v :: Reachable(g, root, v) <==> v in order
    ensures r.Some? ==> exists k: nat :: AtDistance(g, root, target, k)
    ensures r.Some? ==> forall k: nat :: AtDistance(g, root, target, k) ==>
              && (forall i :: 0 <= i < |depth| ==> depth[i] <= k)
              && (forall v, d: nat :: d < k && AtDistance(g, root, v, d) ==> v in order)
  {
    var queue := [root];
    ghost var lv := [0];
    var visited: set<nat> := {};
    order, depth := [], [];
    while queue != []
      invariant BfsInv(g, root, target, queue, lv, visited, order, depth)
      decreases Unreached(g, visited), Revisits(queue, visited)
    {
      var current := queue[0];
      if current == target {
        r := Some(current);
        FoundAtHead(g, root, target, queue, lv, visited, order, depth);
        forall k: nat | AtDistance(g, root, target, k)
          ensures k == lv[0]
        {
          DistanceUnique(g, root, target, k, lv[0]);
        }
        return;
      }
      queue, lv, visited, order, depth := Step(g, root, target, queue, lv, visited, order, depth);
    }
    ExhaustedQueue(g, root, target, queue, lv, visited, order, depth);
    r := None;
  }
}
