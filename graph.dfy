// The graph both traversals read: every node is an index 0 <= v < |g|, and
// g[v] is the node's ordered `connected` list (duplicates allowed). Node
// identity (Python's `is` in `bfs_and_cycle_detection.py`) is index equality.
module Graph {

  /** Every neighbour named in an adjacency list is itself a node. */
  ghost predicate ValidGraph(g: seq<seq<nat>>)
  {
    forall u, j :: 0 <= u < |g| && 0 <= j < |g[u]| ==> g[u][j] < |g|
  }

  /** No node occurs twice. */
  predicate Distinct(s: seq<nat>)
  {
    forall i, j :: 0 <= i < j < |s| ==> s[i] != s[j]
  }

  /** The nodes that some node of `s` is connected to. */
  ghost function Successors(g: seq<seq<nat>>, s: set<nat>): set<nat>
  {
    SuccessorsBelow(g, s, |g|)
  }

  /** The nodes an adjacency list names. */
  ghost function Elements(l: seq<nat>): set<nat>
  {
    set j | 0 <= j < |l| :: l[j]
  }

  /** The nodes that some node of `s` below `n` is connected to. */
  ghost function SuccessorsBelow(g: seq<seq<nat>>, s: set<nat>, n: nat): set<nat>
    requires n <= |g|
  {
    if n == 0 then {}
    else SuccessorsBelow(g, s, n - 1) + (if n - 1 in s then Elements(g[n - 1]) else {})
  }

  lemma {:induction false} SuccessorsBelowIntro(g: seq<seq<nat>>, s: set<nat>, n: nat, u: nat, j: nat)
    requires n <= |g| && u in s && u < n && j < |g[u]|
    ensures g[u][j] in SuccessorsBelow(g, s, n)
  {
    if u < n - 1 {
      SuccessorsBelowIntro(g, s, n - 1, u, j);
    }
  }

  lemma {:induction false} SuccessorsBelowElim(g: seq<seq<nat>>, s: set<nat>, n: nat, x: nat)
    requires n <= |g| && x in SuccessorsBelow(g, s, n)
    ensures exists u, j :: u in s && u < n && 0 <= j < |g[u]| && g[u][j] == x
  {
    if x in SuccessorsBelow(g, s, n - 1) {
      SuccessorsBelowElim(g, s, n - 1, x);
    }
  }

  /** A neighbour of a node of `s` is a successor of `s`. */
  lemma SuccessorsIntro(g: seq<seq<nat>>, s: set<nat>, u: nat, j: nat)
    requires u in s && u < |g| && j < |g[u]|
    ensures g[u][j] in Successors(g, s)
  {
    SuccessorsBelowIntro(g, s, |g|, u, j);
  }

  /** Every successor of `s` is a neighbour of some node of `s`. */
  lemma SuccessorsElim(g: seq<seq<nat>>, s: set<nat>, x: nat)
    requires x in Successors(g, s)
    ensures exists u, j :: u in s && u < |g| && 0 <= j < |g[u]| && g[u][j] == x
  {
    SuccessorsBelowElim(g, s, |g|, x);
  }

  /** The nodes reachable from `root` in at most `k` steps. */
  ghost function Within(g: seq<seq<nat>>, root: nat, k: nat): set<nat>
  {
    if k == 0 then {root} else Within(g, root, k - 1) + Successors(g, Within(g, root, k - 1))
  }

  ghost predicate Reachable(g: seq<seq<nat>>, root: nat, v: nat)
  {
    exists k: nat :: v in Within(g, root, k)
  }

  /** `v` is exactly `k` steps away from `root` (its BFS distance). */
  ghost predicate AtDistance(g: seq<seq<nat>>, root: nat, v: nat, k: nat)
  {
    v in Within(g, root, k) && (k == 0 || v !in Within(g, root, k - 1))
  }

  /**
   * A cycle: a non-empty sequence of nodes, each connected to the next, the
   * last connected back to the first.
   */
  ghost predicate IsCycle(g: seq<seq<nat>>, c: seq<nat>)
  {
    && |c| > 0
    && (forall i :: 0 <= i < |c| ==> c[i] < |g|)
    && (forall i :: 0 <= i < |c| - 1 ==> c[i + 1] in g[c[i]])
    && c[0] in g[c[|c| - 1]]
  }

  /** A cycle that repeats no node. */
  ghost predicate IsSimpleCycle(g: seq<seq<nat>>, c: seq<nat>)
  {
    IsCycle(g, c) && Distinct(c)
  }

  ghost predicate HasReachableCycle(g: seq<seq<nat>>, root: nat)
  {
    exists c :: IsCycle(g, c) && Reachable(g, root, c[0])
  }

  lemma SuccessorInNext(g: seq<seq<nat>>, root: nat, k: nat, u: nat, j: nat)
    requires u in Within(g, root, k) && u < |g| && j < |g[u]|
    ensures g[u][j] in Within(g, root, k + 1)
  {
    SuccessorsIntro(g, Within(g, root, k), u, j);
  }

  lemma {:induction false} WithinMonotone(g: seq<seq<nat>>, root: nat, i: nat, j: nat)
    requires i <= j
    ensures Within(g, root, i) <= Within(g, root, j)
  {
    if i < j {
      WithinMonotone(g, root, i, j - 1);
    }
  }

  /** A node has one distance: the `k` of AtDistance is unique. */
  lemma DistanceUnique(g: seq<seq<nat>>, root: nat, v: nat, k1: nat, k2: nat)
    requires AtDistance(g, root, v, k1) && AtDistance(g, root, v, k2)
    ensures k1 == k2
  {
    if k1 < k2 {
      WithinMonotone(g, root, k1, k2 - 1);
    } else if k2 < k1 {
      WithinMonotone(g, root, k2, k1 - 1);
    }
  }

  /**
   * A set that holds `root` and every neighbour of its own members holds
   * every node reachable from `root`.
   */
  lemma {:induction false} ClosedHoldsWithin(g: seq<seq<nat>>, root: nat, s: set<nat>, k: nat)
    requires ValidGraph(g) && root in s
    requires forall u, j :: u in s && u < |g| && 0 <= j < |g[u]| ==> g[u][j] in s
    ensures Within(g, root, k) <= s
  {
    if k > 0 {
      ClosedHoldsWithin(g, root, s, k - 1);
      forall w | w in Successors(g, Within(g, root, k - 1))
        ensures w in s
      {
        SuccessorsElim(g, Within(g, root, k - 1), w);
      }
    }
  }

  /** A node reached along an edge from a reachable node is reachable. */
  lemma ReachableStep(g: seq<seq<nat>>, root: nat, u: nat, v: nat)
    requires Reachable(g, root, u) && u < |g| && v in g[u]
    ensures Reachable(g, root, v)
  {
    var k: nat :| u in Within(g, root, k);
    var j :| 0 <= j < |g[u]| && g[u][j] == v;
    SuccessorInNext(g, root, k, u, j);
  }

  /**
   * If some ranking of the nodes strictly drops along every edge that leaves
   * a member of a closed set `s`, no cycle starts in `s`.
   */
  lemma RankedSetHasNoCycle(g: seq<seq<nat>>, s: set<nat>, rank: map<nat, nat>, c: seq<nat>)
    requires forall u :: u in s ==> u in rank
    requires forall u, j :: u in s && u < |g| && 0 <= j < |g[u]| ==> g[u][j] in s && rank[g[u][j]] < rank[u]
    ensures !(IsCycle(g, c) && c[0] in s)
  {
    if IsCycle(g, c) && c[0] in s {
      var i := 0;
      while i < |c| - 1
        invariant 0 <= i <= |c| - 1
        invariant c[i] in s && rank[c[i]] + i <= rank[c[0]]
      {
        assert c[i + 1] in g[c[i]];
        var j :| 0 <= j < |g[c[i]]| && g[c[i]][j] == c[i + 1];
        i := i + 1;
      }
    }
  }

  /** A graph whose every edge leads to a higher index has no cycle at all. */
  lemma ForwardEdgesNoCycle(g: seq<seq<nat>>, c: seq<nat>)
    requires forall u, j :: 0 <= u < |g| && 0 <= j < |g[u]| ==> u < g[u][j]
    ensures !IsCycle(g, c)
  {
    if IsCycle(g, c) {
      var i := 0;
      while i < |c| - 1
        invariant 0 <= i <= |c| - 1
        invariant c[0] + i <= c[i]
      {
        assert c[i + 1] in g[c[i]];
        var j :| 0 <= j < |g[c[i]]| && g[c[i]][j] == c[i + 1];
        i := i + 1;
      }
    }
  }
}
