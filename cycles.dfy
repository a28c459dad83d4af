// cycle_detector / cycle_detection of bfs_and_cycle_detection.py, as the
// depth-first search the function's documentation ("Find all cycle in a
// graph") describes. The shared `current_path` and `result` lists become
// fields of a CycleSearch object; `current_path` is an ancestor stack, popped
// when a node is finished, finished nodes are not explored again, and a node
// that closes a cycle is not explored again either. The Literal module models
// the recursion as written.
module CycleDetection {
  import opened Graph

  /** Python's list.index: the first position of `x` in `s`. */
  function IndexOf(s: seq<nat>, x: nat): (i: nat)
    requires x in s
    ensures i < |s| && s[i] == x
    ensures forall k :: 0 <= k < i ==> s[k] != x
  {
    if s[0] == x then 0 else 1 + IndexOf(s[1..], x)
  }

  /** Some reported cycle starts at `v` and ends at `u`: it was closed along the edge u -> v. */
  ghost predicate Closes(result: seq<seq<nat>>, u: nat, v: nat)
  {
    exists k :: 0 <= k < |result| && |result[k]| > 0 && result[k][0] == v && result[k][|result[k]| - 1] == u
  }

  /** `c` was reported at position `from` of `result` or later. */
  ghost predicate ReportedSince(result: seq<seq<nat>>, from: nat, c: seq<nat>)
  {
    exists k :: from <= k < |result| && result[k] == c
  }

  /** A path that starts at `root` and follows edges. */
  ghost predicate RootedChain(g: seq<seq<nat>>, root: nat, path: seq<nat>)
  {
    && (forall i :: 0 <= i < |path| ==> path[i] < |g|)
    && (|path| > 0 ==> path[0] == root)
    && (forall i :: 0 <= i < |path| - 1 ==> path[i + 1] in g[path[i]])
  }

  /** Every node on a rooted chain is reachable from the root. */
  lemma {:induction false} ChainReachable(g: seq<seq<nat>>, root: nat, path: seq<nat>, i: nat)
    requires RootedChain(g, root, path) && i < |path|
    ensures Reachable(g, root, path[i])
  {
    if i == 0 {
      assert path[0] in Within(g, root, 0);
    } else {
      ChainReachable(g, root, path, i - 1);
      ReachableStep(g, root, path[i - 1], path[i]);
    }
  }

  /**
   * The part of a rooted chain from a node to the top, closed by an edge from
   * the top back to that node, is a simple cycle reachable from the root.
   */
  lemma SuffixIsCycle(g: seq<seq<nat>>, root: nat, path: seq<nat>, i: nat)
    requires RootedChain(g, root, path) && Distinct(path)
    requires i < |path| && path[i] in g[path[|path| - 1]]
    ensures IsSimpleCycle(g, path[i..]) && Reachable(g, root, path[i..][0])
  {
    var c := path[i..];
    forall k | 0 <= k < |c| - 1
      ensures c[k + 1] in g[c[k]]
    {
      assert c[k] == path[i + k] && c[k + 1] == path[i + k + 1];
    }
    ChainReachable(g, root, path, i);
  }

  /** `v` was finished strictly before `u`. */
  ghost predicate FinishedBefore(done: set<nat>, rank: map<nat, nat>, v: nat, u: nat)
  {
    v in done && v in rank && u in rank && rank[v] < rank[u]
  }

  /** Every finishing time recorded in `m0` is kept, unchanged, in `m1`. */
  ghost predicate Extends(m0: map<nat, nat>, m1: map<nat, nat>)
  {
    forall x :: x in m0 ==> x in m1 && m1[x] == m0[x]
  }

  /** Every reported cycle is a simple cycle whose start the root reaches. */
  ghost predicate CyclesOk(g: seq<seq<nat>>, root: nat, result: seq<seq<nat>>)
  {
    forall c :: c in result ==> IsSimpleCycle(g, c) && Reachable(g, root, c[0])
  }

  lemma CyclesOkAppend(g: seq<seq<nat>>, root: nat, result: seq<seq<nat>>, c: seq<nat>)
    requires CyclesOk(g, root, result) && IsSimpleCycle(g, c) && Reachable(g, root, c[0])
    ensures CyclesOk(g, root, result + [c])
  {
  }

  /**
   * Each neighbour of a finished node was finished strictly before it, unless
   * the edge to it closed a reported cycle.
   */
  ghost predicate FinishOk(g: seq<seq<nat>>, done: set<nat>, rank: map<nat, nat>, result: seq<seq<nat>>)
  {
    forall u, j :: u in done && u < |g| && 0 <= j < |g[u]| ==>
      FinishedBefore(done, rank, g[u][j], u) || Closes(result, u, g[u][j])
  }

  /** Reporting more cycles keeps FinishOk. */
  lemma FinishOkGrow(g: seq<seq<nat>>, done: set<nat>, rank: map<nat, nat>, before: seq<seq<nat>>, after: seq<seq<nat>>)
    requires FinishOk(g, done, rank, before)
    requires |before| <= |after| && after[..|before|] == before
    ensures FinishOk(g, done, rank, after)
  {
    forall u, j | u in done && u < |g| && 0 <= j < |g[u]| && Closes(before, u, g[u][j])
      ensures Closes(after, u, g[u][j])
    {
      ClosesGrow(before, after, u, g[u][j]);
    }
  }

  /**
   * Finishing a node, at a time later than every earlier finish, whose
   * neighbours are all finished or closed a reported cycle, keeps FinishOk.
   */
  lemma FinishOkLeave(g: seq<seq<nat>>, done: set<nat>, rank: map<nat, nat>, clock: nat, result: seq<seq<nat>>, node: nat)
    requires FinishOk(g, done, rank, result) && node !in done && node < |g|
    requires forall x :: x in done ==> x in rank && rank[x] < clock
    requires forall k :: 0 <= k < |g[node]| ==> g[node][k] in done || Closes(result, node, g[node][k])
    ensures FinishOk(g, done + {node}, rank[node := clock], result)
  {
  }

  /** No adjacency list names a node twice. */
  ghost predicate SimpleLists(g: seq<seq<nat>>)
  {
    forall u :: 0 <= u < |g| ==> Distinct(g[u])
  }

  /** No two reported cycles were closed along the same edge. */
  ghost predicate ClosedOnce(result: seq<seq<nat>>)
  {
    forall m, n :: 0 <= m < n < |result| && |result[m]| > 0 && |result[n]| > 0 ==>
      result[m][0] != result[n][0] || result[m][|result[m]| - 1] != result[n][|result[n]| - 1]
  }

  /** Every reported cycle ends at a node that is on the path or finished. */
  ghost predicate EndsSeen(path: seq<nat>, done: set<nat>, result: seq<seq<nat>>)
  {
    forall m :: 0 <= m < |result| && |result[m]| > 0 ==>
      result[m][|result[m]| - 1] in path || result[m][|result[m]| - 1] in done
  }

  /** No reported cycle ends at `u`. */
  ghost predicate NoneEndAt(result: seq<seq<nat>>, u: nat)
  {
    forall m :: 0 <= m < |result| && |result[m]| > 0 ==> result[m][|result[m]| - 1] != u
  }

  /**
   * Every cycle reported from position `from` on that ends on `path` ends at
   * `u` and starts at one of `vs`.
   */
  ghost predicate ClosedSinceAt(result: seq<seq<nat>>, from: nat, path: seq<nat>, u: nat, vs: seq<nat>)
  {
    forall m :: from <= m < |result| && |result[m]| > 0 && result[m][|result[m]| - 1] in path ==>
      result[m][|result[m]| - 1] == u && result[m][0] in vs
  }

  /**
   * Cycles that end on the path only where it reaches a node pushed on top of
   * it end on the path below that node nowhere.
   */
  lemma ClosedSinceAtBelow(result: seq<seq<nat>>, from: nat, path: seq<nat>, node: nat, vs: seq<nat>, u: nat, ws: seq<nat>)
    requires ClosedSinceAt(result, from, path + [node], node, vs) && node !in path
    ensures ClosedSinceAt(result, from, path, u, ws)
  {
  }

  /** Appending a cycle closed along an edge not closed before keeps ClosedOnce. */
  lemma ClosedOnceAppend(result: seq<seq<nat>>, c: seq<nat>)
    requires ClosedOnce(result) && |c| > 0 && !Closes(result, c[|c| - 1], c[0])
    ensures ClosedOnce(result + [c])
  {
    var r := result + [c];
    forall m, n | 0 <= m < n < |r| && |r[m]| > 0 && |r[n]| > 0
      ensures r[m][0] != r[n][0] || r[m][|r[m]| - 1] != r[n][|r[n]| - 1]
    {
      assert r[m] == result[m];
      if n < |result| {
        assert r[n] == result[n];
      }
    }
  }

  /** Reported cycles closed along distinct edges are distinct. */
  lemma ClosedOnceDistinct(result: seq<seq<nat>>)
    requires ClosedOnce(result) && forall c :: c in result ==> |c| > 0
    ensures forall m, n :: 0 <= m < n < |result| ==> result[m] != result[n]
  {
    forall m, n | 0 <= m < n < |result|
      ensures result[m] != result[n]
    {
      assert result[m] in result && result[n] in result;
    }
  }

  /**
   * While the neighbours of `u` are searched in order, the edge to the `j`-th
   * has not closed a cycle yet: cycles reported before `u` was pushed do not
   * end at `u`, and those reported since end at `u` only when closed along an
   * earlier neighbour, which differs from the `j`-th.
   */
  lemma NotClosedYet(before: seq<seq<nat>>, result: seq<seq<nat>>, path: seq<nat>, u: nat, nbrs: seq<nat>, j: nat)
    requires |before| <= |result| && result[..|before|] == before
    requires NoneEndAt(before, u) && u in path && j < |nbrs| && Distinct(nbrs)
    requires ClosedSinceAt(result, |before|, path, u, nbrs[..j])
    ensures !Closes(result, u, nbrs[j])
  {
    forall k | 0 <= k < |result| && |result[k]| > 0 && result[k][|result[k]| - 1] == u
      ensures result[k][0] != nbrs[j]
    {
      if k >= |before| {
        assert result[k][0] in nbrs[..j];
      }
    }
  }

  /** The cycles closed by one more neighbour's search extend ClosedSinceAt by that neighbour. */
  lemma ClosedSinceAtSnoc(r0: seq<seq<nat>>, r1: seq<seq<nat>>, r2: seq<seq<nat>>, path: seq<nat>, u: nat, nbrs: seq<nat>, j: nat)
    requires |r0| <= |r1| <= |r2| && r2[..|r1|] == r1 && j < |nbrs|
    requires ClosedSinceAt(r1, |r0|, path, u, nbrs[..j])
    requires ClosedSinceAt(r2, |r1|, path, u, [nbrs[j]])
    ensures ClosedSinceAt(r2, |r0|, path, u, nbrs[..j + 1])
  {
    forall m | |r0| <= m < |r2| && |r2[m]| > 0 && r2[m][|r2[m]| - 1] in path
      ensures r2[m][|r2[m]| - 1] == u && r2[m][0] in nbrs[..j + 1]
    {
      if m < |r1| {
        assert r2[m] == r1[m];
        assert r1[m][0] in nbrs[..j];
      }
      assert nbrs[..j + 1] == nbrs[..j] + [nbrs[j]];
    }
  }

  /** Reporting a cycle that ends at the top of the path keeps every reported end seen. */
  lemma EndsSeenReport(path: seq<nat>, done: set<nat>, result: seq<seq<nat>>, c: seq<nat>)
    requires EndsSeen(path, done, result) && |path| > 0 && |c| > 0 && c[|c| - 1] == path[|path| - 1]
    ensures EndsSeen(path, done, result + [c])
    ensures ClosedSinceAt(result + [c], |result|, path, path[|path| - 1], [c[0]])
  {
    var r := result + [c];
    forall m | 0 <= m < |r| && |r[m]| > 0
      ensures r[m][|r[m]| - 1] in path || r[m][|r[m]| - 1] in done
    {
      if m < |result| {
        assert r[m] == result[m];
      }
    }
  }

  /** Popping the top of the path and finishing it keeps every reported end seen. */
  lemma EndsSeenLeave(path: seq<nat>, done: set<nat>, result: seq<seq<nat>>)
    requires |path| > 0 && EndsSeen(path, done, result)
    ensures EndsSeen(path[..|path| - 1], done + {path[|path| - 1]}, result)
  {
    forall m | 0 <= m < |result| && |result[m]| > 0 && result[m][|result[m]| - 1] in path
      ensures result[m][|result[m]| - 1] in path[..|path| - 1] || result[m][|result[m]| - 1] == path[|path| - 1]
    {
      assert path == path[..|path| - 1] + [path[|path| - 1]];
    }
  }

  /**
   * What the reported cycles satisfy: each is a simple cycle the root
   * reaches, each closes an edge the finishing order does not explain, each
   * ends at a node already entered, and with no repeated edges none was
   * closed twice.
   */
  ghost predicate ResultOk(g: seq<seq<nat>>, root: nat, path: seq<nat>, done: set<nat>, rank: map<nat, nat>,
                           result: seq<seq<nat>>)
  {
    && CyclesOk(g, root, result)
    && FinishOk(g, done, rank, result)
    && EndsSeen(path, done, result)
    && (SimpleLists(g) ==> ClosedOnce(result))
  }

  /** Reporting the part of the path from `node` to the top keeps ResultOk. */
  lemma ReportKeepsResultOk(g: seq<seq<nat>>, root: nat, path: seq<nat>, done: set<nat>, rank: map<nat, nat>,
                            result: seq<seq<nat>>, node: nat)
    requires RootedChain(g, root, path) && Distinct(path)
    requires node in path && node in g[path[|path| - 1]]
    requires ResultOk(g, root, path, done, rank, result)
    requires SimpleLists(g) ==> !Closes(result, path[|path| - 1], node)
    ensures ResultOk(g, root, path, done, rank, result + [path[IndexOf(path, node)..]])
  {
    var i := IndexOf(path, node);
    var c := path[i..];
    assert c[0] == node && c[|c| - 1] == path[|path| - 1];
    SuffixIsCycle(g, root, path, i);
    CyclesOkAppend(g, root, result, c);
    if SimpleLists(g) {
      ClosedOnceAppend(result, c);
    }
    EndsSeenReport(path, done, result, c);
    FinishOkGrow(g, done, rank, result, result + [c]);
  }

  /**
   * The part of the path from `node` to the top, once reported, closes the
   * edge from the top to `node`, and is the only new cycle ending on the path.
   */
  lemma ReportCloses(path: seq<nat>, result: seq<seq<nat>>, node: nat)
    requires node in path && Distinct(path)
    ensures Closes(result + [path[IndexOf(path, node)..]], path[|path| - 1], node)
    ensures node == path[|path| - 1] ==> ReportedSince(result + [path[IndexOf(path, node)..]], |result|, [node])
    ensures ClosedSinceAt(result + [path[IndexOf(path, node)..]], |result|, path, path[|path| - 1], [node])
  {
    var i := IndexOf(path, node);
    var c := path[i..];
    var r := result + [c];
    assert r[|result|] == c && c[0] == node && c[|c| - 1] == path[|path| - 1];
    assert |r| == |result| + 1;
    if node == path[|path| - 1] {
      assert path[i] == path[|path| - 1];
      assert c == [node];
    }
  }

  /** Popping the top of the path and finishing it keeps ResultOk. */
  lemma LeaveKeepsResultOk(g: seq<seq<nat>>, root: nat, path: seq<nat>, done: set<nat>, rank: map<nat, nat>,
                           clock: nat, result: seq<seq<nat>>, node: nat)
    requires |path| > 0 && path[|path| - 1] == node && node !in done && node < |g|
    requires ResultOk(g, root, path, done, rank, result)
    requires forall x :: x in done ==> x in rank && rank[x] < clock
    requires forall k :: 0 <= k < |g[node]| ==> g[node][k] in done || Closes(result, node, g[node][k])
    ensures ResultOk(g, root, path[..|path| - 1], done + {node}, rank[node := clock], result)
  {
    FinishOkLeave(g, done, rank, clock, result, node);
    EndsSeenLeave(path, done, result);
  }

  /** Pushing a node keeps ResultOk. */
  lemma EnterKeepsResultOk(g: seq<seq<nat>>, root: nat, path: seq<nat>, done: set<nat>, rank: map<nat, nat>,
                           result: seq<seq<nat>>, node: nat)
    requires ResultOk(g, root, path, done, rank, result)
    ensures ResultOk(g, root, path + [node], done, rank, result)
  {
    forall m | 0 <= m < |result| && |result[m]| > 0 && result[m][|result[m]| - 1] in path
      ensures result[m][|result[m]| - 1] in path + [node]
    {
    }
  }

  /** The nodes of `s` were entered one after another: their entry times strictly increase. */
  ghost predicate Ascending(entry: map<nat, nat>, s: seq<nat>)
  {
    && (forall i :: 0 <= i < |s| ==> s[i] in entry)
    && (forall i, j :: 0 <= i < j < |s| ==> entry[s[i]] < entry[s[j]])
  }

  /** If `x` has an entry time, it is on the path or finished, and was entered before `clock`. */
  ghost predicate Stamped(entry: map<nat, nat>, clock: nat, path: seq<nat>, done: set<nat>, x: nat)
  {
    x in entry ==> (x in path || x in done) && entry[x] < clock
  }

  /**
   * Entry times: only nodes on the path or finished have one, each earlier
   * than `clock`; the path, and so every reported cycle, was entered in order.
   */
  ghost predicate EntryOk(entry: map<nat, nat>, clock: nat, path: seq<nat>, done: set<nat>, result: seq<seq<nat>>)
  {
    && (forall x {:trigger Stamped(entry, clock, path, done, x)} :: Stamped(entry, clock, path, done, x))
    && Ascending(entry, path)
    && (forall k {:trigger Ascending(entry, result[k])} :: 0 <= k < |result| ==> Ascending(entry, result[k]))
  }

  /** Pushing a white node, entered now, keeps EntryOk. */
  lemma EnterKeepsEntryOk(entry: map<nat, nat>, clock: nat, path: seq<nat>, done: set<nat>, result: seq<seq<nat>>, node: nat)
    requires EntryOk(entry, clock, path, done, result) && node !in path && node !in done
    ensures EntryOk(entry[node := clock], clock + 1, path + [node], done, result)
  {
    var entry', path' := entry[node := clock], path + [node];
    assert Stamped(entry, clock, path, done, node);
    forall x | x in entry'
      ensures (x in path' || x in done) && entry'[x] < clock + 1
    {
      assert Stamped(entry, clock, path, done, x);
    }
    forall k | 0 <= k < |result|
      ensures Ascending(entry', result[k])
    {
      var c := result[k];
      assert Ascending(entry, c);
      assert forall i :: 0 <= i < |c| ==> c[i] in entry && c[i] != node;
    }
    forall i, j | 0 <= i < j < |path'|
      ensures entry'[path'[i]] < entry'[path'[j]]
    {
      assert path'[i] == path[i] && path[i] in entry;
      assert Stamped(entry, clock, path, done, path[i]);
      if j < |path| {
        assert path'[j] == path[j];
      }
    }
  }

  /** Popping the top of the path and finishing it keeps EntryOk. */
  lemma LeaveKeepsEntryOk(entry: map<nat, nat>, clock: nat, path: seq<nat>, done: set<nat>, result: seq<seq<nat>>)
    requires EntryOk(entry, clock, path, done, result) && |path| > 0
    ensures EntryOk(entry, clock, path[..|path| - 1], done + {path[|path| - 1]}, result)
  {
    assert path == path[..|path| - 1] + [path[|path| - 1]];
    forall x | x in entry
      ensures (x in path[..|path| - 1] || x in done + {path[|path| - 1]}) && entry[x] < clock
    {
      assert Stamped(entry, clock, path, done, x);
    }
  }

  /** Reporting a suffix of the path keeps EntryOk. */
  lemma ReportKeepsEntryOk(entry: map<nat, nat>, clock: nat, path: seq<nat>, done: set<nat>, result: seq<seq<nat>>, i: nat)
    requires EntryOk(entry, clock, path, done, result) && i < |path|
    ensures EntryOk(entry, clock, path, done, result + [path[i..]])
  {
    var c := path[i..];
    forall k, l | 0 <= k < l < |c|
      ensures entry[c[k]] < entry[c[l]]
    {
      assert c[k] == path[i + k] && c[l] == path[i + l];
    }
    var r := result + [c];
    forall k | 0 <= k < |r|
      ensures Ascending(entry, r[k])
    {
      if k < |result| {
        assert r[k] == result[k] && Ascending(entry, result[k]);
      } else {
        assert r[k] == c;
      }
    }
  }

  /** A rotation of an ascending sequence by a non-zero amount is not ascending. */
  lemma RotationNotAscending(entry: map<nat, nat>, s: seq<nat>, r: nat)
    requires Ascending(entry, s) && 0 < r < |s|
    ensures !Ascending(entry, s[r..] + s[..r])
  {
    var t := s[r..] + s[..r];
    assert t[0] == s[r] && t[|t| - 1] == s[r - 1];
    assert entry[s[r - 1]] < entry[s[r]];
  }

  /** No reported cycle is a non-trivial rotation of another when all are ascending. */
  lemma AscendingNoRotations(entry: map<nat, nat>, cycles: seq<seq<nat>>)
    requires forall k {:trigger Ascending(entry, cycles[k])} :: 0 <= k < |cycles| ==> Ascending(entry, cycles[k])
    ensures forall m, n, r :: 0 <= m < n < |cycles| && 0 < r < |cycles[m]| ==>
              cycles[n] != cycles[m][r..] + cycles[m][..r]
  {
    forall m, n, r | 0 <= m < n < |cycles| && 0 < r < |cycles[m]|
      ensures cycles[n] != cycles[m][r..] + cycles[m][..r]
    {
      assert Ascending(entry, cycles[m]) && Ascending(entry, cycles[n]);
      RotationNotAscending(entry, cycles[m], r);
    }
  }

  /**
   * If every neighbour of a finished node was finished strictly before it,
   * no cycle is reachable from a finished root.
   */
  lemma FinishOrderAcyclic(g: seq<seq<nat>>, root: nat, done: set<nat>, rank: map<nat, nat>)
    requires ValidGraph(g) && root in done
    requires forall u :: u in done ==> u < |g| && u in rank
    requires forall u, j :: u in done && 0 <= j < |g[u]| ==> FinishedBefore(done, rank, g[u][j], u)
    ensures !HasReachableCycle(g, root)
  {
    if c :| IsCycle(g, c) && Reachable(g, root, c[0]) {
      var k: nat :| c[0] in Within(g, root, k);
      ClosedHoldsWithin(g, root, done, k);
      RankedSetHasNoCycle(g, done, rank, c);
    }
  }

  /** The first node of a cycle has an outgoing edge. */
  lemma CycleLeavesStart(g: seq<seq<nat>>, c: seq<nat>)
    requires IsCycle(g, c)
    ensures |g[c[0]]| > 0
  {
    if |c| == 1 {
      assert c[0] in g[c[0]];
    } else {
      assert c[1] in g[c[0]];
    }
  }

  /** A root with no outgoing edges reaches nothing else, so lies on no reachable cycle. */
  lemma IsolatedRootNoCycle(g: seq<seq<nat>>, root: nat)
    requires ValidGraph(g) && root < |g| && |g[root]| == 0
    ensures !HasReachableCycle(g, root)
  {
    forall c | IsCycle(g, c)
      ensures !Reachable(g, root, c[0])
    {
      CycleLeavesStart(g, c);
      if Reachable(g, root, c[0]) {
        var k: nat :| c[0] in Within(g, root, k);
        ClosedHoldsWithin(g, root, {root}, k);
      }
    }
  }

  /** The invariant of the search state, on its values. */
  ghost predicate SearchInv(g: seq<seq<nat>>, root: nat, path: seq<nat>, result: seq<seq<nat>>, done: set<nat>,
                            rank: map<nat, nat>, clock: nat, entry: map<nat, nat>, entryClock: nat)
  {
    && StackOk(g, root, path, done, rank, clock)
    && ResultOk(g, root, path, done, rank, result)
    && EntryOk(entry, entryClock, path, done, result)
  }

  /** The path and the finished nodes, apart from what was reported. */
  ghost predicate StackOk(g: seq<seq<nat>>, root: nat, path: seq<nat>, done: set<nat>, rank: map<nat, nat>, clock: nat)
  {
    && ValidGraph(g) && root < |g|
    // the path holds each node once, as a chain of edges from the root
    && RootedChain(g, root, path) && Distinct(path)
    // every finished node has a finishing time; none is on the path
    && (forall x :: x in done ==> x < |g| && x in rank && rank[x] < clock)
    && (forall x :: x in rank ==> x in done)
    && (forall x :: x in path ==> x !in done)
  }

  /** Pushing a white node connected to the top of the path (or the root on an empty path) keeps StackOk. */
  lemma EnterKeepsStackOk(g: seq<seq<nat>>, root: nat, path: seq<nat>, done: set<nat>, rank: map<nat, nat>, clock: nat, node: nat)
    requires StackOk(g, root, path, done, rank, clock)
    requires node < |g| && node !in path && node !in done
    requires |path| == 0 ==> node == root
    requires |path| > 0 ==> node in g[path[|path| - 1]]
    ensures StackOk(g, root, path + [node], done, rank, clock)
  {
    var path' := path + [node];
    forall i | 0 <= i < |path'| - 1
      ensures path'[i + 1] in g[path'[i]]
    {
      if i + 1 < |path| {
        assert path'[i] == path[i] && path'[i + 1] == path[i + 1];
      }
    }
    forall i, j | 0 <= i < j < |path'|
      ensures path'[i] != path'[j]
    {
      assert path'[i] == path[i];
    }
  }

  /** Popping the top of the path and finishing it at the current time keeps StackOk. */
  lemma LeaveKeepsStackOk(g: seq<seq<nat>>, root: nat, path: seq<nat>, done: set<nat>, rank: map<nat, nat>, clock: nat)
    requires StackOk(g, root, path, done, rank, clock) && |path| > 0
    ensures StackOk(g, root, path[..|path| - 1], done + {path[|path| - 1]}, rank[path[|path| - 1] := clock], clock + 1)
  {
    PopKeepsChain(g, root, path);
  }

  /** Reporting the part of the path from `node` to the top keeps the invariant. */
  lemma ReportKeepsInv(g: seq<seq<nat>>, root: nat, path: seq<nat>, result: seq<seq<nat>>, done: set<nat>,
                       rank: map<nat, nat>, clock: nat, entry: map<nat, nat>, entryClock: nat, node: nat)
    requires SearchInv(g, root, path, result, done, rank, clock, entry, entryClock)
    requires node in path && node in g[path[|path| - 1]]
    requires SimpleLists(g) ==> !Closes(result, path[|path| - 1], node)
    ensures SearchInv(g, root, path, result + [path[IndexOf(path, node)..]], done, rank, clock, entry, entryClock)
  {
    ReportKeepsResultOk(g, root, path, done, rank, result, node);
    ReportKeepsEntryOk(entry, entryClock, path, done, result, IndexOf(path, node));
  }

  /** Pushing a white node connected to the top of the path (or the root on an empty path) keeps the invariant. */
  lemma EnterKeepsInv(g: seq<seq<nat>>, root: nat, path: seq<nat>, result: seq<seq<nat>>, done: set<nat>,
                      rank: map<nat, nat>, clock: nat, entry: map<nat, nat>, entryClock: nat, node: nat)
    requires SearchInv(g, root, path, result, done, rank, clock, entry, entryClock)
    requires node < |g| && node !in path && node !in done
    requires |path| == 0 ==> node == root
    requires |path| > 0 ==> node in g[path[|path| - 1]]
    ensures SearchInv(g, root, path + [node], result, done, rank, clock, entry[node := entryClock], entryClock + 1)
  {
    EnterKeepsStackOk(g, root, path, done, rank, clock, node);
    EnterKeepsResultOk(g, root, path, done, rank, result, node);
    EnterKeepsEntryOk(entry, entryClock, path, done, result, node);
  }

  /** Popping the top of the path and finishing it, once its neighbours are handled, keeps the invariant. */
  lemma LeaveKeepsInv(g: seq<seq<nat>>, root: nat, path: seq<nat>, result: seq<seq<nat>>, done: set<nat>,
                      rank: map<nat, nat>, clock: nat, entry: map<nat, nat>, entryClock: nat, node: nat)
    requires SearchInv(g, root, path, result, done, rank, clock, entry, entryClock)
    requires |path| > 0 && path[|path| - 1] == node
    requires forall k :: 0 <= k < |g[node]| ==> g[node][k] in done || Closes(result, node, g[node][k])
    ensures SearchInv(g, root, path[..|path| - 1], result, done + {node}, rank[node := clock], clock + 1, entry, entryClock)
  {
    LeaveKeepsResultOk(g, root, path, done, rank, clock, result, node);
    LeaveKeepsEntryOk(entry, entryClock, path, done, result);
    LeaveKeepsStackOk(g, root, path, done, rank, clock);
  }

  /** Popping the top of a rooted chain of distinct nodes leaves one, without the old top. */
  lemma PopKeepsChain(g: seq<seq<nat>>, root: nat, path: seq<nat>)
    requires RootedChain(g, root, path) && Distinct(path) && |path| > 0
    ensures RootedChain(g, root, path[..|path| - 1]) && Distinct(path[..|path| - 1])
    ensures forall x :: x in path[..|path| - 1] ==> x in path && x != path[|path| - 1]
  {
    var path' := path[..|path| - 1];
    forall x | x in path'
      ensures x in path && x != path[|path| - 1]
    {
      var i :| 0 <= i < |path'| && path'[i] == x;
      assert path[i] == x;
    }
  }

  /**
   * The state cycle_detector threads through its recursion: the ancestor
   * path and the result list (both shared, mutable lists in `bfs_and_cycle_detection.py`),
   * plus the set of finished nodes. A node on the path is "gray", a finished
   * node "black", any other node "white".
   */
  class CycleSearch {
    const g: seq<seq<nat>>
    const root: nat
    var path: seq<nat>
    var result: seq<seq<nat>>
    var done: set<nat>
    /** When each finished node was finished, on a clock that only moves forward. */
    ghost var rank: map<nat, nat>
    ghost var clock: nat
    /** When each node on the path or finished was pushed, on a second clock. */
    ghost var entry: map<nat, nat>
    ghost var entryClock: nat

    ghost predicate Valid()
      reads this
    {
      SearchInv(g, root, path, result, done, rank, clock, entry, entryClock)
    }

    /** The white nodes; every call to Detect that explores a node removes it. */
    ghost function Whites(): set<nat>
      reads this
    {
      set x | 0 <= x < |g| && x !in path && x !in done
    }

    /** cycle_detection's fresh state: an empty path, an empty result, nothing finished. */
    constructor (g: seq<seq<nat>>, root: nat)
      requires ValidGraph(g) && root < |g|
      ensures Valid() && this.g == g && this.root == root
      ensures path == [] && result == [] && done == {}
    {
      this.g := g;
      this.root := root;
      path, result, done := [], [], {};
      rank, clock := map[], 0;
      entry, entryClock := map[], 0;
    }

    /**
     * cycle_detector(node, current_path, result). A node on the path closes a
     * cycle: the path from it to the top is reported and nothing more is
     * done. A finished node is skipped. Any other node is pushed, its
     * neighbours are explored in order, and it is popped and finished.
     */
    method Detect(node: nat)
      requires Valid() && node < |g|
      requires |path| == 0 ==> node == root
      requires |path| > 0 ==> node in g[path[|path| - 1]]
      requires SimpleLists(g) && |path| > 0 ==> !Closes(result, path[|path| - 1], node)
      modifies this
      ensures Valid()
      ensures path == old(path) && old(done) <= done
      ensures |old(result)| <= |result| && result[..|old(result)|] == old(result)
      ensures Extends(old(rank), rank)
      ensures node in old(path) ==> result == old(result) + [old(path)[IndexOf(old(path), node)..]]
      ensures node in old(path) ==> done == old(done) && rank == old(rank)
      ensures node in old(done) ==> result == old(result) && done == old(done)
      ensures node !in old(path) ==> node in done
      ensures node !in old(path) && node !in old(done) && node in g[node] ==> ReportedSince(result, |old(result)|, [node])
      ensures |old(path)| > 0 ==> node in done || Closes(result, old(path)[|old(path)| - 1], node)
      ensures |old(path)| > 0 && node == old(path)[|old(path)| - 1] ==> ReportedSince(result, |old(result)|, [node])
      ensures |old(path)| > 0 ==> ClosedSinceAt(result, |old(result)|, old(path), old(path)[|old(path)| - 1], [node])
      ensures Whites() <= old(Whites())
      decreases Whites(), 3
    {
      if node in path {
        ghost var before := result;
        Report(node);
        ReportCloses(path, before, node);
      } else if node !in done {
        Explore(node);
      }
    }

    /** A white node: push it, explore its neighbours in order, pop it and finish it. */
    method Explore(node: nat)
      requires Valid() && node < |g| && node !in path && node !in done
      requires |path| == 0 ==> node == root
      requires |path| > 0 ==> node in g[path[|path| - 1]]
      modifies this
      ensures Valid()
      ensures path == old(path) && old(done) <= done && node in done
      ensures |old(result)| <= |result| && result[..|old(result)|] == old(result)
      ensures Extends(old(rank), rank)
      ensures node in g[node] ==> ReportedSince(result, |old(result)|, [node])
      ensures |old(path)| > 0 ==> ClosedSinceAt(result, |old(result)|, old(path), old(path)[|old(path)| - 1], [node])
      ensures Whites() <= old(Whites())
      decreases Whites(), 2
    {
      assert NoneEndAt(result, node);
      ghost var below := path;
      Enter(node);
      ExploreNeighbours(node);
      Leave(node);
      if |below| > 0 {
        ClosedSinceAtBelow(result, |old(result)|, below, node, g[node], below[|below| - 1], [node]);
      }
    }

    /** A node already on the path closes a cycle: report the path from it to the top. */
    method Report(node: nat)
      requires Valid() && node in path && node in g[path[|path| - 1]]
      requires SimpleLists(g) ==> !Closes(result, path[|path| - 1], node)
      modifies this
      ensures path == old(path) && done == old(done) && rank == old(rank) && clock == old(clock)
      ensures entry == old(entry) && entryClock == old(entryClock)
      ensures result == old(result) + [old(path)[IndexOf(old(path), node)..]]
      ensures Valid()
    {
      ReportKeepsInv(g, root, path, result, done, rank, clock, entry, entryClock, node);
      result := result + [path[IndexOf(path, node)..]];
    }

    /** Push a white node on the path. */
    method Enter(node: nat)
      requires Valid() && node < |g| && node !in path && node !in done
      requires |path| == 0 ==> node == root
      requires |path| > 0 ==> node in g[path[|path| - 1]]
      modifies this
      ensures path == old(path) + [node] && result == old(result) && done == old(done)
      ensures rank == old(rank) && clock == old(clock)
      ensures entry == old(entry)[node := old(entryClock)] && entryClock == old(entryClock) + 1
      ensures Valid()
      ensures Whites() == old(Whites()) - {node}
    {
      EnterKeepsInv(g, root, path, result, done, rank, clock, entry, entryClock, node);
      path := path + [node];
      entry, entryClock := entry[node := entryClock], entryClock + 1;
    }

    /** The `for` loop over the neighbours of a node that has just been pushed. */
    method ExploreNeighbours(node: nat)
      requires Valid() && node < |g| && |path| > 0 && path[|path| - 1] == node
      requires NoneEndAt(result, node)
      modifies this
      ensures Valid()
      ensures path == old(path) && old(done) <= done && Extends(old(rank), rank)
      ensures |old(result)| <= |result| && result[..|old(result)|] == old(result)
      ensures forall k :: 0 <= k < |g[node]| ==> g[node][k] in done || Closes(result, node, g[node][k])
      ensures node in g[node] ==> ReportedSince(result, |old(result)|, [node])
      ensures ClosedSinceAt(result, |old(result)|, path, node, g[node])
      ensures Whites() <= old(Whites())
      decreases Whites() + {node}, 1
    {
      var nbrs := g[node];
      for j := 0 to |nbrs|
        invariant Valid()
        invariant path == old(path) && old(done) <= done && Extends(old(rank), rank)
        invariant |old(result)| <= |result| && result[..|old(result)|] == old(result)
        invariant forall k :: 0 <= k < j ==> nbrs[k] in done || Closes(result, node, nbrs[k])
        invariant node in nbrs[..j] ==> ReportedSince(result, |old(result)|, [node])
        invariant ClosedSinceAt(result, |old(result)|, path, node, nbrs[..j])
        invariant Whites() <= old(Whites())
      {
        ghost var before := result;
        if SimpleLists(g) {
          NotClosedYet(old(result), result, path, node, nbrs, j);
        }
        ghost var doneBefore := done;
        Visit(node, j);
        ExploredStep(old(result), before, result, doneBefore, done, node, nbrs, j);
        ClosedSinceAtSnoc(old(result), before, result, path, node, nbrs, j);
      }
      assert nbrs[..|nbrs|] == nbrs;
    }

    /** One turn of that loop: the recursive call on the `j`-th neighbour. */
    method Visit(node: nat, j: nat)
      requires Valid() && node < |g| && |path| > 0 && path[|path| - 1] == node && j < |g[node]|
      requires SimpleLists(g) ==> !Closes(result, node, g[node][j])
      modifies this
      ensures Valid()
      ensures path == old(path) && old(done) <= done && Extends(old(rank), rank)
      ensures |old(result)| <= |result| && result[..|old(result)|] == old(result)
      ensures g[node][j] in done || Closes(result, node, g[node][j])
      ensures g[node][j] == node ==> ReportedSince(result, |old(result)|, [node])
      ensures ClosedSinceAt(result, |old(result)|, path, node, [g[node][j]])
      ensures Whites() <= old(Whites())
      decreases Whites() + {node}, 0
    {
      Detect(g[node][j]);
    }

    /** Pop the node off the path and finish it. */
    method Leave(node: nat)
      requires Valid() && |path| > 0 && path[|path| - 1] == node && node < |g|
      requires forall k :: 0 <= k < |g[node]| ==> g[node][k] in done || Closes(result, node, g[node][k])
      modifies this
      ensures path == old(path)[..|old(path)| - 1] && result == old(result)
      ensures done == old(done) + {node} && rank == old(rank)[node := old(clock)]
      ensures Extends(old(rank), rank)
      ensures entry == old(entry) && entryClock == old(entryClock)
      ensures Valid()
      ensures Whites() == old(Whites())
    {
      LeaveKeepsInv(g, root, path, result, done, rank, clock, entry, entryClock, node);
      path := path[..|path| - 1];
      done := done + {node};
      rank, clock := rank[node := clock], clock + 1;
    }
  }

  /** A cycle once reported stays reported when the result grows. */
  lemma ClosesGrow(before: seq<seq<nat>>, after: seq<seq<nat>>, u: nat, v: nat)
    requires |before| <= |after| && after[..|before|] == before
    requires Closes(before, u, v)
    ensures Closes(after, u, v)
  {
    var m :| 0 <= m < |before| && |before[m]| > 0 && before[m][0] == v && before[m][|before[m]| - 1] == u;
    assert after[m] == before[m];
  }

  lemma ClosesPersist(before: seq<seq<nat>>, after: seq<seq<nat>>, u: nat, vs: seq<nat>)
    requires |before| <= |after| && after[..|before|] == before
    ensures forall k :: 0 <= k < |vs| && Closes(before, u, vs[k]) ==> Closes(after, u, vs[k])
  {
    forall k | 0 <= k < |vs| && Closes(before, u, vs[k])
      ensures Closes(after, u, vs[k])
    {
      ClosesGrow(before, after, u, vs[k]);
    }
  }

  /**
   * One more neighbour searched: every neighbour so far is finished or closes
   * a reported cycle, and a self-loop among them has been reported.
   */
  lemma ExploredStep(r0: seq<seq<nat>>, r1: seq<seq<nat>>, r2: seq<seq<nat>>, done1: set<nat>, done2: set<nat>,
                     node: nat, nbrs: seq<nat>, j: nat)
    requires |r0| <= |r1| <= |r2| && r1[..|r0|] == r0 && r2[..|r1|] == r1 && done1 <= done2 && j < |nbrs|
    requires forall k :: 0 <= k < j ==> nbrs[k] in done1 || Closes(r1, node, nbrs[k])
    requires nbrs[j] in done2 || Closes(r2, node, nbrs[j])
    requires node in nbrs[..j] ==> ReportedSince(r1, |r0|, [node])
    requires nbrs[j] == node ==> ReportedSince(r2, |r1|, [node])
    ensures forall k :: 0 <= k < j + 1 ==> nbrs[k] in done2 || Closes(r2, node, nbrs[k])
    ensures node in nbrs[..j + 1] ==> ReportedSince(r2, |r0|, [node])
  {
    ClosesPersist(r1, r2, node, nbrs[..j]);
    assert nbrs[..j + 1] == nbrs[..j] + [nbrs[j]];
    if node in nbrs[..j] {
      var m :| |r0| <= m < |r1| && r1[m] == [node];
      assert r2[m] == r1[m];
    }
  }

  /**
   * cycle_detection(root): run the search from `root` with an empty path and
   * an empty result, and return the result. Every reported cycle is a simple
   * cycle reachable from `root`; none is reported exactly when no cycle is
   * reachable; a self-loop on the root is reported as [root].
   */
  method CycleDetection(g: seq<seq<nat>>, root: nat) returns (cycles: seq<seq<nat>>)
    requires ValidGraph(g) && root < |g|
    ensures forall c :: c in cycles ==> IsSimpleCycle(g, c) && Reachable(g, root, c[0])
    ensures cycles == [] <==> !HasReachableCycle(g, root)
    ensures root in g[root] ==> [root] in cycles
    ensures |g[root]| == 0 ==> cycles == []
    ensures SimpleLists(g) ==> forall m, n :: 0 <= m < n < |cycles| ==> cycles[m] != cycles[n]
    ensures forall m, n, r :: 0 <= m < n < |cycles| && 0 < r < |cycles[m]| ==>
              cycles[n] != cycles[m][r..] + cycles[m][..r]
  {
    var search := new CycleSearch(g, root);
    search.Detect(root);
    cycles := search.result;
    if cycles == [] {
      FinishOrderAcyclic(g, root, search.done, search.rank);
    } else {
      assert cycles[0] in cycles;
    }
    if |g[root]| == 0 {
      IsolatedRootNoCycle(g, root);
    }
    if SimpleLists(g) {
      ClosedOnceDistinct(cycles);
    }
    AscendingNoRotations(search.entry, cycles);
  }
}
