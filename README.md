# Breadth-first search and cycle detection, in Dafny

This project models `bfs_and_cycle_detection.py`: a breadth-first search
`BFS(root, target)`, and the recursive cycle finder `cycle_detector` with
its entry point `cycle_detection(root)`. It proves what each one computes.

A graph is a sequence of adjacency lists. Node `v` is the index `v`, and
`g[v]` is its ordered `connected` list, duplicates allowed. Python's
`current is target` and `root in current_path` both become index equality.

- `graph.dfy` (module `Graph`) defines what the proofs speak about:
  - reachability in at most `k` steps (`Within`) and exact BFS distance
    (`AtDistance`);
  - cycles (`IsCycle`, `IsSimpleCycle`) and `HasReachableCycle`;
  - two general ways to rule out a cycle.
- `bfs.dfy` (module `Bfs`) is `BFS` as written, as an imperative method.
  - It keeps a FIFO `queue`, a `visited` set, and a pop / test / mark /
    append loop.
  - A neighbour is appended when it is not in `visited`; the queue itself is
    not checked. So a node can be pending, and be popped, more than once.
    The model keeps this.
  - Termination uses two measures. First, the set of nodes never visited.
    Second, when no new node is visited, the number of pending entries whose
    node is already visited.
  - Ghost per-entry levels prove the FIFO layering. The ghost outputs `order`
    and `depth` give the first-visit order and the distance of each node in it.
- `cycles.dfy` (module `CycleDetection`) is the cycle finder as its
  documentation describes it, with the two defects listed under Findings
  corrected.
  - A `CycleSearch` object holds the state the recursion shares: `path` for
    `current_path`, and `result`. It adds a `done` set of finished nodes.
  - A node already on the path closes a cycle: the slice
    `path[path.index(node):]` is reported and the call returns.
  - A finished node is skipped.
  - Any other node is pushed, its neighbours are searched in order, then it
    is popped and finished.
  - A ghost finishing time per node carries the proof that an empty result
    means no cycle is reachable. A ghost push time per node shows that each
    reported cycle lists its nodes in push order, so none is a rotation of
    another.
- `literal.dfy` (module `Literal`) is `cycle_detector` exactly as written.
  - It is a pure recursive function with a bound on nesting depth; `None`
    stands for Python's RecursionError.
  - It shows the two defects on concrete graphs.
- `wrappers.dfy` holds the `Option` type.

## Model

| member | source | states |
|---|---|---|
| Bfs.BFS | bfs_and_cycle_detection.py:2-13 | Returns the target exactly when it is reachable from `root`, nothing otherwise. When `root` is the target it returns at once, having visited nothing. The first-visit order holds no node twice. Each node in it sits at its BFS distance, distances never drop along it, and none exceeds the returned target's distance. A returned target has exactly one BFS distance, and every node nearer to `root` than that is in the order: it was examined first. When nothing is returned, the visited nodes are exactly the reachable ones. |
| Bfs.AppendUnvisited | bfs_and_cycle_detection.py:10-13 | Appends to the queue exactly the neighbours not in `visited`, in adjacency order, duplicates kept. |
| Bfs.Unvisited | bfs_and_cycle_detection.py:10-13 | The appended neighbours are exactly those not visited. There are never more of them than neighbours. |
| Bfs.Step | bfs_and_cycle_detection.py:6-13 | One turn of the loop when the popped node is not the target. The node joins `visited`, and joins the first-visit order if it was not visited yet. The queue becomes the rest followed by the unvisited neighbours. The loop invariant is kept and the termination measure drops. |
| Bfs.StepPreservesInv | bfs_and_cycle_detection.py:5-13 | One iteration keeps the loop invariant: pop the head, mark it visited, append its unvisited neighbours. Pending entries are reachable at their level, and levels are sorted and span at most two layers. Every neighbour of a visited node is visited or pending. Every node of the current layer is visited or pending at that layer. The first-visit order stays duplicate-free and sorted by distance. |
| Bfs.StepDecreases | bfs_and_cycle_detection.py:5-13 | Each iteration that does not return either visits a new node, or leaves the visited set unchanged and has fewer pending entries that are already visited. So the loop ends even though the queue can hold duplicates. |
| Bfs.FoundAtHead | bfs_and_cycle_detection.py:6-8 | A popped node equal to the target is reachable at the distance of its layer. No visited node is farther, and every node nearer than it has been visited. |
| Bfs.ExhaustedQueue | bfs_and_cycle_detection.py:5-13 | When the queue is empty, every node reachable from `root` has been visited and the target has not, so it is unreachable. |
| Bfs.RevisitsAppendUnvisited | bfs_and_cycle_detection.py:12-13 | Appending only unvisited nodes adds no already-visited pending entry. |
| CycleDetection.CycleDetection | bfs_and_cycle_detection.py:28-36 | Starting from an empty path and an empty result:<br>- every reported cycle is a simple cycle whose first node `root` reaches;<br>- the result is empty exactly when no cycle is reachable from `root`;<br>- a self-loop on `root` is reported as `[root]`;<br>- a root with no connected nodes yields an empty result;<br>- when no `connected` list names a node twice, no list is reported twice;<br>- no reported cycle is a rotation, by a non-zero amount, of an earlier one, so one cycle is never reported again from another of its nodes. |
| CycleDetection.NotClosedYet | bfs_and_cycle_detection.py:23-25 | With no node repeated in `connected`, the edge to the next neighbour has not closed a reported cycle yet, so the search never reports a cycle along the same edge twice. |
| CycleDetection.ClosedOnceDistinct | bfs_and_cycle_detection.py:17-19 | Reported cycles closed along distinct edges are distinct lists. |
| CycleDetection.RotationNotAscending | bfs_and_cycle_detection.py:17-19 | A list whose nodes' push times strictly increase, as along the path and any slice of it, loses that order when rotated by a non-zero amount. |
| CycleDetection.AscendingNoRotations | bfs_and_cycle_detection.py:16-25 | When every reported cycle lists its nodes in push order, no reported cycle is a non-trivial rotation of another. |
| CycleDetection.CycleSearch.Detect | bfs_and_cycle_detection.py:16-25 | The path is unchanged afterwards. Results and finished nodes are only added to.<br>- Node already on the path: appends `path[path.index(node):]` and nothing else.<br>- Finished node: changes nothing.<br>- Any other node: it ends finished, and a self-loop on it is reported.<br>Either the node ends finished or the edge from the path's last node to it closes a reported cycle. Every new cycle that ends on the path ends at its last node and starts at `node`. All invariants are kept. |
| CycleDetection.CycleSearch.Report | bfs_and_cycle_detection.py:17-19 | Appends the path from the first occurrence of the node to its end and changes nothing else. All invariants are kept, among them that every reported cycle lists its nodes in push order. |
| CycleDetection.ReportCloses | bfs_and_cycle_detection.py:17-19 | The appended slice starts at the node and ends at the path's top, so the edge from the top to the node closes it. When the node is the top itself, the slice is `[node]`. |
| CycleDetection.CycleSearch.Explore | bfs_and_cycle_detection.py:20-25 | A node not on the path and not finished is pushed, searched and popped. It ends finished, the path is as before, and results and finished nodes are only added to. A self-loop on it is reported. No new cycle ends on the path below it. |
| CycleDetection.CycleSearch.Enter | bfs_and_cycle_detection.py:20-22 | Appends the node to the path, gives it the next push time, and changes nothing else. |
| CycleDetection.CycleSearch.ExploreNeighbours | bfs_and_cycle_detection.py:23-25 | After the loop over the node's neighbours, every neighbour is finished or closes a reported cycle at this node. A self-loop is reported. The path is as before. |
| CycleDetection.CycleSearch.Visit | bfs_and_cycle_detection.py:25 | The recursive call on one neighbour leaves it finished or closing a reported cycle at this node. |
| CycleDetection.CycleSearch.Leave | bfs_and_cycle_detection.py:20-25 | Pops the node off the path and marks it finished, later than every node finished before. |
| CycleDetection.CycleSearch.constructor | bfs_and_cycle_detection.py:34-35 | Starts with an empty path, an empty result and nothing finished. |
| CycleDetection.IndexOf | bfs_and_cycle_detection.py:19 | `list.index`: the position of the first occurrence. |
| CycleDetection.SuffixIsCycle | bfs_and_cycle_detection.py:19 | The slice recorded for a node on the path is a simple cycle reachable from `root`, when the path's top connects back to that node. |
| CycleDetection.ChainReachable | bfs_and_cycle_detection.py:22-25 | Every node on the current path is reachable from `root`. |
| CycleDetection.FinishOrderAcyclic | bfs_and_cycle_detection.py:28-36 | Suppose every neighbour of a finished node was finished strictly before it, and `root` is finished. Then no cycle is reachable from `root`. |
| CycleDetection.IsolatedRootNoCycle | bfs_and_cycle_detection.py:23-25 | A root with no connected nodes reaches no cycle. |
| Literal.LiteralDetector | bfs_and_cycle_detection.py:16-25 | `cycle_detector` as written, depth-bounded. Whenever it returns, every node that was on the path still is: the path is never popped. |
| Literal.LiteralCycleDetection | bfs_and_cycle_detection.py:28-36 | `cycle_detection` as written, depth-bounded. A root with no connected nodes yields an empty list whenever one call is allowed. |
| Literal.LiteralEach | bfs_and_cycle_detection.py:23-25 | The loop over `connected` as written never removes a node from the path. |
| Literal.CycleOnPathDiverges | bfs_and_cycle_detection.py:16-25 | Once all nodes of a cycle are on the path, the call on any of them never returns, at any depth bound. |
| Literal.EachDiverges | bfs_and_cycle_detection.py:23-25 | The loop over a list naming such a node never finishes. |
| Literal.RootSelfLoopDiverges | bfs_and_cycle_detection.py:28-36 | When `root` is connected to itself, `cycle_detection` as written never returns, at any depth bound. |
| Literal.SelfLoopDiverges | bfs_and_cycle_detection.py:28-36 | On the one-node self-loop `[[0]]`, `cycle_detection` as written never returns. |
| Literal.DiamondSpuriousCycle | bfs_and_cycle_detection.py:16-36 | On the diamond `[[1, 2], [3], [3], []]`, with depth bound 3 or more, `cycle_detection` as written returns `[[3, 2]]`. `[3, 2]` is not a cycle. |

## Left out

- Nodes are indices into an adjacency sequence, not objects with a
  `connected` attribute. `BFS` returns the target's index rather than the
  node object.
- Building graphs, and any code outside `bfs_and_cycle_detection.py`, is
  not part of this model.
- `current_path` and `result` are lists the caller could hold and inspect
  afterwards. The model keeps them as fields of one `CycleSearch` object
  and does not model aliasing by the caller.
- CycleDetection.CycleSearch.Detect: does not model Python's recursion
  limit. A path longer than about a thousand nodes would raise
  RecursionError in Python; the model recurses without bound.
- CycleDetection.CycleDetection: does not report every simple cycle, which
  the documentation's "Find all cycle" promises. It reports only genuine
  simple cycles reachable from `root`, and at least one whenever any is
  reachable. A depth-first search that skips finished nodes cannot list
  them all, and the code as written lists none reliably (see Findings).
  When a `connected` list names the same node twice and that edge closes a
  cycle, the cycle is reported once per copy: on `[[0, 0]]` the result is
  `[[0], [0]]`. Without repeated entries no list is reported twice. With or
  without them, no cycle is reported again from another of its nodes.
- The `Literal` functions take an explicit depth bound in place of Python's
  recursion limit. Results are stated for every bound, or for every bound
  from a stated minimum, rather than for the interpreter's default of 1000.

## Findings

| source | as written | input that shows it | evidently intended | confidence | as-written member | corrected member |
|---|---|---|---|---|---|---|
| bfs_and_cycle_detection.py:17-25 | After recording a cycle, the call still recurses into the node's neighbours, so a cycle is walked around again forever. | `[[0]]`, node 0 connected to itself: no depth bound is ever enough, so Python raises RecursionError. | Record the cycle and return without exploring the node again. | not executed | Literal.SelfLoopDiverges | CycleDetection.CycleDetection |
| bfs_and_cycle_detection.py:20-25 | `current_path` is never popped, so it holds every node reached so far, not the path to the current node. | `[[1, 2], [3], [3], []]` returns `[[3, 2]]`, though the graph has no cycle and `[3, 2]` is not one. | Pop the node once its neighbours are done; skip nodes already finished. | not executed | Literal.DiamondSpuriousCycle | CycleDetection.CycleDetection |
