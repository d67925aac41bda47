# Graph, tree and array algorithms of cp_and_algos, in Dafny

This project models the sequential algorithms of the `cp_and_algos`
collection and proves their correctness contracts:

- the disjoint-set union with path compression and union by rank, and
  Kruskal's minimum spanning tree (`dsu.dfy`, `kruskal.dfy`);
- topological sorting by Kahn's in-degree queue and by DFS finish order
  (`toposort.dfy`, with the shared finish-order DFS in `dfs.dfy`);
- Dijkstra's single-source shortest paths with a lazy priority queue
  (`dijkstra.dfy`, over `weighted.dfy` and `min_queue.dfy`);
- Prim's minimum spanning tree with `key`, `parent` and `inMST` arrays
  (`prim.dfy`);
- Kosaraju's strongly connected components (`kosaraju.dfy`);
- Tarjan's articulation points (`articulation.dfy`);
- the lowest common ancestor in a binary tree and in a binary search tree
  (`lca.dfy`);
- `minSwaps`, which sorts by digit sum and swaps each value into its
  slot (`min_swaps.dfy`).

The graph routines print their result. Here they return it instead: an
order, a distance or key array, a component list, or a flag array. The
two lowest-common-ancestor searches and `minSwaps` already return their
result: a node, or the swap count. `minSwaps` takes `nums` by reference
and rearranges it, so the model also returns the rearranged sequence.
Containers become values:

- `vector` becomes `seq`.
- `visited` arrays become sets.
- The priority queue is a sequence with an explicit lexicographic
  extract-min (`MinQueue.Pop`).
- `std::sort` is an insertion sort under a strict weak order
  (`Sorting.Sort`).
- `unordered_map` becomes a `map`.
- Pointer trees become the immutable datatype `CommonAncestor.Tree`.

The `INT_MAX` sentinel is kept as the constant `IntMax`. Integers are
unbounded.

Shared definitions:

- `Graph`: adjacency lists, edge multiplicities, paths, reachability,
  mutual reachability, cycles and topological orders.
- `Weighted`: weighted adjacency lists, walks and walk weights.
- `Seqs`: the range {0, ..., n-1} and repetition-free sequences
  (`seqs.dfy`).

The reference definitions that the algorithms are proved against are:

- **Connectivity:** labels built by merging classes edge by edge
  (`Kruskal.Labels`).
- **In-degree:** a sum of multiplicities (`Toposort.InDegree`).
- **Reachability:** the existence of a path or walk.
- **Strongly connected component:** a set closed under mutual
  reachability (`Kosaraju.IsScc`).
- **Lowest common ancestor:** a node containing both targets where
  neither child contains both (`CommonAncestor.IsLca`).
- **Search forest:** descent along `parent` links, each to an
  earlier-discovered vertex (`Articulation.Above`).

## Model

| member | source | states |
|---|---|---|
| Graph.AddEdge | graphs/graph-01-Toposort-Kahns.cpp:45-47 | `addEdge(u, v)` adds exactly one copy of the arc u→v; every other multiplicity is unchanged |
| Graph.AddUndirectedEdge | graphs/Tough/graph-Articulationpoints-Tarjan.cpp:50-53 | `addEdge(u, v)` adds exactly one arc u→v and one arc v→u (two copies of u→u when u = v), changes no other multiplicity, and keeps a symmetric adjacency symmetric |
| Graph.Empty | graphs/graph-01-Toposort-Kahns.cpp:40-43 | the constructor gives n vertices and no edges |
| Graph.TopologicalNoCycle | graphs/graph-01-Toposort-Kahns.cpp:1-2 | a graph that has a topological order has no cycle |
| Graph.MutualCycle | graphs/graph-SCC-Kosaraju.cpp:34-42 | two distinct mutually reachable vertices lie on a cycle |
| Sorting.Sort | graphs/graph-04-MST-Kruskal-DSU.cpp:62 | `std::sort` under a strict weak order returns a permutation of its input that is sorted under that order |
| Dsu.New | graphs/graph-04-MST-Kruskal-DSU.cpp:22-28 | after construction every element is its own parent and root, with rank 0 |
| Dsu.Root | graphs/graph-04-MST-Kruskal-DSU.cpp:31-36 | following parents from x ends at a root, whose rank is at least x's, and strictly greater when the root is not x |
| Dsu.Find | graphs/graph-04-MST-Kruskal-DSU.cpp:31-36 | `find(x)` returns x's root, points x directly at it, leaves ranks alone and changes no element's root |
| Dsu.RedirectRoot | graphs/graph-04-MST-Kruskal-DSU.cpp:33-34 | path compression (pointing x at its root) keeps the forest valid and every element's root |
| Dsu.Link | graphs/graph-04-MST-Kruskal-DSU.cpp:46-53 | hanging root c under root p moves exactly the elements of c's class to root p |
| Dsu.LinkRoots | graphs/graph-04-MST-Kruskal-DSU.cpp:44-55 | union by rank: the root of lower rank goes under the other (rx wins a tie). Only rx's rank can change, by one, and only on a tie. Equal roots leave every root and rank unchanged |
| Dsu.Unite | graphs/graph-04-MST-Kruskal-DSU.cpp:39-56 | after `unite(x, y)` the two share a root. It is the old root of higher rank (x's on a tie). Elements of other classes keep their root. Rank changes only at the surviving root, by one, on equal ranks |
| Kruskal.CompareEdgesIsStrictOrder | graphs/graph-04-MST-Kruskal-DSU.cpp:11-14 | `compareEdges` is a strict weak order, as `std::sort` needs |
| Kruskal.SortEdges | graphs/graph-04-MST-Kruskal-DSU.cpp:62 | the sorted edges are a permutation of the input, in non-decreasing weight |
| Kruskal.UniteAgrees | graphs/graph-04-MST-Kruskal-DSU.cpp:70-72 | the DSU's "same root" relation stays equal to "same label" in the reference model when `unite` is matched by a label merge |
| Kruskal.ForestClasses | graphs/graph-04-MST-Kruskal-DSU.cpp:70-77 | a forest of k edges on n vertices leaves exactly n-k connected classes |
| Kruskal.ForestSize | graphs/graph-04-MST-Kruskal-DSU.cpp:76-77 | a forest on n >= 1 vertices has at most n-1 edges |
| Kruskal.AcceptEdge | graphs/graph-04-MST-Kruskal-DSU.cpp:70-74 | keeping an edge between two different classes keeps a forest and connects its ends |
| Kruskal.ExtendSpans | graphs/graph-04-MST-Kruskal-DSU.cpp:70 | a skipped edge already has both ends in one class |
| Kruskal.ProcessEdge | graphs/graph-04-MST-Kruskal-DSU.cpp:68-75 | an edge is kept exactly when its ends lie in different classes. The result stays a forest, the DSU keeps agreeing with it, and `mstWeight` grows by the kept weight |
| Kruskal.Step | graphs/graph-04-MST-Kruskal-DSU.cpp:68-78 | one loop turn keeps the loop state and appends exactly the edge joining two classes |
| Kruskal.PicksMultiset | graphs/graph-04-MST-Kruskal-DSU.cpp:73 | edges pushed in loop order from the sorted list form a sub-multiset of it |
| Kruskal.FinalSpans | graphs/graph-04-MST-Kruskal-DSU.cpp:76-77 | stopping early at V-1 edges still connects the ends of every input edge |
| Kruskal.KruskalMST | graphs/graph-04-MST-Kruskal-DSU.cpp:60-78 | the kept edges are a subsequence of the sorted edges in non-decreasing weight. They are acyclic, number at most V-1 and connect the ends of every input edge. `mstWeight` is their total weight |
| Toposort.Build | graphs/graph-01-Toposort-Kahns.cpp:40-47 | building from an edge list gives each arc the multiplicity it has in the list |
| Toposort.InDegrees | graphs/graph-01-Toposort-Kahns.cpp:51-56 | the initial `inDegree[v]` equals the number of arcs into v |
| Toposort.ZeroQueue | graphs/graph-01-Toposort-Kahns.cpp:57-62 | the initial queue holds exactly the vertices of in-degree 0, in increasing order, each once |
| Toposort.PopStep | graphs/graph-01-Toposort-Kahns.cpp:64-67 | a dequeued vertex has all its predecessors already in `topoOrder` |
| Toposort.ReleaseOne | graphs/graph-01-Toposort-Kahns.cpp:68-72 | decrementing one successor's in-degree keeps it equal to the count of arcs from unemitted vertices, and enqueues the vertex exactly when that count reaches 0 |
| Toposort.Release | graphs/graph-01-Toposort-Kahns.cpp:68-72 | scanning all successors restores the queue invariant |
| Toposort.KahnResult | graphs/graph-01-Toposort-Kahns.cpp:74-77 | the output is duplicate-free with at most V entries. It has V entries iff the graph is acyclic, and is then a topological order |
| Toposort.BackwardCycle | graphs/graph-01-Toposort-Kahns.cpp:22 | if every unemitted vertex keeps a positive in-degree, the graph has a cycle |
| Toposort.TopologicalSortBfs | graphs/graph-01-Toposort-Kahns.cpp:50-82 | `topoOrder` is duplicate-free and lists every vertex after its predecessors. The cycle branch is taken iff fewer than V vertices were emitted, iff the graph has a cycle. Otherwise `topoOrder` is a topological order |
| Dfs.Visit | graphs/graph-01-Toposort-Kahns.cpp:85-93 | `topologicalSortDFSUtil(v)` pushes v after the newly visited vertices, each reachable from v, each once. Every vertex reachable from v ends up pushed, or pending in an active call |
| Dfs.VisitNeighbour | graphs/graph-01-Toposort-Kahns.cpp:87-91 | visiting one neighbour keeps the frame of the call and leaves that neighbour visited |
| Dfs.PushFinished | graphs/graph-01-Toposort-Kahns.cpp:92 | when v is pushed, everything reachable from v is already pushed, or mutually reachable with an active call |
| Dfs.DfsAll | graphs/graph-01-Toposort-Kahns.cpp:95-102 | the outer loop pushes every vertex exactly once, in finish order |
| Toposort.FinishOrderAcyclic | graphs/graph-01-Toposort-Kahns.cpp:11-13 | in an acyclic graph, every arc goes from a later-pushed to an earlier-pushed vertex |
| Toposort.FinishedAcyclic | graphs/graph-01-Toposort-Kahns.cpp:92 | in an acyclic graph, everything reachable from a pushed vertex was pushed no later |
| Toposort.Reverse | graphs/graph-01-Toposort-Kahns.cpp:103-106 | popping the stack lists it in reverse |
| Toposort.ReverseTopological | graphs/graph-01-Toposort-Kahns.cpp:103-106 | reversing a finish order of an acyclic graph gives a topological order |
| Toposort.TopologicalSortDfs | graphs/graph-01-Toposort-Kahns.cpp:95-108 | the popped order lists every vertex once, and is a topological order when the graph is acyclic |
| Kosaraju.New | graphs/graph-SCC-Kosaraju.cpp:13-17 | the constructor gives n vertices, no edges, and a transpose |
| Kosaraju.AddEdge | graphs/graph-SCC-Kosaraju.cpp:19-22 | `addEdge` adds one arc and keeps `adjT` the exact transpose of `adj` |
| Kosaraju.ReachTranspose | graphs/graph-SCC-Kosaraju.cpp:34-42 | b reaches a in the transpose iff a reaches b in the graph |
| Kosaraju.Collect | graphs/graph-SCC-Kosaraju.cpp:35-42 | `dfsTranspose(v)` emits v first, then newly visited vertices reachable from v in the transpose, each once. It closes the visited set over transpose arcs out of what it emits |
| Kosaraju.CollectNeighbour | graphs/graph-SCC-Kosaraju.cpp:38-41 | one neighbour of `dfsTranspose` keeps its frame and leaves the neighbour visited |
| Kosaraju.FinishedStep | graphs/graph-SCC-Kosaraju.cpp:31 | anything reachable from a stacked vertex was stacked no later, unless a vertex stacked later lies in the same component |
| Kosaraju.CompIsScc | graphs/graph-SCC-Kosaraju.cpp:58-68 | a component emitted while popping the stack is exactly one strongly connected component |
| Kosaraju.MutualInComp | graphs/graph-SCC-Kosaraju.cpp:64-65 | every vertex mutually reachable with the popped vertex is emitted in its component |
| Kosaraju.Pop | graphs/graph-SCC-Kosaraju.cpp:60-68 | one pop keeps the second-pass invariant. Emitted components are strongly connected components, pairwise disjoint, and their union is the visited set |
| Kosaraju.SecondStart | graphs/graph-SCC-Kosaraju.cpp:55-56 | with `visited` reset to all false, the second pass starts from its invariant |
| Kosaraju.FindSccs | graphs/graph-SCC-Kosaraju.cpp:45-69 | every emitted component is a strongly connected component. The components are pairwise disjoint and together hold every vertex |
| Weighted.Empty | graphs/Medium/graph-02-SSSP-Dijkstra.cpp:14-17 | the constructor gives n vertices with no arcs |
| Weighted.AddEdge | graphs/Medium/graph-02-SSSP-Dijkstra.cpp:19-22 | `addEdge(u, v, w)` adds exactly the arcs u→(v,w) and v→(u,w) |
| Weighted.AddEdgeSymmetric | graphs/graph-03-MST-Prims.cpp:32-35 | `addEdge` keeps the adjacency symmetric: (v,w) occurs in `adj[u]` as often as (u,w) in `adj[v]` |
| MinQueue.Pop | graphs/Medium/graph-02-SSSP-Dijkstra.cpp:32-34 | the min-heap `top`/`pop` removes one least entry in (first, second) order and keeps the rest |
| Dijkstra.Step | graphs/Medium/graph-02-SSSP-Dijkstra.cpp:31-43 | one pop keeps the loop invariant. No `dist` entry grows. A stale entry (`d > dist[u]`) changes nothing. The queue or the distance total shrinks |
| Dijkstra.Stale | graphs/Medium/graph-02-SSSP-Dijkstra.cpp:36 | dropping a stale entry without relaxing keeps the invariant |
| Dijkstra.RelaxFrom | graphs/Medium/graph-02-SSSP-Dijkstra.cpp:38-43 | relaxing every arc of u keeps the invariant and only lowers distances |
| Dijkstra.RelaxArc | graphs/Medium/graph-02-SSSP-Dijkstra.cpp:39-42 | one relaxation keeps each finite `dist` the weight of a walk from `src`, and queues an improved vertex with its new distance |
| Dijkstra.ImproveBounds | graphs/Medium/graph-02-SSSP-Dijkstra.cpp:39-40 | a lowered `dist[v]` is the weight of an actual walk from `src` |
| Dijkstra.Finish | graphs/Medium/graph-02-SSSP-Dijkstra.cpp:31-44 | with the queue empty, every arc out of a finite vertex is relaxed, and every unreachable vertex still has `IntMax` |
| Dijkstra.NoShorterWalk | graphs/Medium/graph-02-SSSP-Dijkstra.cpp:24-44 | once every arc is relaxed, no walk from `src` is lighter than `dist` at its end |
| Dijkstra.DistanceIsShortest | graphs/Medium/graph-02-SSSP-Dijkstra.cpp:24-44 | at the end each finite `dist[v]` is the weight of a walk to v and no walk to v is lighter |
| Dijkstra.ShortestPaths | graphs/Medium/graph-02-SSSP-Dijkstra.cpp:24-44 | `dist[src] = 0`. Each finite `dist[v]` is the weight of a walk from `src`. Every arc out of a finite vertex satisfies `dist[v] <= dist[u] + w`. Unreachable vertices keep `IntMax` |
| Prim.Step | graphs/graph-03-MST-Prims.cpp:49-64 | one pop keeps the invariant. Keys only go down. Tree vertices keep their key and parent. At most one vertex joins the tree. A popped tree vertex changes nothing |
| Prim.Skip | graphs/graph-03-MST-Prims.cpp:53 | skipping a vertex already in the tree keeps the invariant |
| Prim.Join | graphs/graph-03-MST-Prims.cpp:54 | marking the popped vertex `inMST` keeps the tree rooted at 0, each vertex after its parent |
| Prim.RelaxArc | graphs/graph-03-MST-Prims.cpp:57-63 | key and parent change only for a vertex outside the tree with a lighter arc. Then `parent[v] = u` names a tree vertex with an arc of weight `key[v]` to v |
| Prim.Improve | graphs/graph-03-MST-Prims.cpp:59-62 | lowering `key[v]` and setting `parent[v] = u` keeps the arrays' shape and the fringe invariant |
| Prim.RelaxFrom | graphs/graph-03-MST-Prims.cpp:57-64 | scanning u's arcs restores the invariant without touching tree vertices |
| Prim.Finish | graphs/graph-03-MST-Prims.cpp:49-65 | with the queue empty, the arrays span the tree |
| Prim.OrderRoot | graphs/graph-03-MST-Prims.cpp:62 | parent links of tree vertices lead back to vertex 0 |
| Prim.TreeIsComponent | graphs/graph-03-MST-Prims.cpp:49-65 | a vertex ends in the tree iff a walk over arcs lighter than `IntMax` leads from 0 to it |
| Prim.PrimMst | graphs/graph-03-MST-Prims.cpp:38-65 | `key[0] = 0` and `parent[0] = -1`. Every other tree vertex has a parent in the tree via an arc of weight `key[v]`, and parents lead to 0. Vertices outside the tree keep `IntMax` and -1. Every light arc out of the tree stays inside it |
| Articulation.Init | graphs/Tough/graph-Articulationpoints-Tarjan.cpp:40-48 | the constructor sizes every array to V, sets every `disc`, `low` and `parent` to -1 and every flag to false, and starts `time` at 0 |
| Articulation.InitValid | graphs/Tough/graph-Articulationpoints-Tarjan.cpp:40-48 | the constructed state meets the search invariant with nothing discovered |
| Articulation.Search | graphs/Tough/graph-Articulationpoints-Tarjan.cpp:56-59 | one turn of the driver loop. An already discovered vertex leaves the state unchanged. An undiscovered r becomes a search root (`parent[r] = -1`), and everything the search discovers lies below r in the search forest. Every discovered vertex stays finished |
| Articulation.ChildBelow | graphs/Tough/graph-Articulationpoints-Tarjan.cpp:22-23 | after `parent[v] = u; dfs(v)`, v and everything `dfs(v)` discovered lie below u on the chain of parents |
| Articulation.DiscoverValid | graphs/Tough/graph-Articulationpoints-Tarjan.cpp:17 | `disc[u] = low[u] = ++time` gives u the next fresh timestamp, keeping timestamps distinct and in discovery order |
| Articulation.Dfs | graphs/Tough/graph-Articulationpoints-Tarjan.cpp:15-37 | `dfs(u)` discovers u with the given parent, touches no vertex discovered earlier except u, and leaves every newly discovered vertex finished and below u in the search forest. Finished means: all neighbours are discovered; every neighbour discovered later lies below the vertex; `1 <= low <= disc`; the low equation holds; and the flagging rule holds |
| Articulation.Scan | graphs/Tough/graph-Articulationpoints-Tarjan.cpp:19-36 | the loop over `adj[u]` ends with u and everything it discovered finished |
| Articulation.Neighbour | graphs/Tough/graph-Articulationpoints-Tarjan.cpp:19-35 | one neighbour keeps the scan invariant. `low[u]` only decreases and the flag of u is never cleared |
| Articulation.Child | graphs/Tough/graph-Articulationpoints-Tarjan.cpp:20-32 | a tree child is counted, gets parent u, and is searched. `low[u]` takes the child's `low`. The root and non-root rules are applied |
| Articulation.BackEdge | graphs/Tough/graph-Articulationpoints-Tarjan.cpp:33-35 | a discovered neighbour other than the parent lowers `low[u]` to its `disc` and keeps the scan invariant |
| Articulation.SkipParent | graphs/Tough/graph-Articulationpoints-Tarjan.cpp:33 | the tree parent never updates `low[u]` |
| Articulation.LowStep | graphs/Tough/graph-Articulationpoints-Tarjan.cpp:34 | after the back-edge update, `low[u]` is at most the `disc` of every non-parent neighbour seen so far |
| Articulation.ChildLow | graphs/Tough/graph-Articulationpoints-Tarjan.cpp:26 | after `low[u] = min(low[u], low[v])`, `low[u]` is at most every child's `low` |
| Articulation.ChildRule | graphs/Tough/graph-Articulationpoints-Tarjan.cpp:29-32 | after a child returns, a root is flagged iff it has two children, and a non-root iff some child has `low >= disc[u]` |
| Articulation.FindArticulationPoints | graphs/Tough/graph-Articulationpoints-Tarjan.cpp:55-60 | every vertex is discovered once, with a distinct timestamp in 1..V. Parents are discovered neighbours. `1 <= low <= disc`. `low[u]` is the least of `disc[u]`, the children's `low` and the non-parent neighbours' `disc`. `parent` is a depth-first search forest of the graph. Every edge whose far end was discovered later leads to a descendant, so no edge joins two unrelated subtrees. A root has no neighbour discovered before it. A root is flagged iff it has two DFS children. A non-root u is flagged iff some child v has `low[v] >= disc[u]` |
| Articulation.Stamps | graphs/Tough/graph-Articulationpoints-Tarjan.cpp:56-60 | once all vertices are discovered, `disc` is a bijection onto 1..V |
| CommonAncestor.Find | graphs/graph-05-LCA-BinaryTree.cpp:14-15 | the node with a given identity, or null when the tree lacks it |
| CommonAncestor.Lowest | graphs/graph-05-LCA-BinaryTree.cpp:12-24 | `lowestCommonAncestor` returns null or a node of the tree. The result is non-null iff p or q occurs, and then contains p or q |
| CommonAncestor.LowestSymmetric | graphs/graph-05-LCA-BinaryTree.cpp:12-24 | swapping p and q does not change the result |
| CommonAncestor.LowestOfOne | graphs/graph-05-LCA-BinaryTree.cpp:14-23 | when only p occurs, the result is p's own node |
| CommonAncestor.LowestIsLca | graphs/graph-05-LCA-BinaryTree.cpp:17-23 | when both occur, the result contains both and neither child does |
| CommonAncestor.LowestIffLca | graphs/graph-05-LCA-BinaryTree.cpp:12-24 | when both occur, a node is the result iff it is their lowest common ancestor |
| CommonAncestor.LcaUnique | graphs/graph-05-LCA-BinaryTree.cpp:12-24 | two nodes can be lowest common ancestors of p and q only by being the same node |
| CommonAncestor.LowestInBst | graphs/graph-06-LCA-BST.cpp:12-24 | the loop returns null or a node of the tree, and a returned node's value lies between p and q. On a BST, null is returned iff no value lies between them. On a BST holding both values, the result equals the general search's |
| CommonAncestor.DescendLeft | graphs/graph-06-LCA-BST.cpp:16-17 | when both values are below the root, every value between them and both targets lie in the left subtree, where the answer is unchanged |
| CommonAncestor.DescendRight | graphs/graph-06-LCA-BST.cpp:18-19 | the same for the right subtree when both are above the root |
| CommonAncestor.SplitHere | graphs/graph-06-LCA-BST.cpp:20-21 | when the root's value lies between p and q, the root is the lowest common ancestor |
| CommonAncestor.BstLca | graphs/graph-06-LCA-BST.cpp:12-24 | on a BST the general search's result is the lowest common ancestor |
| MinSwaps.DigitSum | arrays/min_swaps_to_sort_custom.cpp:9-17 | the digit loop yields 0 for non-positive numbers, and between 1 and n for positive n |
| MinSwaps.AppendDigit | arrays/min_swaps_to_sort_custom.cpp:11-12 | appending a decimal digit adds that digit to the sum |
| MinSwaps.LessIsStrictOrder | arrays/min_swaps_to_sort_custom.cpp:18 | the comparator (digit sum, then value) is a strict weak order, total on distinct values |
| MinSwaps.LastIndex | arrays/min_swaps_to_sort_custom.cpp:23-35 | the last index below n holding v, or -1 |
| MinSwaps.Record | arrays/min_swaps_to_sort_custom.cpp:24-34 | one round of the first loop sets a's first index and b's second index to i. A new entry gets -1 on its other side. Nothing else changes |
| MinSwaps.IndexStep | arrays/min_swaps_to_sort_custom.cpp:23-37 | after round i the map holds exactly the values seen, each with its last index so far in `nums` and in `nums1` |
| MinSwaps.Index | arrays/min_swaps_to_sort_custom.cpp:21-37 | the map holds exactly the values of `nums` and `nums1`, each with its last index in each |
| MinSwaps.Swap | arrays/min_swaps_to_sort_custom.cpp:43-45 | the three-assignment swap exchanges two slots and keeps the multiset |
| MinSwaps.Start | arrays/min_swaps_to_sort_custom.cpp:21-39 | every entry holds two valid indices. For distinct values, `positions[v]` gives v's index in `nums` and in `nums1` |
| MinSwaps.Settle | arrays/min_swaps_to_sort_custom.cpp:41-49 | one round keeps the invariant. It counts a swap only when positions differ. For distinct values, a counted swap means the slot was out of place |
| MinSwaps.SwapDistinct | arrays/min_swaps_to_sort_custom.cpp:43-48 | for distinct values the swap puts `nums1[i]` into slot i, keeps `positions[x].first` equal to x's index, and extends the sorted prefix |
| MinSwaps.InPlace | arrays/min_swaps_to_sort_custom.cpp:42 | when the positions agree, slot i already holds `nums1[i]` |
| MinSwaps.Place | arrays/min_swaps_to_sort_custom.cpp:39-50 | the second loop keeps `nums` a permutation and counts at most V swaps. For distinct values it ends with `nums == nums1` and every `positions[v].first` v's index. An input that already equals its sorted copy takes no swap |
| MinSwaps.SortedUnique | arrays/min_swaps_to_sort_custom.cpp:7-19 | two orderings of the same distinct values both sorted by the comparator are equal |
| MinSwaps.MinSwaps | arrays/min_swaps_to_sort_custom.cpp:6-52 | `nums` stays a permutation of the input and the count is between 0 and its length. For distinct values `nums` ends sorted by the comparator, and an input already sorted costs no swap |

## Left out

- Console output, the `main` drivers and their example graphs. The graph
  routines return what they would print. The tree searches and `minSwaps`
  print nothing themselves.
- Threads/ and temp/ are not part of this model.
- Fixed-width `int` overflow in `mstWeight` and `dist[u] + weight` is
  not modelled: integers are unbounded. In the program a
  candidate `dist[u] + weight` past `INT_MAX` overflows a signed `int`
  (undefined behaviour, in practice a negative value). That value passes
  the `< dist[v]` test and is stored as a distance. The model compares
  the exact sum, so it never stores a candidate of `IntMax` or more.
  `IntMax` stands only for infinity.
- Dijkstra.ShortestPaths: requires non-negative weights. The program's
  graphs are undirected (`addEdge` adds both arcs). A negative edge that
  `src` can reach is therefore a two-arc negative cycle u→v→u. The
  relaxations then never settle, and they run on until the signed sum
  overflows. A negative edge that `src` cannot reach changes nothing.
  Arcs added one way only would be handled differently. The queue has no
  visited set and re-pushes every improved vertex, so a negative arc
  without a negative cycle still converges to shortest distances. None
  of this is modelled.
- Kruskal.KruskalMST: proves an acyclic spanning forest taken in weight
  order, not that its weight is minimal. The cut-property proof is not
  modelled.
- Prim.PrimMst: proves the tree spans exactly the vertices reachable from
  0 over arcs lighter than `INT_MAX`, each joined by an arc of weight
  `key[v]`. It does not prove minimal total weight. The program relies on
  vertex 0 existing, so the model requires a non-empty graph.
- MinSwaps.MinSwaps: does not prove that the count is the minimum number
  of swaps.
- MinSwaps.MinSwaps: for inputs with repeated values it proves only that
  `nums` stays a permutation and that the count is at most the length.
  Such inputs fall outside the problem's distinct-values setting. There
  the program may swap two equal values: [11, 2, 11] takes two swaps
  where one suffices, and the map's indices no longer track slots.
- Dsu.Unite: when x and y already share a root, `parent` may still change
  through the path compression of the two `find` calls, as in the
  program. What is stated is that every root and every rank is unchanged.
- Articulation.FindArticulationPoints: states the root and non-root
  flagging rules and the `low` equation over the `parent` forest. The
  forest is tied to the graph: tree edges are graph edges from an
  earlier-discovered parent, there are no cross edges, and roots have no
  earlier neighbour. It does not prove that the flagged vertices are
  exactly the cut vertices of the graph, which is the graph-theoretic
  theorem behind these rules.
- Articulation.Dfs: the program sets `parent[v] = u` before calling
  `dfs(v)`. The model passes the parent in and sets it at discovery. The
  state seen by every other step is the same.
- Articulation.Neighbour: "`low` only decreases" is stated per neighbour
  step of a call, not over the whole run.
- CommonAncestor.Lowest: the program compares node pointers. The model
  gives each node an `id` and compares those. The lemmas assume distinct
  ids (`Unique`). The BST lemmas assume ids equal values (`Labelled`).
- The internals of `std::priority_queue`, `std::sort`, `std::stack`,
  `std::queue` and `unordered_map` are not modelled. Each is replaced by
  a value with the same observable behaviour. `MinQueue.Pop` resolves
  ties between equal pairs the way `greater<pair<int,int>>` orders
  them; which of two identical pairs leaves first is unobservable.
- `std::sort` is not stable, and the model's sort yields one particular
  sorted permutation. When Kruskal's input has edges of equal weight, the
  program may examine them in another order and keep other edges. The
  contracts are proved for the model's order only.
