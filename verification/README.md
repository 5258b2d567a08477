# Graph properties and traversals, in Dafny

This project models the core of a small directed-graph library written in
Java: the `Graph` class and its `Edge` value type.

- **The graph.** It holds a vertex set and an edge set. The constructor builds
  an adjacency table from them: one neighbour list per vertex, holding the
  destinations of the edges that leave it.
- **Relation checks.** The graph answers whether its edge relation is
  reflexive, symmetric, transitive, anti-symmetric or an equivalence.
- **Equivalence classes.** It extracts the class of a vertex. A depth-first
  search collects what the vertex reaches. The class is rejected when an edge
  enters it from outside. Otherwise the graph is narrowed to the class and
  re-checked.
- **Roots.** The roots are the vertices with no incoming edge and at least one
  outgoing edge. On an equivalence graph the lowest member of each class is
  added.
- **Traversals.** There are four: iterative breadth-first, iterative
  depth-first, recursive breadth-first and recursive depth-first. Each one
  starts from the roots, lowest first. Each sorts (and for iterative
  depth-first, also reverses) the stored neighbour lists in place as it visits
  them.

How the Java is represented:

- Vertices are integers ordered by `<=`.
- An edge is `datatype Edge(source, destination)`, compared by value.
- The graph is a class with three fields: `vertices: set<int>`,
  `edges: set<Edge>` and `adj: map<int, seq<int>>`. The map stands for the
  Java list of lists indexed through `getIndex`.
- The invariant `Valid()` says that every edge joins two vertices, and that
  `adj` has one list per vertex. It also says that the list of `v` holds, as
  a multiset, exactly the destinations of the edges leaving `v`.

Each method is proved against a specification in `graphspec.dfy`:

- The relation checks are pinned to their counting forms, and lemmas give
  those forms their meaning as relations.
- The class query is pinned to `EquivalenceClass`.
- The root query is pinned to `RootsOf`.
- Each traversal is proved to return exactly one visit list, fixed by the
  vertex and edge sets alone (module `Orders`). The depth-first traversals
  return `DepthOrder`: from each root in ascending order, visit the vertex,
  then recurse into its neighbours in ascending order. The breadth-first
  traversals return `BreadthOrder`: from each root in ascending order, a
  queue search that marks a vertex when it is queued and queues neighbours in
  ascending order. The iterative and recursive versions of each search are
  proved to agree, although the recursive breadth-first step marks a vertex
  only when it takes it off the queue.
- The visit list holds exactly the vertices the roots reach. The depth-first
  traversals never repeat a vertex. The iterative breadth-first traversal
  appends every root even when an earlier search reached it, so in general
  it repeats only roots. On the graph's own roots, which never reach one
  another, it repeats nothing.
- The recursive breadth-first traversal as the source writes it stops early
  (see Findings). It is modelled on its own, with what it does guarantee: no
  repeats, every root, and only reachable vertices.

The traversals work on the adjacency table as a value (module `Traversals`).
The class methods hand them the table and store the table they return, with
the visited lists sorted.

Files:

- `edge.dfy` is the `Edge` datatype.
- `lists.dfy` has the in-place bubble sort, the two-pointer reversal, the
  lowest-value scan and the list vocabulary.
- `graphspec.dfy` has the specification of the graph: the relations,
  reachability, classes and roots.
- `orders.dfy` defines the two visit orders and the lemmas that relate one
  step of each traversal to them.
- `traversal.dfy` has the four traversals on the table, plus the recursive
  breadth-first search as written with its counterexample.
- `graph.dfy` has the table builder, the scans used by the class query, and
  the `Graph` class.

## Model

| member | source | states |
|---|---|---|
| Edges.GettersReturnConstructorArguments | src/main/java/nz/ac/auckland/se281/datastructures/Edge.java:16-35 | For any pair, a self-loop included, `GetSource` and `GetDest` return exactly what the constructor was given. |
| Edges.EdgeIsItsEnds | src/main/java/nz/ac/auckland/se281/datastructures/Edge.java:12-35 | An edge is nothing but its two ends: rebuilding it from its getters gives the same edge, and two edges are equal exactly when both getters agree. |
| Graphs.BuildAdjacency | src/main/java/nz/ac/auckland/se281/datastructures/Graph.java:29-42 | The table built vertex by vertex and edge by edge has one list per vertex. The list of `v` holds, each once, exactly the destinations of the edges leaving `v`. |
| Graphs.Graph.constructor | src/main/java/nz/ac/auckland/se281/datastructures/Graph.java:26-44 | The new graph keeps the given vertices and edges, and its table is faithful to them. |
| GraphSpec.AdjListsHaveNoDuplicates | src/main/java/nz/ac/auckland/se281/datastructures/Graph.java:36-42 | No neighbour list of a faithful table repeats a vertex. |
| Graphs.Graph.IsReflexive | src/main/java/nz/ac/auckland/se281/datastructures/Graph.java:95-116 | The answer is whether the number of self-loops equals the number of vertices, which holds exactly when every vertex has a self-loop. |
| GraphSpec.ReflexiveCountMeaning | src/main/java/nz/ac/auckland/se281/datastructures/Graph.java:98-114 | When edges join vertices and are unique by value, the self-loop count equals the vertex count iff every vertex has its self-loop. |
| Graphs.Graph.IsSymmetric | src/main/java/nz/ac/auckland/se281/datastructures/Graph.java:119-138 | The answer is whether the number of ordered pairs of mutually reverse edges equals the number of edges, which holds exactly when every edge's reverse is present. |
| GraphSpec.SymmetricCountMeaning | src/main/java/nz/ac/auckland/se281/datastructures/Graph.java:123-137 | Each edge has at most one reverse, so the pair count equals the edge count iff every edge has its reverse. |
| Graphs.Graph.IsTransitive | src/main/java/nz/ac/auckland/se281/datastructures/Graph.java:141-164 | The answer is false exactly when some u->v and v->w exist while w is not a direct successor of u. |
| GraphSpec.TransitiveAtEveryVertex | src/main/java/nz/ac/auckland/se281/datastructures/Graph.java:144-160 | Checking the one-hop condition at every vertex decides transitivity of the whole relation. |
| Graphs.Graph.IsAntiSymmetric | src/main/java/nz/ac/auckland/se281/datastructures/Graph.java:167-187 | The answer is false exactly when two distinct vertices point at each other. |
| Graphs.Graph.IsEquivalence | src/main/java/nz/ac/auckland/se281/datastructures/Graph.java:190-200 | The answer is the conjunction of the three counting checks, and it holds exactly when the relation is reflexive, symmetric and transitive. |
| GraphSpec.EquivalenceMeaning | src/main/java/nz/ac/auckland/se281/datastructures/Graph.java:193-199 | On a graph whose edges join vertices, the equivalence check holds iff the relation is reflexive, symmetric and transitive. |
| Graphs.Graph.Dfs | src/main/java/nz/ac/auckland/se281/datastructures/Graph.java:508-518 | The search keeps what was marked and adds the start. Every vertex it adds is reachable from the start and has all its successors marked. |
| Graphs.EnteredFromOutside | src/main/java/nz/ac/auckland/se281/datastructures/Graph.java:229-238 | The scan answers true exactly when some edge enters the set from a vertex outside it. |
| Graphs.EdgesTouching | src/main/java/nz/ac/auckland/se281/datastructures/Graph.java:243-250 | The collected edges are exactly the edges with at least one end in the set. |
| Graphs.Graph.GetEquivalenceClass | src/main/java/nz/ac/auckland/se281/datastructures/Graph.java:209-282 | The result is what `vertex` reaches, when no edge enters that set from outside and its induced subgraph is an equivalence, and empty otherwise. The graph is restored, except when the narrowed check fails: then it stays narrowed to the class and its touching edges. |
| GraphSpec.EquivalenceClassFacts | src/main/java/nz/ac/auckland/se281/datastructures/Graph.java:224-280 | A non-empty class holds its vertex and is closed under successors and predecessors. Its touching edges have both ends inside it, and they form a reflexive, symmetric and transitive relation. |
| GraphSpec.EquivalenceClassIdempotent | src/main/java/nz/ac/auckland/se281/datastructures/Graph.java:209-282 | Every member of a vertex's class has that same class. |
| GraphSpec.EquivalenceGraphClass | src/main/java/nz/ac/auckland/se281/datastructures/Graph.java:79-88 | On an equivalence graph no class is rejected: the class of `v` is exactly its set of successors and holds `v`. |
| Graphs.ZeroInDegreeRootsOf | src/main/java/nz/ac/auckland/se281/datastructures/Graph.java:50-70 | The result holds exactly the vertices that no edge enters and at least one edge leaves. |
| Graphs.Graph.GetRoots | src/main/java/nz/ac/auckland/se281/datastructures/Graph.java:47-92 | The roots are the zero-in-degree roots, plus on an equivalence graph the lowest member of each non-empty class. The graph comes back unchanged. |
| Graphs.Graph.ClassLowestValues | src/main/java/nz/ac/auckland/se281/datastructures/Graph.java:79-88 | On an equivalence graph, asking each vertex for its class leaves the graph unchanged and collects the lowest member of every non-empty class. |
| GraphSpec.RootsOfEquivalence | src/main/java/nz/ac/auckland/se281/datastructures/Graph.java:47-92 | On an equivalence graph the roots are exactly the lowest successors of the vertices, one per class. |
| GraphSpec.NoZeroInDegreeWhenReflexive | src/main/java/nz/ac/auckland/se281/datastructures/Graph.java:53-56 | In a reflexive graph every vertex has an incoming self-loop, so there is no zero-in-degree root. |
| GraphSpec.RootsAreVertices | src/main/java/nz/ac/auckland/se281/datastructures/Graph.java:47-92 | Every root is a vertex. |
| Lists.SortList | src/main/java/nz/ac/auckland/se281/datastructures/Graph.java:555-574 | The bubble sort leaves the array ascending and a permutation of what it held. |
| Lists.BubblePass | src/main/java/nz/ac/auckland/se281/datastructures/Graph.java:563-571 | One inner pass keeps the multiset and leaves everything past `last` alone. It carries the largest of `a[0..last]` to `a[last]`, and it keeps any bound on that prefix. |
| Lists.ReverseList | src/main/java/nz/ac/auckland/se281/datastructures/Graph.java:577-595 | The array ends as the reverse of what it held. |
| Lists.ReversedAscendingIsDescending | src/main/java/nz/ac/auckland/se281/datastructures/Graph.java:362-363 | Sorting and then reversing gives a descending list with the same members. |
| Lists.GetLowestValue | src/main/java/nz/ac/auckland/se281/datastructures/Graph.java:526-539 | The result is a member of the non-empty set and no larger than any member. |
| Lists.AscendingUnique | src/main/java/nz/ac/auckland/se281/datastructures/Graph.java:555-574 | Two ascending lists with the same multiset are equal, so an in-place sort's result depends only on the list's members. |
| Lists.SortIsTheAscendingPermutation | src/main/java/nz/ac/auckland/se281/datastructures/Graph.java:555-574 | Any ascending permutation of a list is its insertion sort `Sort`. |
| Lists.Unvisited | src/main/java/nz/ac/auckland/se281/datastructures/Graph.java:316-323 | What a scan that marks as it appends adds: exactly the list members not yet visited, none twice. |
| Lists.Outside | src/main/java/nz/ac/auckland/se281/datastructures/Graph.java:365-369 | What a scan that does not mark appends: exactly the list members not visited, never more than the list holds. |
| Traversals.SortNeighbours | src/main/java/nz/ac/auckland/se281/datastructures/Graph.java:313-314 | The neighbour list of `u` is replaced in the table by an ascending permutation of itself, which is exactly `Neighbours(E, u)`. The table stays faithful and no other list changes. |
| Traversals.SortNeighboursDescending | src/main/java/nz/ac/auckland/se281/datastructures/Graph.java:361-363 | The neighbour list of `u` is replaced by a descending permutation of itself, which is exactly the reverse of `Neighbours(E, u)`. The table stays faithful and no other list changes. |
| Traversals.QueueUnvisited | src/main/java/nz/ac/auckland/se281/datastructures/Graph.java:316-323 | The queue and the visit list each grow by the unvisited members of the list, in list order, none twice. |
| Traversals.VisitNext | src/main/java/nz/ac/auckland/se281/datastructures/Graph.java:311-323 | Taking the head of the queue, sorting its list and queueing its unvisited neighbours keeps the search invariant and leaves the `BreadthRun` still to come from the queue unchanged. Either the visit list gains a vertex, or it stays the same and the queue shrinks. |
| Traversals.BreadthFrom | src/main/java/nz/ac/auckland/se281/datastructures/Graph.java:303-325 | One search appends `start` even when already visited, then only vertices new to the list, and ends as exactly `BreadthRun` from `[start]`. Everything it adds is reachable from the starts, and it leaves the list closed under successors. |
| Traversals.LaunchNext | src/main/java/nz/ac/auckland/se281/datastructures/Graph.java:300-303 | Taking the lowest remaining root keeps the starts strictly ascending, below every remaining root, and reaching that root. |
| Traversals.LaunchedAll | src/main/java/nz/ac/auckland/se281/datastructures/Graph.java:300-331 | Once no root is left, every root was a start, and a visit list closed under successors holds exactly what the roots reach. |
| Traversals.BreadthRound | src/main/java/nz/ac/auckland/se281/datastructures/Graph.java:300-329 | One outer round keeps the traversal invariant, runs the search from the lowest remaining root and removes that root. When no root reaches another, a list without repeats stays without repeats. |
| Traversals.IterativeBreadth | src/main/java/nz/ac/auckland/se281/datastructures/Graph.java:292-333 | The visit list is `BreadthOrder` of the roots. The starts are the roots in strictly ascending order. The visited vertices are exactly what the roots reach; only roots are repeated, and nothing is when no root reaches another. Visited lists are sorted, and the others are untouched. |
| Graphs.Graph.IterativeBreadthFirstSearch | src/main/java/nz/ac/auckland/se281/datastructures/Graph.java:292-333 | The same, on the graph's own roots: the visit list is `BreadthOrder` of `RootsOf` and repeats no vertex. The vertex and edge sets are unchanged and the table stays faithful. |
| Traversals.PushOutside | src/main/java/nz/ac/auckland/se281/datastructures/Graph.java:365-369 | The stack grows by the unvisited members of the list, in list order. |
| Traversals.PopNext | src/main/java/nz/ac/auckland/se281/datastructures/Graph.java:358-369 | One pop keeps the depth-first invariant and leaves the `DepthVisitAll` still to come from the stack unchanged. A popped vertex that was already visited is dropped. A new one is visited, its list sorted descending, and its unvisited neighbours pushed. |
| Traversals.DepthFrom | src/main/java/nz/ac/auckland/se281/datastructures/Graph.java:353-371 | One search returns exactly `DepthVisit` from `start`. It extends the visit list without repeats, adds only reachable vertices, and ends closed under successors. |
| Traversals.DepthRound | src/main/java/nz/ac/auckland/se281/datastructures/Graph.java:352-373 | One outer round keeps the traversal invariant, adds the depth-first visit from the lowest remaining root, and removes that root. |
| Traversals.IterativeDepth | src/main/java/nz/ac/auckland/se281/datastructures/Graph.java:343-377 | The visit list is `DepthOrder` of the roots. The starts are the roots in ascending order. The visited vertices are exactly what they reach, none twice. Visited lists are descending, and the others are untouched. |
| Graphs.Graph.IterativeDepthFirstSearch | src/main/java/nz/ac/auckland/se281/datastructures/Graph.java:343-377 | The same, on the graph's own roots, with the table still faithful. |
| Traversals.DepthHelp | src/main/java/nz/ac/auckland/se281/datastructures/Graph.java:468-484 | The recursive visit of `u` returns exactly `DepthVisit` from `u`. It extends the list without repeats, adds only reachable vertices, and leaves every vertex it adds with all its successors visited. Lists of vertices visited before are untouched. |
| Traversals.DepthChild | src/main/java/nz/ac/auckland/se281/datastructures/Graph.java:481-483 | The recursion into the next neighbour adds exactly its `DepthVisit` and keeps what the visit of `u` has done so far. |
| Traversals.RecursiveDepth | src/main/java/nz/ac/auckland/se281/datastructures/Graph.java:445-460 | The visit list is `DepthOrder` of the roots, the same as the iterative depth-first traversal's. The starts are the roots in ascending order. The visited vertices are exactly what they reach, none twice, with sorted lists. |
| Graphs.Graph.RecursiveDepthFirstSearch | src/main/java/nz/ac/auckland/se281/datastructures/Graph.java:445-460 | The same, on the graph's own roots. |
| Traversals.BreadthStepAsWritten | src/main/java/nz/ac/auckland/se281/datastructures/Graph.java:410-435 | The recursive breadth-first step as written returns the visit list and queue of `BreadthHelpAsWritten`. Lists of unvisited vertices stay as they were. |
| Traversals.RecursiveBreadthAsWrittenRun | src/main/java/nz/ac/auckland/se281/datastructures/Graph.java:387-402 | The as-written traversal, with one queue shared by all roots, returns `RecursiveBreadthAsWritten` of the roots. That list repeats no vertex, holds every root and only vertices the roots reach. |
| Traversals.ExampleRoots | src/main/java/nz/ac/auckland/se281/datastructures/Graph.java:47-92 | In the graph 1->2, 1->3, 2->3, 2->4 the only root is 1, and 4 is reachable from it. |
| Traversals.AsWrittenMissesReachableVertex | src/main/java/nz/ac/auckland/se281/datastructures/Graph.java:410-435 | On that graph, with any faithful table, the as-written traversal yields [1, 2, 3] and misses the reachable vertex 4. |
| Traversals.VisitQueued | src/main/java/nz/ac/auckland/se281/datastructures/Graph.java:415-428 | Handling `u` skips it when visited; otherwise it visits `u`, sorts its list and queues its unvisited neighbours. Either way the breadth-first run from the unvisited members of the queue is unchanged. Every successor of a visited vertex is still visited or queued. |
| Traversals.BreadthHelp | src/main/java/nz/ac/auckland/se281/datastructures/Graph.java:410-435 | The corrected step drains the queue and ends exactly where `BreadthRun` from the unvisited members of `[u] + queue` ends. It extends the visit list without repeats, visits `u`, adds only reachable vertices, and leaves the list closed under successors. |
| Traversals.BreadthFromRoot | src/main/java/nz/ac/auckland/se281/datastructures/Graph.java:395-397 | One corrected search from a root extends the visit list without repeats and visits the root. From a root not yet visited it adds exactly `BreadthRun` from that root. It adds only reachable vertices, leaves the list closed under successors and the visited lists ascending, and touches no other list. |
| Traversals.RecursiveBreadth | src/main/java/nz/ac/auckland/se281/datastructures/Graph.java:387-402 | With the corrected step, the starts are the roots in ascending order. The visited vertices are exactly what they reach, none twice, with sorted lists. When no root reaches another, the visit list is `BreadthOrder`, the iterative traversal's list. |
| Graphs.Graph.RecursiveBreadthFirstSearch | src/main/java/nz/ac/auckland/se281/datastructures/Graph.java:387-402 | The corrected recursive breadth-first traversal on the graph's own roots returns `BreadthOrder` of `RootsOf`, the same list as the iterative one, with no repeats. |
| Orders.Ascend | src/main/java/nz/ac/auckland/se281/datastructures/Graph.java:526-539 | The listing of a set is strictly ascending and holds exactly its members: the order in which repeated lowest-value picks take them. |
| Orders.AscendCounts | src/main/java/nz/ac/auckland/se281/datastructures/Graph.java:526-539 | Each member of the set appears exactly once in its ascending listing. |
| Orders.Neighbours | src/main/java/nz/ac/auckland/se281/datastructures/Graph.java:36-42 | The neighbours of `u` in ascending order: strictly ascending, exactly the destinations of the edges leaving `u`, each once. |
| Orders.SortedIsNeighbours | src/main/java/nz/ac/auckland/se281/datastructures/Graph.java:555-574 | An ascending permutation of a faithful neighbour list is `Neighbours(E, u)`: the sort leaves no choice of order. |
| Orders.DepthVisit | src/main/java/nz/ac/auckland/se281/datastructures/Graph.java:468-484 | The depth-first visit from `u` only extends the list it is given. |
| Orders.DepthFromLowest | src/main/java/nz/ac/auckland/se281/datastructures/Graph.java:453-456 | Visiting from the roots in ascending order is the visit from the lowest root followed by the visits from the others. |
| Orders.DepthVisitAllOutside | src/main/java/nz/ac/auckland/se281/datastructures/Graph.java:365-369 | Dropping already-visited members from a list of starts does not change the depth-first visits from it. |
| Orders.DepthPop | src/main/java/nz/ac/auckland/se281/datastructures/Graph.java:357-371 | Popping the top of the stack, visiting it and pushing its unvisited neighbours in descending order leaves the depth-first visits still to come unchanged; popping a visited vertex does too. |
| Orders.BreadthRun | src/main/java/nz/ac/auckland/se281/datastructures/Graph.java:309-325 | The breadth-first run that marks on queueing only extends the list it is given. |
| Orders.BreadthFromLowest | src/main/java/nz/ac/auckland/se281/datastructures/Graph.java:300-329 | Searching from the roots in ascending order is the search from the lowest root followed by the searches from the others. |
| Orders.BreadthVisitMarked | src/main/java/nz/ac/auckland/se281/datastructures/Graph.java:419-433 | Marking a vertex when it is taken off the queue, and queueing its neighbours not yet marked, ends where the search that marks on queueing ends. |
| Orders.BreadthTakeStep | src/main/java/nz/ac/auckland/se281/datastructures/Graph.java:415-433 | One step of the recursive breadth-first search, skip or visit, leaves the marking-on-queueing run unchanged and keeps the queue inside the vertex set. |
| GraphSpec.RootsSeparated | src/main/java/nz/ac/auckland/se281/datastructures/Graph.java:47-92 | No root of the graph reaches another root: a zero-in-degree root has no edge coming in, and the lowest members of two different classes do not reach each other. |
| GraphSpec.SeparatedNotReached | src/main/java/nz/ac/auckland/se281/datastructures/Graph.java:300-329 | When no root reaches another, a root not yet launched from is not reached by the roots already launched from. |
| Traversals.AsWrittenStepFacts | src/main/java/nz/ac/auckland/se281/datastructures/Graph.java:410-435 | The as-written step only extends the visit list, repeats no vertex, visits `u`, and adds and queues only vertices the roots reach. |
| Traversals.AsWrittenRunFacts | src/main/java/nz/ac/auckland/se281/datastructures/Graph.java:387-402 | The as-written traversal's list repeats no vertex, holds every root and everything visited before, and holds only vertices the roots reach. |

## Left out

- The debug print of each neighbour list in the iterative depth-first search
  (Graph.java line 364) is output only and is not modelled.
- The generic vertex type and its `Comparator.naturalOrder` comparison are
  replaced by integers and `<=`.
- `getIndex` turns a vertex into a list index through the iteration order of
  a hash set. The table is a map keyed by vertex instead, so there is no index
  to compute.
- Iteration over hash sets is modelled as picking any remaining member. Every
  contract holds whatever order is picked.
- Vertices are compared by value everywhere. The source compares them by
  reference at Graph.java lines 38, 178 and 264, which agrees with value
  comparison only for interned or identical objects.
- `Edge` has no `equals`, so a Java `HashSet` of edges can hold two equal
  pairs. Here edges form a set of values, so equal pairs are one edge. The
  self-loop and reverse-pair counts are only as meaningful as that.
- The `null` tests in the recursive helpers (Graph.java lines 415 and 472) are
  left out. A vertex is never null here.
- Lists.GetLowestValue: requires a non-empty set. On an empty set the source
  returns `null`, and no caller passes one.
- Graphs.Graph.constructor: requires every edge end to be a vertex. The source
  accepts any edge set, but an edge with an end outside the vertex set makes
  later table lookups fail (`getIndex` returns -1).
- Graphs.Graph.GetEquivalenceClass: requires `vertex` to be a vertex of the
  graph. For any other value the source indexes its `visited` array at -1.
- Neighbour lists are values written back into the table, not shared mutable
  objects. The sorts work on a fresh array copy of the list.
- The `boolean[] visited` array and the `equivClass` set of `dfs` always hold
  the same vertices, so they are one set here.
- The traversal helpers are split into smaller steps: one round per root, one
  pop or poll per step. Each step keeps the code's order of operations.
- Graphs.Graph.RecursiveBreadthFirstSearch: runs the corrected step, which
  drains the queue. The step as the source writes it is
  `Traversals.RecursiveBreadthAsWrittenRun`; see Findings.
- Traversals.RecursiveBreadth: states its visit order (`BreadthOrder`) only
  when no root reaches another. Otherwise a later root that an earlier search
  already visited is skipped, while `BreadthOrder` appends it again, so the
  two lists differ. The graph's own roots never reach one another, so
  `Graphs.Graph.RecursiveBreadthFirstSearch` states the order outright.
- The recursive searches (Graph.java lines 410-435 and 468-484) recurse once
  per visited vertex, so a deep graph can overflow the Java call stack. The
  model has no stack bound.

## Findings

| source | as written | input that shows it | evidently intended | confidence | as-written member | corrected member |
|---|---|---|---|---|---|---|
| src/main/java/nz/ac/auckland/se281/datastructures/Graph.java:415-417 | `recursiveBreadthHelp` returns as soon as it polls a vertex that is already visited. The rest of the queue is left for the next root, or dropped when no root is left. | Vertices {1, 2, 3, 4}, edges 1->2, 1->3, 2->3, 2->4. The only root is 1. The step visits 1 and queues 2, 3. It visits 2 and queues 3, 4. It visits 3, polls 3 again, and returns. The result is [1, 2, 3], although 4 is reachable from 1. | Skip a visited vertex and keep polling the queue until it is empty, so every vertex reachable from the roots is visited once. | not executed | Traversals.AsWrittenMissesReachableVertex | Traversals.RecursiveBreadth |
