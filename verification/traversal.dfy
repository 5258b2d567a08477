/**
  The four traversals of the graph, worked on the adjacency table as a value:
  each takes the table, sorts the neighbour lists it visits, and hands the
  table back with those lists sorted.  The graph stores the returned table.
*/
module Traversals {
  import opened Edges
  import opened Lists
  import opened GraphSpec
  import opened Orders

  /** A well-formed graph and a faithful adjacency table for it. */
  ghost predicate Table(V: set<int>, E: set<Edge>, adj: map<int, seq<int>>)
  {
    WellFormed(V, E) && AdjFaithful(V, E, adj)
  }

  /** Sorts the neighbour list of u in place, ascending; the sorted list stays in the table. */
  method SortNeighbours(ghost V: set<int>, ghost E: set<Edge>, adj: map<int, seq<int>>, u: int)
    returns (newAdj: map<int, seq<int>>, list: seq<int>)
    requires Table(V, E, adj) && u in V
    ensures Table(V, E, newAdj) && newAdj == adj[u := list]
    ensures Ascending(list) && multiset(list) == multiset(adj[u])
    ensures list == Neighbours(E, u)
  {
    var s := adj[u];
    var a := new int[|s|](i requires 0 <= i < |s| => s[i]);
    assert a[..] == s;
    SortList(a);
    list := a[..];
    newAdj := adj[u := list];
    SortedIsNeighbours(V, E, adj, u, list);
    TableUpdate(V, E, adj, u, list);
  }

  /**
    Sorts the neighbour list of u in place and then reverses it, so that it
    ends descending; the reversed list stays in the table.
  */
  method SortNeighboursDescending(ghost V: set<int>, ghost E: set<Edge>, adj: map<int, seq<int>>, u: int)
    returns (newAdj: map<int, seq<int>>, list: seq<int>)
    requires Table(V, E, adj) && u in V
    ensures Table(V, E, newAdj) && newAdj == adj[u := list]
    ensures Descending(list) && multiset(list) == multiset(adj[u])
    ensures list == Reversed(Neighbours(E, u))
  {
    var s := adj[u];
    var a := new int[|s|](i requires 0 <= i < |s| => s[i]);
    assert a[..] == s;
    SortList(a);
    ghost var sorted := a[..];
    ReverseList(a);
    list := a[..];
    assert list == Reversed(sorted);
    ReversedAscendingIsDescending(sorted);
    SortedIsNeighbours(V, E, adj, u, sorted);
    newAdj := adj[u := list];
    TableUpdate(V, E, adj, u, list);
  }

  /** Replacing a list of the table by a permutation of it keeps the table faithful. */
  lemma TableUpdate(V: set<int>, E: set<Edge>, adj: map<int, seq<int>>, u: int, list: seq<int>)
    requires Table(V, E, adj) && u in V && multiset(list) == multiset(adj[u])
    ensures Table(V, E, adj[u := list])
  {
  }

  // ---------------------------------------------------------------------
  // Iterative breadth-first search

  /**
    The scan of a sorted neighbour list in the breadth-first search: each
    neighbour not yet visited is queued and marked visited on the spot.
  */
  method QueueUnvisited(list: seq<int>, queue: seq<int>, visited: seq<int>) returns (newQueue: seq<int>, newVisited: seq<int>)
    ensures newQueue == queue + Unvisited(list, visited)
    ensures newVisited == visited + Unvisited(list, visited)
  {
    newQueue, newVisited := queue, visited;
    var i := 0;
    while i < |list|
      invariant 0 <= i <= |list|
      invariant newQueue == queue + Unvisited(list[..i], visited)
      invariant newVisited == visited + Unvisited(list[..i], visited)
    {
      assert list[..i + 1][..i] == list[..i];
      if list[i] !in newVisited {
        newQueue := newQueue + [list[i]];
        newVisited := newVisited + [list[i]];
      }
      i := i + 1;
    }
    assert list[..|list|] == list;
  }

  /**
    What holds between rounds of one breadth-first search from `start` that
    continues the visit list `visited` of the searches before it: the list
    `result` extends `visited` by `start` and then by vertices new to it,
    everything in it is reachable from the starts `L`, every visited vertex
    off the queue has all its successors visited and its neighbour list
    sorted, and the lists of unvisited vertices are still those of `A`.
  */
  ghost predicate Frontier(V: set<int>, E: set<Edge>, adj: map<int, seq<int>>, A: map<int, seq<int>>,
                           visited: seq<int>, start: int, L: set<int>, queue: seq<int>, result: seq<int>)
  {
    && Table(V, E, adj) && A.Keys == V
    && (forall x :: x in queue ==> x in result)
    && |result| > |visited| && result[..|visited|] == visited && result[|visited|] == start
    && FreshAfter(result, |visited|)
    && Elems(result) <= ReachFromAll(V, E, L)
    && (forall e :: e in E && e.source in result && e.source !in queue ==> e.destination in result)
    && (forall v :: v in result && v !in queue ==> v in V && Ascending(adj[v]))
    && (forall v :: v in V && v !in result ==> adj[v] == A[v])
  }

  /**
    One round of the breadth-first search: the vertex at the head of the
    queue is taken off, its neighbour list is sorted in place, and each
    neighbour not yet visited is queued and marked visited.
  */
  method VisitNext(ghost V: set<int>, ghost E: set<Edge>, adj: map<int, seq<int>>, ghost A: map<int, seq<int>>,
                   ghost visited: seq<int>, ghost start: int, ghost L: set<int>, queue: seq<int>, result: seq<int>)
    returns (newAdj: map<int, seq<int>>, newQueue: seq<int>, newResult: seq<int>)
    requires Frontier(V, E, adj, A, visited, start, L, queue, result) && queue != []
    ensures Frontier(V, E, newAdj, A, visited, start, L, newQueue, newResult)
    ensures Elems(result) <= Elems(newResult) <= V
    ensures V - Elems(newResult) < V - Elems(result) || (Elems(newResult) == Elems(result) && |newQueue| < |queue|)
    ensures BreadthRun(V, E, newQueue, newResult) == BreadthRun(V, E, queue, result)
  {
    var tempVert := queue[0];
    newQueue := queue[1..];
    assert tempVert in Elems(result);
    var tempAdj;
    newAdj, tempAdj := SortNeighbours(V, E, adj, tempVert);
    ghost var added := Unvisited(tempAdj, result);
    newQueue, newResult := QueueUnvisited(tempAdj, newQueue, result);
    FrontierStep(V, E, adj, newAdj, A, visited, start, L, queue, result, tempAdj);
    if added != [] {
      Progress(V, Elems(result), Elems(newResult), added[0]);
    } else {
      assert newResult == result;
    }
  }

  /**
    Taking the head of the queue off, with its list sorted in place, and
    queueing and marking its neighbours not yet visited keeps the frontier.
  */
  lemma FrontierStep(V: set<int>, E: set<Edge>, adj: map<int, seq<int>>, newAdj: map<int, seq<int>>, A: map<int, seq<int>>,
                     visited: seq<int>, start: int, L: set<int>, queue: seq<int>, result: seq<int>, list: seq<int>)
    requires Frontier(V, E, adj, A, visited, start, L, queue, result) && queue != []
    requires Table(V, E, newAdj) && newAdj == adj[queue[0] := list] && Ascending(list)
    ensures var added := Unvisited(list, result);
      && Frontier(V, E, newAdj, A, visited, start, L, queue[1..] + added, result + added)
      && Elems(result + added) <= V
  {
    var u := queue[0];
    var added := Unvisited(list, result);
    var newResult := result + added;
    assert u in result;
    forall w | w in list ensures w in V && w in ReachFromAll(V, E, L) {
      AdjMember(V, E, newAdj, u, w);
      ReachFromAllStep(V, E, L, u, w);
    }
    AppendFresh(result, added, |visited|);
    PrefixKept(result, added, |visited|);
    forall e | e in E && e.source == u ensures e.destination in newResult {
      AdjMember(V, E, newAdj, u, e.destination);
      assert e == Edge(u, e.destination);
    }
  }

  /** Gaining a vertex shrinks what is left of V. */
  lemma Progress(V: set<int>, before: set<int>, after: set<int>, x: int)
    requires before <= after <= V && x in after && x !in before
    ensures V - after < V - before
  {
    assert x in V - before && x !in V - after;
  }

  /**
    One breadth-first search, from `start`, continuing the visit list
    `visited` of the searches before it.  `start` is appended even when an
    earlier search reached it.  `L` is the set of starts so far.
  */
  method BreadthFrom(ghost V: set<int>, ghost E: set<Edge>, adj: map<int, seq<int>>,
                     start: int, visited: seq<int>, ghost L: set<int>)
    returns (newAdj: map<int, seq<int>>, result: seq<int>)
    requires Table(V, E, adj) && start in L && L <= V
    requires Elems(visited) <= ReachFromAll(V, E, L)
    requires ClosedUnderSuccessors(E, Elems(visited))
    requires forall v :: v in visited ==> v in V && Ascending(adj[v])
    ensures Table(V, E, newAdj)
    ensures |result| > |visited| && result[..|visited|] == visited && result[|visited|] == start
    ensures FreshAfter(result, |visited|)
    ensures Elems(visited) + {start} <= Elems(result)
    ensures Elems(result) <= ReachFromAll(V, E, L)
    ensures ClosedUnderSuccessors(E, Elems(result))
    ensures forall v :: v in result ==> v in V && Ascending(newAdj[v])
    ensures forall v :: v in V && v !in result ==> newAdj[v] == adj[v]
    ensures result == BreadthRun(V, E, [start], visited + [start])
  {
    ReachFromAllGrow(V, E, L - {start}, start);
    assert L - {start} + {start} == L;
    var queue := [start];
    result := visited + [start];
    newAdj := adj;
    assert Elems(result) == Elems(visited) + {start};
    while queue != []
      invariant Frontier(V, E, newAdj, adj, visited, start, L, queue, result)
      invariant Elems(result) <= V
      invariant BreadthRun(V, E, queue, result) == BreadthRun(V, E, [start], visited + [start])
      decreases V - Elems(result), |queue|
    {
      newAdj, queue, result := VisitNext(V, E, newAdj, adj, visited, start, L, queue, result);
    }
    assert BreadthRun(V, E, [], result) == result;
  }

  /**
    What holds between the searches of a traversal, whatever its order: the
    searches so far started from the roots in `launches`, in ascending
    order, and every root still in `roots` is above them; the visit list
    holds those roots and only what they reach, and is closed under
    successors.
  */
  ghost predicate Launched(V: set<int>, E: set<Edge>, R: set<int>, roots: set<int>, launches: seq<int>, visited: seq<int>)
  {
    && R <= V && Elems(launches) <= R && roots == R - Elems(launches)
    && StrictlyAscending(launches)
    && (forall i, r :: 0 <= i < |launches| && r in roots ==> launches[i] < r)
    && Elems(visited) <= ReachFromAll(V, E, Elems(launches))
    && Elems(launches) <= Elems(visited)
    && ClosedUnderSuccessors(E, Elems(visited))
  }

  /** Once no root is left, every root was a start and the visit list holds exactly what the roots reach. */
  lemma LaunchedAll(V: set<int>, E: set<Edge>, R: set<int>, launches: seq<int>, visited: seq<int>)
    requires Launched(V, E, R, {}, launches, visited)
    ensures Elems(launches) == R
    ensures Elems(visited) == ReachFromAll(V, E, R)
  {
    NothingLeft(R, Elems(launches));
    ClosedContainsReach(V, E, Elems(visited), R);
  }

  /**
    Starting from the lowest remaining root: the starts so far with it still
    reach all they reached, and reach it.
  */
  lemma LaunchNext(V: set<int>, E: set<Edge>, R: set<int>, roots: set<int>, launches: seq<int>, visited: seq<int>, start: int)
    requires Launched(V, E, R, roots, launches, visited)
    requires start in roots && forall r :: r in roots ==> start <= r
    ensures StrictlyAscending(launches + [start])
    ensures forall i, r :: 0 <= i < |launches + [start]| && r in roots - {start} ==> (launches + [start])[i] < r
    ensures Elems(launches + [start]) == Elems(launches) + {start}
    ensures Elems(launches + [start]) <= R && roots - {start} == R - Elems(launches + [start])
    ensures start in ReachFromAll(V, E, Elems(launches + [start]))
    ensures Elems(visited) <= ReachFromAll(V, E, Elems(launches + [start]))
  {
    LaunchLowest(launches, roots, start);
    ReachFromAllGrow(V, E, Elems(launches), start);
  }

  /**
    After a search from the lowest remaining root that kept what was visited,
    added only what the starts reach, and left the list closed, the root
    bookkeeping holds again with that root dropped.
  */
  lemma LaunchedStep(V: set<int>, E: set<Edge>, R: set<int>, roots: set<int>, launches: seq<int>,
                     visited: seq<int>, start: int, newVisited: seq<int>)
    requires Launched(V, E, R, roots, launches, visited)
    requires start in roots && forall r :: r in roots ==> start <= r
    requires Elems(visited) + {start} <= Elems(newVisited)
    requires Elems(newVisited) <= ReachFromAll(V, E, Elems(launches + [start]))
    requires ClosedUnderSuccessors(E, Elems(newVisited))
    ensures Launched(V, E, R, roots - {start}, launches + [start], newVisited)
  {
    LaunchLowest(launches, roots, start);
  }

  /**
    The breadth-first traversal between searches: the root bookkeeping of
    `Launched`, repeats only of roots, sorted lists for the visited vertices
    and the lists of `A` for the others.
  */
  ghost predicate Searched(V: set<int>, E: set<Edge>, adj: map<int, seq<int>>, A: map<int, seq<int>>,
                           R: set<int>, roots: set<int>, launches: seq<int>, visited: seq<int>)
  {
    && Table(V, E, adj) && A.Keys == V
    && Launched(V, E, R, roots, launches, visited)
    && DuplicatesOnlyOf(visited, R)
    && (forall v :: v in visited ==> v in V && Ascending(adj[v]))
    && (forall v :: v in V && v !in visited ==> adj[v] == A[v])
  }

  /** One search of the breadth-first traversal, from the lowest root not yet searched from. */
  method BreadthRound(ghost V: set<int>, ghost E: set<Edge>, adj: map<int, seq<int>>, ghost A: map<int, seq<int>>,
                      ghost R: set<int>, roots: set<int>, ghost launches: seq<int>, visited: seq<int>)
    returns (newAdj: map<int, seq<int>>, newRoots: set<int>, ghost newLaunches: seq<int>, newVisited: seq<int>)
    requires Searched(V, E, adj, A, R, roots, launches, visited) && roots != {}
    ensures Searched(V, E, newAdj, A, R, newRoots, newLaunches, newVisited)
    ensures newRoots == roots - {Lowest(roots)}
    ensures newVisited == BreadthRun(V, E, [Lowest(roots)], visited + [Lowest(roots)])
    ensures Separated(E, R) && NoDuplicates(visited) ==> NoDuplicates(newVisited)
  {
    var start := GetLowestValue(roots);
    assert Lowest(roots) == start;
    LaunchNext(V, E, R, roots, launches, visited, start);
    newLaunches := launches + [start];
    newAdj, newVisited := BreadthFrom(V, E, adj, start, visited, Elems(newLaunches));
    DuplicatesAfterRestart(visited, newVisited, start, R);
    LaunchedStep(V, E, R, roots, launches, visited, start, newVisited);
    newRoots := roots - {start};
    if Separated(E, R) && NoDuplicates(visited) {
      SeparatedNotReached(V, E, R, Elems(launches), start);
      NoDuplicatesAfterFresh(visited, newVisited);
    }
  }

  /**
    The breadth-first traversal: while roots remain, a breadth-first search
    from the lowest of them, which is then dropped.
  */
  method IterativeBreadth(V: set<int>, E: set<Edge>, adj: map<int, seq<int>>, roots: set<int>)
    returns (newAdj: map<int, seq<int>>, visited: seq<int>, ghost launches: seq<int>)
    requires Table(V, E, adj) && roots <= V
    ensures Table(V, E, newAdj)
    ensures StrictlyAscending(launches) && Elems(launches) == roots
    ensures Elems(visited) == ReachFromAll(V, E, roots)
    ensures DuplicatesOnlyOf(visited, roots)
    ensures Separated(E, roots) ==> NoDuplicates(visited)
    ensures visited == BreadthOrder(V, E, roots)
    ensures forall v :: v in visited ==> v in V && Ascending(newAdj[v])
    ensures forall v :: v in V && v !in visited ==> newAdj[v] == adj[v]
  {
    ghost var R := roots;
    var remaining := roots;
    newAdj := adj;
    visited := [];
    launches := [];
    while remaining != {}
      invariant Searched(V, E, newAdj, adj, R, remaining, launches, visited)
      invariant Separated(E, R) ==> NoDuplicates(visited)
      invariant BreadthAll(V, E, Ascend(remaining), visited) == BreadthOrder(V, E, R)
      decreases remaining
    {
      BreadthFromLowest(V, E, remaining, visited);
      newAdj, remaining, launches, visited := BreadthRound(V, E, newAdj, adj, R, remaining, launches, visited);
    }
    LaunchedAll(V, E, R, launches, visited);
  }

  // ---------------------------------------------------------------------
  // Vertices waiting to be handled, shared by the stack and the queue searches

  /**
    The vertices waiting in a stack or a queue, `pending`, are all reachable
    from the starts `L`, and every successor of a visited vertex is visited
    or waiting.
  */
  ghost predicate Open(V: set<int>, E: set<Edge>, L: set<int>, visited: seq<int>, pending: seq<int>)
  {
    && (forall x :: x in pending ==> x in ReachFromAll(V, E, L))
    && (forall e :: e in E && e.source in visited ==> e.destination in visited || e.destination in pending)
  }

  /**
    Taking `u` out of the waiting vertices, leaving `rest`, visiting it and
    adding its neighbours not yet visited keeps the waiting vertices open.
  */
  lemma VisitOpen(V: set<int>, E: set<Edge>, adj: map<int, seq<int>>, L: set<int>,
                  visited: seq<int>, pending: seq<int>, rest: seq<int>, u: int, list: seq<int>)
    requires Open(V, E, L, visited, pending)
    requires forall x :: x in pending ==> x in rest || x == u
    requires forall x :: x in rest ==> x in pending
    requires Table(V, E, adj) && u in V && adj[u] == list && u in ReachFromAll(V, E, L)
    ensures Open(V, E, L, visited + [u], rest + Outside(list, visited + [u]))
  {
    var newVisited := visited + [u];
    var newPending := rest + Outside(list, newVisited);
    forall w | w in list ensures w in ReachFromAll(V, E, L) {
      AdjMember(V, E, adj, u, w);
      ReachFromAllStep(V, E, L, u, w);
    }
    forall e | e in E && e.source == u ensures e.destination in newVisited || e.destination in newPending {
      AdjMember(V, E, adj, u, e.destination);
    }
  }

  // ---------------------------------------------------------------------
  // Iterative depth-first search

  /** Appends to `acc` each member of `list` that is not in `visited`, in list order. */
  method PushOutside(list: seq<int>, acc: seq<int>, visited: seq<int>) returns (r: seq<int>)
    ensures r == acc + Outside(list, visited)
  {
    r := acc;
    var i := 0;
    while i < |list|
      invariant 0 <= i <= |list|
      invariant r == acc + Outside(list[..i], visited)
    {
      assert list[..i + 1][..i] == list[..i];
      if list[i] !in visited {
        r := r + [list[i]];
      }
      i := i + 1;
    }
    assert list[..|list|] == list;
  }

  /**
    What holds between pops of one depth-first search from `start` that
    continues the visit list `visited`: the stack (top at the end) and the
    list hold only vertices the starts `L` reach, the list extends `visited`
    without repeats, `start` is visited or still stacked, every successor of
    a visited vertex is visited or stacked, visited vertices have their
    lists descending and the others still have those of `A`.
  */
  ghost predicate DepthFrontier(V: set<int>, E: set<Edge>, adj: map<int, seq<int>>, A: map<int, seq<int>>,
                                visited: seq<int>, start: int, L: set<int>, stack: seq<int>, result: seq<int>)
  {
    DepthVisits(V, E, adj, A, visited, L, result) && DepthStack(V, E, start, L, stack, result)
  }

  /**
    The visit list of one depth-first search: it extends `visited` without
    repeats and holds only reachable vertices; visited vertices have their
    lists descending and the others still have those of `A`.
  */
  ghost predicate DepthVisits(V: set<int>, E: set<Edge>, adj: map<int, seq<int>>, A: map<int, seq<int>>,
                              visited: seq<int>, L: set<int>, result: seq<int>)
  {
    && Table(V, E, adj) && A.Keys == V
    && |result| >= |visited| && result[..|visited|] == visited
    && NoDuplicates(result)
    && Elems(result) <= ReachFromAll(V, E, L)
    && (forall v :: v in result ==> v in V && Descending(adj[v]))
    && (forall v :: v in V && v !in result ==> adj[v] == A[v])
  }

  /**
    The stack of one depth-first search: it holds only reachable vertices,
    `start` is visited or still stacked, and every successor of a visited
    vertex is visited or stacked.
  */
  ghost predicate DepthStack(V: set<int>, E: set<Edge>, start: int, L: set<int>, stack: seq<int>, result: seq<int>)
  {
    Open(V, E, L, result, stack) && (start in result || start in stack)
  }

  /** Visiting the popped vertex `u`, with its list sorted descending in place, keeps the visit list's invariant. */
  lemma VisitPoppedVisits(V: set<int>, E: set<Edge>, adj: map<int, seq<int>>, newAdj: map<int, seq<int>>, A: map<int, seq<int>>,
                          visited: seq<int>, L: set<int>, result: seq<int>, u: int, list: seq<int>)
    requires DepthVisits(V, E, adj, A, visited, L, result)
    requires u !in result && u in ReachFromAll(V, E, L)
    requires Table(V, E, newAdj) && newAdj == adj[u := list] && Descending(list)
    ensures DepthVisits(V, E, newAdj, A, visited, L, result + [u])
  {
    assert (result + [u])[..|visited|] == visited;
  }

  /** Pushing the unvisited neighbours of the popped vertex `u` keeps the stack's invariant. */
  lemma VisitPoppedStack(V: set<int>, E: set<Edge>, newAdj: map<int, seq<int>>,
                         start: int, L: set<int>, stack: seq<int>, result: seq<int>, u: int, list: seq<int>)
    requires DepthStack(V, E, start, L, stack, result) && stack != []
    requires u == stack[|stack| - 1] && u in ReachFromAll(V, E, L)
    requires Table(V, E, newAdj) && u in V && newAdj[u] == list
    ensures DepthStack(V, E, start, L, stack[..|stack| - 1] + Outside(list, result + [u]), result + [u])
  {
    var rest := stack[..|stack| - 1];
    assert forall x :: x in stack ==> x in rest || x == u;
    VisitOpen(V, E, newAdj, L, result, stack, rest, u, list);
  }

  /**
    One pop of the depth-first search: the top of the stack is taken off;
    if it is new it is visited, its neighbour list is sorted and reversed in
    place, and each neighbour not yet visited is pushed, the lowest last.
  */
  method PopNext(ghost V: set<int>, ghost E: set<Edge>, adj: map<int, seq<int>>, ghost A: map<int, seq<int>>,
                 ghost visited: seq<int>, ghost start: int, ghost L: set<int>, stack: seq<int>, result: seq<int>)
    returns (newAdj: map<int, seq<int>>, newStack: seq<int>, newResult: seq<int>)
    requires DepthFrontier(V, E, adj, A, visited, start, L, stack, result) && stack != []
    ensures DepthFrontier(V, E, newAdj, A, visited, start, L, newStack, newResult)
    ensures Elems(result) <= Elems(newResult) <= V
    ensures Elems(newResult) == Elems(result) ==> |newStack| < |stack|
    ensures DepthVisitAll(V, E, Reversed(newStack), newResult) == DepthVisitAll(V, E, Reversed(stack), result)
  {
    var tempVert := stack[|stack| - 1];
    newStack := stack[..|stack| - 1];
    assert stack == newStack + [tempVert];
    assert forall x :: x in stack ==> x in V by {
      assert forall x :: x in stack ==> x in ReachFromAll(V, E, L);
    }
    DepthPop(V, E, newStack, tempVert, result);
    if tempVert in result {
      assert forall x :: x in stack ==> x in newStack || x == tempVert;
      newAdj, newResult := adj, result;
    } else {
      assert tempVert in ReachFromAll(V, E, L);
      newResult := result + [tempVert];
      var tempAdj;
      newAdj, tempAdj := SortNeighboursDescending(V, E, adj, tempVert);
      newStack := PushOutside(tempAdj, newStack, newResult);
      VisitPoppedVisits(V, E, adj, newAdj, A, visited, L, result, tempVert, tempAdj);
      VisitPoppedStack(V, E, newAdj, start, L, stack, result, tempVert, tempAdj);
      assert tempVert in Elems(newResult) && tempVert !in Elems(result);
    }
  }

  /**
    One depth-first search, from `start`, continuing the visit list
    `visited`; a start already visited adds nothing.
  */
  method DepthFrom(ghost V: set<int>, ghost E: set<Edge>, adj: map<int, seq<int>>,
                   start: int, visited: seq<int>, ghost L: set<int>)
    returns (newAdj: map<int, seq<int>>, result: seq<int>)
    requires Table(V, E, adj) && start in ReachFromAll(V, E, L)
    requires NoDuplicates(visited) && Elems(visited) <= ReachFromAll(V, E, L)
    requires ClosedUnderSuccessors(E, Elems(visited))
    requires forall v :: v in visited ==> v in V && Descending(adj[v])
    ensures Table(V, E, newAdj)
    ensures |result| >= |visited| && result[..|visited|] == visited && NoDuplicates(result)
    ensures start in result && Elems(result) <= ReachFromAll(V, E, L)
    ensures ClosedUnderSuccessors(E, Elems(result))
    ensures forall v :: v in result ==> v in V && Descending(newAdj[v])
    ensures forall v :: v in V && v !in result ==> newAdj[v] == adj[v]
    ensures result == DepthVisit(V, E, start, visited)
  {
    var stack := [start];
    result := visited;
    newAdj := adj;
    assert result[..|visited|] == visited;
    assert Reversed(stack) == [start] && [start][1..] == [];
    while stack != []
      invariant DepthFrontier(V, E, newAdj, adj, visited, start, L, stack, result)
      invariant Elems(result) <= V
      invariant DepthVisitAll(V, E, Reversed(stack), result) == DepthVisit(V, E, start, visited)
      decreases V - Elems(result), |stack|
    {
      newAdj, stack, result := PopNext(V, E, newAdj, adj, visited, start, L, stack, result);
    }
    assert Reversed(stack) == [];
  }

  /** The depth-first traversal between searches. */
  ghost predicate DepthSearched(V: set<int>, E: set<Edge>, adj: map<int, seq<int>>, A: map<int, seq<int>>,
                                R: set<int>, roots: set<int>, launches: seq<int>, visited: seq<int>)
  {
    && Table(V, E, adj) && A.Keys == V
    && Launched(V, E, R, roots, launches, visited)
    && NoDuplicates(visited)
    && (forall v :: v in visited ==> v in V && Descending(adj[v]))
    && (forall v :: v in V && v !in visited ==> adj[v] == A[v])
  }

  /** One search of the depth-first traversal, from the lowest root not yet searched from. */
  method DepthRound(ghost V: set<int>, ghost E: set<Edge>, adj: map<int, seq<int>>, ghost A: map<int, seq<int>>,
                    ghost R: set<int>, roots: set<int>, ghost launches: seq<int>, visited: seq<int>)
    returns (newAdj: map<int, seq<int>>, newRoots: set<int>, ghost newLaunches: seq<int>, newVisited: seq<int>)
    requires DepthSearched(V, E, adj, A, R, roots, launches, visited) && roots != {}
    ensures DepthSearched(V, E, newAdj, A, R, newRoots, newLaunches, newVisited)
    ensures newRoots == roots - {Lowest(roots)}
    ensures newVisited == DepthVisit(V, E, Lowest(roots), visited)
  {
    var start := GetLowestValue(roots);
    assert Lowest(roots) == start;
    LaunchNext(V, E, R, roots, launches, visited, start);
    newLaunches := launches + [start];
    newAdj, newVisited := DepthFrom(V, E, adj, start, visited, Elems(newLaunches));
    LaunchedStep(V, E, R, roots, launches, visited, start, newVisited);
    newRoots := roots - {start};
  }

  /**
    The iterative depth-first traversal: while roots remain, a depth-first
    search from the lowest of them, which is then dropped.  No vertex is
    visited twice.
  */
  method IterativeDepth(V: set<int>, E: set<Edge>, adj: map<int, seq<int>>, roots: set<int>)
    returns (newAdj: map<int, seq<int>>, visited: seq<int>, ghost launches: seq<int>)
    requires Table(V, E, adj) && roots <= V
    ensures Table(V, E, newAdj)
    ensures StrictlyAscending(launches) && Elems(launches) == roots
    ensures Elems(visited) == ReachFromAll(V, E, roots) && NoDuplicates(visited)
    ensures visited == DepthOrder(V, E, roots)
    ensures forall v :: v in visited ==> v in V && Descending(newAdj[v])
    ensures forall v :: v in V && v !in visited ==> newAdj[v] == adj[v]
  {
    ghost var R := roots;
    var remaining := roots;
    newAdj := adj;
    visited := [];
    launches := [];
    while remaining != {}
      invariant DepthSearched(V, E, newAdj, adj, R, remaining, launches, visited)
      invariant DepthVisitAll(V, E, Ascend(remaining), visited) == DepthOrder(V, E, R)
      decreases remaining
    {
      DepthFromLowest(V, E, remaining, visited);
      newAdj, remaining, launches, visited := DepthRound(V, E, newAdj, adj, R, remaining, launches, visited);
    }
    LaunchedAll(V, E, R, launches, visited);
  }

  // ---------------------------------------------------------------------
  // Recursive depth-first search

  /**
    Visits u unless it is already visited, sorts its neighbour list in place
    and recurses into each neighbour in ascending order.  Vertices it adds
    are reachable from the starts `L`, and each has all its successors
    visited by the time it returns.
  */
  method DepthHelp(ghost V: set<int>, ghost E: set<Edge>, adj: map<int, seq<int>>,
                   u: int, visited: seq<int>, ghost L: set<int>)
    returns (newAdj: map<int, seq<int>>, newVisited: seq<int>)
    requires Table(V, E, adj) && u in ReachFromAll(V, E, L)
    requires NoDuplicates(visited) && Elems(visited) <= V
    requires forall v :: v in visited ==> Ascending(adj[v])
    ensures Table(V, E, newAdj)
    ensures |newVisited| >= |visited| && newVisited[..|visited|] == visited
    ensures NoDuplicates(newVisited) && u in newVisited && forall v :: v in visited ==> v in newVisited
    ensures Elems(visited) <= Elems(newVisited) <= Elems(visited) + ReachFromAll(V, E, L)
    ensures forall e :: e in E && e.source in newVisited && e.source !in visited ==> e.destination in newVisited
    ensures forall v :: v in newVisited ==> v in V && Ascending(newAdj[v])
    ensures forall v :: v in visited || v !in newVisited ==> v in V ==> newAdj[v] == adj[v]
    ensures newVisited == DepthVisit(V, E, u, visited)
    decreases V - Elems(visited), 1
  {
    if u in visited {
      return adj, visited;
    }
    newVisited := visited + [u];
    var tempAdj;
    newAdj, tempAdj := SortNeighbours(V, E, adj, u);
    ChildrenStart(V, E, adj, newAdj, u, tempAdj, visited, L);
    assert tempAdj[0..] == tempAdj;
    var i := 0;
    while i < |tempAdj|
      invariant ChildrenDone(V, E, newAdj, adj, u, tempAdj, i, visited, newVisited, L)
      invariant DepthVisitAll(V, E, tempAdj[i..], newVisited) == DepthVisit(V, E, u, visited)
    {
      assert tempAdj[i..][0] == tempAdj[i] && tempAdj[i..][1..] == tempAdj[i + 1..];
      newAdj, newVisited := DepthChild(V, E, newAdj, adj, u, tempAdj, i, visited, newVisited, L);
      i := i + 1;
    }
    assert tempAdj[i..] == [];
    forall e | e in E && e.source == u ensures e.destination in newVisited {
      AdjMember(V, E, newAdj, u, e.destination);
      assert e == Edge(u, e.destination);
    }
  }

  /**
    Within the visit of u, after the recursions into the first i members of
    its sorted neighbour list: what `DepthHelp` promises, with u's own
    successors done up to i.
  */
  ghost predicate ChildrenDone(V: set<int>, E: set<Edge>, adj: map<int, seq<int>>, A: map<int, seq<int>>, u: int,
                               list: seq<int>, i: int, visited: seq<int>, cur: seq<int>, L: set<int>)
  {
    && Table(V, E, adj) && A.Keys == V && u in V && u !in visited && adj[u] == list
    && (forall x :: x in list ==> x in V) && 0 <= i <= |list|
    && |cur| > |visited| && cur[..|visited|] == visited && cur[|visited|] == u
    && NoDuplicates(cur)
    && Elems(cur) <= Elems(visited) + ReachFromAll(V, E, L)
    && (forall k :: 0 <= k < i ==> list[k] in cur)
    && (forall e :: e in E && e.source in cur && e.source !in visited && e.source != u ==> e.destination in cur)
    && (forall v :: v in cur ==> v in V && Ascending(adj[v]))
    && (forall v :: v in visited || v !in cur ==> v in V ==> adj[v] == A[v])
  }

  /** Visiting a new vertex `u` whose list is now sorted starts its recursions with none done. */
  lemma ChildrenStart(V: set<int>, E: set<Edge>, adj: map<int, seq<int>>, newAdj: map<int, seq<int>>,
                      u: int, list: seq<int>, visited: seq<int>, L: set<int>)
    requires Table(V, E, adj) && u in V && u !in visited && u in ReachFromAll(V, E, L)
    requires NoDuplicates(visited) && Elems(visited) <= V
    requires forall v :: v in visited ==> Ascending(adj[v])
    requires Table(V, E, newAdj) && newAdj == adj[u := list] && Ascending(list)
    ensures ChildrenDone(V, E, newAdj, adj, u, list, 0, visited, visited + [u], L)
  {
    assert (visited + [u])[..|visited|] == visited;
    forall x | x in list ensures x in V {
      AdjMember(V, E, newAdj, u, x);
    }
  }

  /** The recursion into the next neighbour of u. */
  method DepthChild(ghost V: set<int>, ghost E: set<Edge>, adj: map<int, seq<int>>, ghost A: map<int, seq<int>>, ghost u: int,
                    list: seq<int>, i: int, ghost visited: seq<int>, cur: seq<int>, ghost L: set<int>)
    returns (newAdj: map<int, seq<int>>, newCur: seq<int>)
    requires ChildrenDone(V, E, adj, A, u, list, i, visited, cur, L) && i < |list|
    requires u in ReachFromAll(V, E, L)
    ensures ChildrenDone(V, E, newAdj, A, u, list, i + 1, visited, newCur, L)
    ensures newCur == DepthVisit(V, E, list[i], cur)
    decreases V - Elems(visited), 0
  {
    AdjMember(V, E, adj, u, list[i]);
    ReachFromAllStep(V, E, L, u, list[i]);
    assert u in Elems(cur) && u !in Elems(visited);
    newAdj, newCur := DepthHelp(V, E, adj, list[i], cur, L);
    assert newCur[..|visited|] == visited && newCur[|visited|] == u by {
      assert newCur[..|cur|] == cur;
    }
  }

  /** The recursive depth-first traversal: a recursive search from each root in ascending order. */
  method RecursiveDepth(V: set<int>, E: set<Edge>, adj: map<int, seq<int>>, roots: set<int>)
    returns (newAdj: map<int, seq<int>>, visited: seq<int>, ghost launches: seq<int>)
    requires Table(V, E, adj) && roots <= V
    ensures Table(V, E, newAdj)
    ensures StrictlyAscending(launches) && Elems(launches) == roots
    ensures Elems(visited) == ReachFromAll(V, E, roots) && NoDuplicates(visited)
    ensures visited == DepthOrder(V, E, roots)
    ensures forall v :: v in visited ==> v in V && Ascending(newAdj[v])
    ensures forall v :: v in V && v !in visited ==> newAdj[v] == adj[v]
  {
    ghost var R := roots;
    var remaining := roots;
    newAdj := adj;
    visited := [];
    launches := [];
    while remaining != {}
      invariant Table(V, E, newAdj)
      invariant Launched(V, E, R, remaining, launches, visited)
      invariant NoDuplicates(visited)
      invariant forall v :: v in visited ==> v in V && Ascending(newAdj[v])
      invariant forall v :: v in V && v !in visited ==> newAdj[v] == adj[v]
      invariant DepthVisitAll(V, E, Ascend(remaining), visited) == DepthOrder(V, E, R)
      decreases remaining
    {
      var start := GetLowestValue(remaining);
      assert Lowest(remaining) == start;
      DepthFromLowest(V, E, remaining, visited);
      LaunchNext(V, E, R, remaining, launches, visited, start);
      ghost var before := visited;
      newAdj, visited := DepthHelp(V, E, newAdj, start, visited, Elems(launches + [start]));
      LaunchedStep(V, E, R, remaining, launches, before, start, visited);
      launches := launches + [start];
      var lowest := GetLowestValue(remaining);
      assert lowest == start;
      remaining := remaining - {lowest};
    }
    LaunchedAll(V, E, R, launches, visited);
  }

  // ---------------------------------------------------------------------
  // Recursive breadth-first search

  /**
    The recursive breadth-first step as the source writes it, on values:
    visits u unless it is already visited, queues each neighbour not yet
    visited (in ascending order, repeats kept), takes the head of the queue
    and recurses on it.  It returns as soon as it meets a visited vertex,
    leaving the rest of the queue for the next root.  Returns the visit
    list and the queue.
  */
  ghost function BreadthHelpAsWritten(V: set<int>, A: map<int, seq<int>>, u: int, visited: seq<int>, queue: seq<int>)
    : (r: (seq<int>, seq<int>))
    requires A.Keys == V && (forall v, w :: v in V && w in A[v] ==> w in V)
    requires u in V && forall x :: x in queue ==> x in V
    ensures forall x :: x in r.1 ==> x in V
    decreases V - Elems(visited)
  {
    if u in visited then (visited, queue)
    else
      var vis := visited + [u];
      var q := queue + Outside(Sort(A[u]), vis);
      assert u in Elems(vis) && u !in Elems(visited);
      if q == [] then (vis, q)
      else BreadthHelpAsWritten(V, A, q[0], vis, q[1..])
  }

  /** The recursive breadth-first traversal as written: the step above from each root in ascending order, one queue shared by all. */
  ghost function RecursiveBreadthAsWritten(V: set<int>, A: map<int, seq<int>>, roots: set<int>, visited: seq<int>, queue: seq<int>)
    : seq<int>
    requires A.Keys == V && (forall v, w :: v in V && w in A[v] ==> w in V)
    requires roots <= V && forall x :: x in queue ==> x in V
    decreases roots
  {
    if roots == {} then visited
    else
      var start := Lowest(roots);
      var (vis, q) := BreadthHelpAsWritten(V, A, start, visited, queue);
      RecursiveBreadthAsWritten(V, A, roots - {start}, vis, q)
  }

  /** The lists of a faithful table name only vertices. */
  lemma ListsInside(V: set<int>, E: set<Edge>, A: map<int, seq<int>>)
    requires Table(V, E, A)
    ensures forall v, w :: v in V && w in A[v] ==> w in V
  {
    forall v, w | v in V && w in A[v] ensures w in V {
      AdjMember(V, E, A, v, w);
    }
  }

  /**
    The recursive breadth-first step as written, in place: the visit, the
    in-place sort and the queueing, then the poll and the recursion.  `A` is
    the table the traversal started from; the lists of vertices not yet
    visited are still those of `A`.
  */
  method BreadthStepAsWritten(ghost V: set<int>, ghost E: set<Edge>, adj: map<int, seq<int>>, ghost A: map<int, seq<int>>,
                              u: int, visited: seq<int>, queue: seq<int>)
    returns (newAdj: map<int, seq<int>>, newVisited: seq<int>, newQueue: seq<int>)
    requires Table(V, E, adj) && Table(V, E, A)
    requires u in V && forall x :: x in queue ==> x in V
    requires forall v :: v in V && v !in visited ==> adj[v] == A[v]
    ensures Table(V, E, newAdj)
    ensures forall v :: v in V && v !in newVisited ==> newAdj[v] == A[v]
    ensures forall v, w :: v in V && w in A[v] ==> w in V
    ensures (newVisited, newQueue) == BreadthHelpAsWritten(V, A, u, visited, queue)
    decreases V - Elems(visited)
  {
    ListsInside(V, E, A);
    if u in visited {
      return adj, visited, queue;
    }
    newVisited := visited + [u];
    var tempAdj;
    newAdj, tempAdj := SortNeighbours(V, E, adj, u);
    SortIsTheAscendingPermutation(A[u], tempAdj);
    newQueue := PushOutside(tempAdj, queue, newVisited);
    assert u in Elems(newVisited) && u !in Elems(visited);
    if newQueue != [] {
      var nextVert := newQueue[0];
      newQueue := newQueue[1..];
      newAdj, newVisited, newQueue := BreadthStepAsWritten(V, E, newAdj, A, nextVert, newVisited, newQueue);
    }
  }

  /**
    What the as-written step keeps: the visit list only grows, by vertices
    the starts `L` reach, with no repeats, and takes in u; what it leaves in
    the queue is reachable too.
  */
  lemma {:induction false} AsWrittenStepFacts(V: set<int>, E: set<Edge>, A: map<int, seq<int>>, L: set<int>,
                                               u: int, visited: seq<int>, queue: seq<int>)
    requires Table(V, E, A) && (forall v, w :: v in V && w in A[v] ==> w in V)
    requires u in ReachFromAll(V, E, L) && forall x :: x in queue ==> x in ReachFromAll(V, E, L)
    requires NoDuplicates(visited)
    ensures var r := BreadthHelpAsWritten(V, A, u, visited, queue);
      && |r.0| >= |visited| && r.0[..|visited|] == visited
      && NoDuplicates(r.0) && u in r.0
      && Elems(r.0) <= Elems(visited) + ReachFromAll(V, E, L)
      && forall x :: x in r.1 ==> x in ReachFromAll(V, E, L)
    decreases V - Elems(visited)
  {
    if u !in visited {
      var vis := visited + [u];
      var q := queue + Outside(Sort(A[u]), vis);
      forall w | w in Sort(A[u]) ensures w in ReachFromAll(V, E, L) {
        AdjMember(V, E, A, u, w);
        ReachFromAllStep(V, E, L, u, w);
      }
      assert NoDuplicates(vis);
      assert vis[..|visited|] == visited && vis[|visited|] == u;
      assert u in Elems(vis) && u !in Elems(visited);
      if q != [] {
        AsWrittenStepFacts(V, E, A, L, q[0], vis, q[1..]);
        var r := BreadthHelpAsWritten(V, A, q[0], vis, q[1..]);
        PrefixOfPrefix(visited, vis, r.0);
        assert r.0[|visited|] == r.0[..|vis|][|visited|];
      }
    }
  }

  /**
    What the as-written traversal keeps: from a visit list without repeats
    inside what the roots `R` reach, it ends with one that still has no
    repeats, holds every root it started from, and holds only what `R`
    reaches.
  */
  lemma {:induction false} AsWrittenRunFacts(V: set<int>, E: set<Edge>, A: map<int, seq<int>>, R: set<int>,
                                              roots: set<int>, visited: seq<int>, queue: seq<int>)
    requires Table(V, E, A) && (forall v, w :: v in V && w in A[v] ==> w in V)
    requires R <= V && roots <= R && forall x :: x in queue ==> x in ReachFromAll(V, E, R)
    requires NoDuplicates(visited) && Elems(visited) <= ReachFromAll(V, E, R)
    ensures var r := RecursiveBreadthAsWritten(V, A, roots, visited, queue);
      NoDuplicates(r) && roots <= Elems(r) && Elems(visited) <= Elems(r) <= ReachFromAll(V, E, R)
    decreases roots
  {
    if roots != {} {
      var start := Lowest(roots);
      ReachFromAllFacts(V, E, R);
      AsWrittenStepFacts(V, E, A, R, start, visited, queue);
      var (vis, q) := BreadthHelpAsWritten(V, A, start, visited, queue);
      AsWrittenRunFacts(V, E, A, R, roots - {start}, vis, q);
      PrefixElems(visited, vis);
    }
  }

  /**
    The recursive breadth-first traversal as written: the step from each root
    in ascending order, the queue carried from one root to the next.
  */
  method RecursiveBreadthAsWrittenRun(V: set<int>, E: set<Edge>, adj: map<int, seq<int>>, roots: set<int>)
    returns (newAdj: map<int, seq<int>>, visited: seq<int>)
    requires Table(V, E, adj) && roots <= V
    ensures Table(V, E, newAdj)
    ensures forall v, w :: v in V && w in adj[v] ==> w in V
    ensures visited == RecursiveBreadthAsWritten(V, adj, roots, [], [])
    ensures NoDuplicates(visited) && roots <= Elems(visited) <= ReachFromAll(V, E, roots)
  {
    ListsInside(V, E, adj);
    var remaining := roots;
    var queue := [];
    newAdj := adj;
    visited := [];
    while remaining != {}
      invariant remaining <= roots
      invariant Table(V, E, newAdj)
      invariant forall x :: x in queue ==> x in V
      invariant forall v :: v in V && v !in visited ==> newAdj[v] == adj[v]
      invariant RecursiveBreadthAsWritten(V, adj, remaining, visited, queue) == RecursiveBreadthAsWritten(V, adj, roots, [], [])
      decreases remaining
    {
      var start := GetLowestValue(remaining);
      assert Lowest(remaining) == start;
      newAdj, visited, queue := BreadthStepAsWritten(V, E, newAdj, adj, start, visited, queue);
      var lowest := GetLowestValue(remaining);
      assert lowest == start;
      remaining := remaining - {lowest};
    }
    AsWrittenRunFacts(V, E, adj, roots, roots, [], []);
  }

  /** The example graph of the finding below: 1->2, 1->3, 2->3, 2->4. */
  ghost const ExampleV: set<int> := {1, 2, 3, 4}
  ghost const ExampleE: set<Edge> := {Edge(1, 2), Edge(1, 3), Edge(2, 3), Edge(2, 4)}

  /** In the example graph 1 is the only root, and 4 is reachable from it. */
  lemma ExampleRoots()
    ensures RootsOf(ExampleV, ExampleE) == {1}
    ensures 4 in ReachFromAll(ExampleV, ExampleE, {1})
  {
    var V, E := ExampleV, ExampleE;
    assert !Transitive(E) by {
      assert Edge(1, 2) in E && Edge(2, 4) in E && Edge(1, 4) !in E;
    }
    assert Edge(1, 2) in E && Edge(1, 3) in E && Edge(2, 4) in E;
    assert ZeroInDegreeRoots(V, E) == {1};
    assert IsPath(E, [1, 2, 4]);
    assert Reaches(E, 1, 4);
  }

  /** Any faithful table of the example graph sorts to the lists [2, 3], [3, 4] and []. */
  lemma ExampleSortedLists(A: map<int, seq<int>>)
    requires AdjFaithful(ExampleV, ExampleE, A)
    ensures Sort(A[1]) == [2, 3] && Sort(A[2]) == [3, 4] && Sort(A[3]) == []
  {
    ExampleSuccessors();
    ExampleSortedList(A, 1, [2, 3]);
    ExampleSortedList(A, 2, [3, 4]);
    ExampleSortedList(A, 3, []);
  }

  lemma ExampleSuccessors()
    ensures multiset(Successors(ExampleE, 1)) == multiset([2, 3])
    ensures multiset(Successors(ExampleE, 2)) == multiset([3, 4])
    ensures multiset(Successors(ExampleE, 3)) == multiset([])
  {
    ExampleSuccessorsOf(1, [2, 3]);
    ExampleSuccessorsOf(2, [3, 4]);
    ExampleSuccessorsOf(3, []);
  }

  lemma ExampleSuccessorsOf(v: int, s: seq<int>)
    requires (v == 1 && s == [2, 3]) || (v == 2 && s == [3, 4]) || (v == 3 && s == [])
    ensures multiset(Successors(ExampleE, v)) == multiset(s)
  {
    assert Successors(ExampleE, v) == set x | x in s;
    assert |s| <= 1 || s[0] != s[1];
  }

  lemma ExampleSortedList(A: map<int, seq<int>>, v: int, s: seq<int>)
    requires AdjFaithful(ExampleV, ExampleE, A) && v in ExampleV
    requires Ascending(s) && multiset(Successors(ExampleE, v)) == multiset(s)
    ensures Sort(A[v]) == s
  {
    SortIsTheAscendingPermutation(A[v], s);
  }

  /** The lists of a faithful table of the example graph stay inside it. */
  lemma ExampleListsInside(A: map<int, seq<int>>)
    requires AdjFaithful(ExampleV, ExampleE, A)
    ensures forall v, w :: v in ExampleV && w in A[v] ==> w in ExampleV
  {
    forall v, w | v in ExampleV && w in A[v] ensures w in ExampleV {
      AdjMember(ExampleV, ExampleE, A, v, w);
    }
  }

  lemma ExampleOutside()
    ensures Outside([2, 3], [1]) == [2, 3]
    ensures Outside([3, 4], [1, 2]) == [3, 4]
  {
    assert [2, 3][..1] == [2] && [2][..0] == [];
    assert [3, 4][..1] == [3] && [3][..0] == [];
  }

  /** A table of the example graph whose lists sort as `ExampleSortedLists` says. */
  ghost predicate ExampleTable(A: map<int, seq<int>>)
  {
    && A.Keys == ExampleV && (forall v, w :: v in ExampleV && w in A[v] ==> w in ExampleV)
    && Sort(A[1]) == [2, 3] && Sort(A[2]) == [3, 4] && Sort(A[3]) == []
  }

  /** The as-written step at a new vertex u goes on at the head of the queue once u's new neighbours are queued. */
  lemma AsWrittenVisitStep(V: set<int>, A: map<int, seq<int>>, u: int, visited: seq<int>, queue: seq<int>,
                           vis: seq<int>, q: seq<int>)
    requires A.Keys == V && (forall v, w :: v in V && w in A[v] ==> w in V)
    requires u in V && forall x :: x in queue ==> x in V
    requires u !in visited && vis == visited + [u] && q == queue + Outside(Sort(A[u]), vis) && q != []
    ensures BreadthHelpAsWritten(V, A, u, visited, queue) == BreadthHelpAsWritten(V, A, q[0], vis, q[1..])
  {
  }

  /** The as-written step at 3, with 3 and then 4 queued: visits 3 and stops at its second copy. */
  lemma ExampleRunAtThree(A: map<int, seq<int>>)
    requires ExampleTable(A)
    ensures BreadthHelpAsWritten(ExampleV, A, 3, [1, 2], [3, 4]) == ([1, 2, 3], [4])
  {
    var vis := [1, 2] + [3];
    var q := [3, 4] + Outside(Sort(A[3]), vis);
    assert vis == [1, 2, 3];
    assert q == [3, 4];
    assert q[0] == 3 && q[1..] == [4];
    assert BreadthHelpAsWritten(ExampleV, A, 3, [1, 2, 3], [4]) == ([1, 2, 3], [4]);
  }

  /** The queue after the visit of 2: the 3 already queued, then 3 and 4 again. */
  lemma ExampleQueueAtTwo()
    ensures [3] + Outside([3, 4], [1, 2]) == [3, 3, 4]
  {
    ExampleOutside();
    assert [3] + [3, 4] == [3, 3, 4];
  }

  /** The as-written step at 2, with 3 queued: queues 3 and 4 and goes on at 3. */
  lemma ExampleRunAtTwo(A: map<int, seq<int>>)
    requires ExampleTable(A)
    ensures BreadthHelpAsWritten(ExampleV, A, 2, [1], [3]) == ([1, 2, 3], [4])
  {
    assert [1] + [2] == [1, 2];
    ExampleQueueAtTwo();
    AsWrittenVisitStep(ExampleV, A, 2, [1], [3], [1, 2], [3, 3, 4]);
    assert [3, 3, 4][0] == 3 && [3, 3, 4][1..] == [3, 4];
    ExampleRunAtThree(A);
  }

  /** The as-written step at the root 1: queues 2 and 3 and goes on at 2. */
  lemma ExampleRun(A: map<int, seq<int>>)
    requires ExampleTable(A)
    ensures BreadthHelpAsWritten(ExampleV, A, 1, [], []) == ([1, 2, 3], [4])
  {
    var vis := [] + [1];
    var q := [] + Outside(Sort(A[1]), vis);
    assert vis == [1];
    assert q == [2, 3] by {
      ExampleOutside();
    }
    assert q[0] == 2 && q[1..] == [3];
    ExampleRunAtTwo(A);
  }

  /**
    The recursive breadth-first traversal as written misses a reachable
    vertex.  On the example graph, with any faithful table, the only root
    is 1; the step visits 1 and queues 2, 3, visits 2 and queues 3, 4
    behind the 3 already queued, visits 3, then takes 3 off the queue a
    second time, finds it visited and returns with 4 still queued.  The
    traversal yields [1, 2, 3], although 4 is reachable from 1.
  */
  lemma AsWrittenMissesReachableVertex(A: map<int, seq<int>>)
    requires AdjFaithful(ExampleV, ExampleE, A)
    ensures RootsOf(ExampleV, ExampleE) == {1}
    ensures 4 in ReachFromAll(ExampleV, ExampleE, RootsOf(ExampleV, ExampleE))
    ensures forall v, w :: v in ExampleV && w in A[v] ==> w in ExampleV
    ensures RecursiveBreadthAsWritten(ExampleV, A, {1}, [], []) == [1, 2, 3]
  {
    ExampleRoots();
    ExampleSortedLists(A);
    ExampleListsInside(A);
    ExampleRun(A);
    assert Lowest({1}) == 1;
    assert {1} - {1} == {};
  }

  /**
    The state of the recursive breadth-first search: `pending` holds the
    vertex about to be handled and the queue behind it, open in the sense of
    `Open`, and the visit list is settled.
  */
  ghost predicate Pending(V: set<int>, E: set<Edge>, adj: map<int, seq<int>>, L: set<int>, visited: seq<int>, pending: seq<int>)
  {
    Settled(V, E, adj, L, visited) && Open(V, E, L, visited, pending)
  }

  /**
    A settled visit list has no repeats and holds only what the starts `L`
    reach; its vertices have their lists sorted.
  */
  ghost predicate Settled(V: set<int>, E: set<Edge>, adj: map<int, seq<int>>, L: set<int>, visited: seq<int>)
  {
    && Table(V, E, adj)
    && NoDuplicates(visited) && Elems(visited) <= ReachFromAll(V, E, L)
    && (forall v :: v in visited ==> v in V && Ascending(adj[v]))
  }

  /** Visiting a new reachable vertex `u` whose list is now sorted keeps the visit list settled. */
  lemma VisitSettled(V: set<int>, E: set<Edge>, adj: map<int, seq<int>>, newAdj: map<int, seq<int>>, L: set<int>,
                     visited: seq<int>, u: int, list: seq<int>)
    requires Settled(V, E, adj, L, visited) && u !in visited && u in ReachFromAll(V, E, L)
    requires Table(V, E, newAdj) && newAdj == adj[u := list] && Ascending(list)
    ensures Settled(V, E, newAdj, L, visited + [u])
    ensures Elems(visited + [u]) == Elems(visited) + {u}
  {
  }

  /** A vertex taken off the queue that is already visited can be dropped. */
  lemma SkipVisited(V: set<int>, E: set<Edge>, L: set<int>, visited: seq<int>, u: int, queue: seq<int>)
    requires Open(V, E, L, visited, [u] + queue) && u in visited
    ensures Open(V, E, L, visited, queue)
  {
    assert forall x :: x in [u] + queue ==> x == u || x in queue;
  }

  /** Once nothing is waiting, the visit list is closed under successors. */
  lemma DrainedIsClosed(V: set<int>, E: set<Edge>, L: set<int>, visited: seq<int>)
    requires Open(V, E, L, visited, [])
    ensures ClosedUnderSuccessors(E, Elems(visited))
  {
  }

  /**
    Handles u: unless it is already visited, visits it, sorts its neighbour
    list in place and queues each neighbour not yet visited.
  */
  method VisitQueued(ghost V: set<int>, ghost E: set<Edge>, adj: map<int, seq<int>>, ghost L: set<int>,
                     u: int, visited: seq<int>, queue: seq<int>)
    returns (newAdj: map<int, seq<int>>, vis: seq<int>, q: seq<int>)
    requires Pending(V, E, adj, L, visited, [u] + queue)
    ensures Pending(V, E, newAdj, L, vis, q)
    ensures |vis| >= |visited| && vis[..|visited|] == visited && u in vis
    ensures forall v :: v in visited ==> v in vis
    ensures forall v :: v in V && v !in vis ==> newAdj[v] == adj[v]
    ensures u in visited ==> vis == visited && q == queue
    ensures u !in visited ==> u in V && Elems(vis) == Elems(visited) + {u}
    ensures u !in visited ==> vis == visited + [u] && q == queue + Outside(Neighbours(E, u), visited + [u])
    ensures BreadthRun(V, E, Unvisited([u] + queue, visited), visited + Unvisited([u] + queue, visited))
         == BreadthRun(V, E, Unvisited(q, vis), vis + Unvisited(q, vis))
  {
    vis := visited;
    q := queue;
    newAdj := adj;
    assert forall x :: x in [u] + queue <==> x == u || x in queue;
    assert u in V && forall x :: x in queue ==> x in V by {
      assert forall x :: x in [u] + queue ==> x in ReachFromAll(V, E, L);
      assert u in [u] + queue;
    }
    if u !in visited {
      assert u in ReachFromAll(V, E, L);
      vis := visited + [u];
      var tempAdj;
      newAdj, tempAdj := SortNeighbours(V, E, adj, u);
      q := PushOutside(tempAdj, queue, vis);
      VisitOpen(V, E, newAdj, L, visited, [u] + queue, queue, u, tempAdj);
      VisitSettled(V, E, adj, newAdj, L, visited, u, tempAdj);
      assert vis[..|visited|] == visited;
    } else {
      SkipVisited(V, E, L, visited, u, queue);
    }
    BreadthTakeStep(V, E, u, visited, queue, vis, q);
  }

  /**
    The recursive breadth-first step with the evident intent: a vertex met
    already visited is skipped and the queue is still drained, so the step
    returns only once the queue is empty.
  */
  method BreadthHelp(ghost V: set<int>, ghost E: set<Edge>, adj: map<int, seq<int>>,
                     u: int, visited: seq<int>, queue: seq<int>, ghost L: set<int>)
    returns (newAdj: map<int, seq<int>>, newVisited: seq<int>)
    requires Pending(V, E, adj, L, visited, [u] + queue)
    ensures Table(V, E, newAdj)
    ensures |newVisited| >= |visited| && newVisited[..|visited|] == visited && NoDuplicates(newVisited)
    ensures forall v :: v in visited ==> v in newVisited
    ensures u in newVisited && Elems(newVisited) <= ReachFromAll(V, E, L)
    ensures ClosedUnderSuccessors(E, Elems(newVisited))
    ensures forall v :: v in newVisited ==> v in V && Ascending(newAdj[v])
    ensures forall v :: v in V && v !in newVisited ==> newAdj[v] == adj[v]
    ensures newVisited == BreadthRun(V, E, Unvisited([u] + queue, visited), visited + Unvisited([u] + queue, visited))
    decreases V - Elems(visited), |queue|
  {
    var vis, q;
    newAdj, vis, q := VisitQueued(V, E, adj, L, u, visited, queue);
    ghost var p' := Unvisited(q, vis);
    if q == [] {
      DrainedIsClosed(V, E, L, vis);
      newVisited := vis;
      assert p' == [] && vis + p' == vis;
    } else {
      var head, tail := q[0], q[1..];
      HeadTail(q);
      newAdj, newVisited := BreadthHelp(V, E, newAdj, head, vis, tail, L);
      PrefixOfPrefix(visited, vis, newVisited);
      assert newVisited == BreadthRun(V, E, p', vis + p');
    }
  }

  /**
    One recursive search from `start` with an empty queue, after searches
    whose visit list is closed under successors.
  */
  method BreadthFromRoot(ghost V: set<int>, ghost E: set<Edge>, adj: map<int, seq<int>>,
                         start: int, visited: seq<int>, ghost L: set<int>)
    returns (newAdj: map<int, seq<int>>, newVisited: seq<int>)
    requires Table(V, E, adj) && start in ReachFromAll(V, E, L)
    requires NoDuplicates(visited) && Elems(visited) <= ReachFromAll(V, E, L)
    requires ClosedUnderSuccessors(E, Elems(visited))
    requires forall v :: v in visited ==> v in V && Ascending(adj[v])
    ensures Table(V, E, newAdj)
    ensures NoDuplicates(newVisited) && forall v :: v in visited ==> v in newVisited
    ensures Elems(visited) + {start} <= Elems(newVisited) <= ReachFromAll(V, E, L)
    ensures ClosedUnderSuccessors(E, Elems(newVisited))
    ensures forall v :: v in newVisited ==> v in V && Ascending(newAdj[v])
    ensures forall v :: v in V && v !in newVisited ==> newAdj[v] == adj[v]
    ensures start !in visited ==> newVisited == BreadthRun(V, E, [start], visited + [start])
  {
    assert Pending(V, E, adj, L, visited, [start] + []) by {
      assert [start] + [] == [start];
    }
    newAdj, newVisited := BreadthHelp(V, E, adj, start, visited, [], L);
    if start !in visited {
      BreadthFromSingle(V, E, start, visited, newVisited);
    }
  }

  /**
    The recursive breadth-first traversal, with the step that drains the
    queue: a recursive search from each root in ascending order.
  */
  method RecursiveBreadth(V: set<int>, E: set<Edge>, adj: map<int, seq<int>>, roots: set<int>)
    returns (newAdj: map<int, seq<int>>, visited: seq<int>, ghost launches: seq<int>)
    requires Table(V, E, adj) && roots <= V
    ensures Table(V, E, newAdj)
    ensures StrictlyAscending(launches) && Elems(launches) == roots
    ensures Elems(visited) == ReachFromAll(V, E, roots) && NoDuplicates(visited)
    ensures Separated(E, roots) ==> visited == BreadthOrder(V, E, roots)
    ensures forall v :: v in visited ==> v in V && Ascending(newAdj[v])
    ensures forall v :: v in V && v !in visited ==> newAdj[v] == adj[v]
  {
    ghost var R := roots;
    var remaining := roots;
    newAdj := adj;
    visited := [];
    launches := [];
    while remaining != {}
      invariant Table(V, E, newAdj)
      invariant Launched(V, E, R, remaining, launches, visited)
      invariant NoDuplicates(visited)
      invariant forall v :: v in visited ==> v in V && Ascending(newAdj[v])
      invariant forall v :: v in V && v !in visited ==> newAdj[v] == adj[v]
      invariant Separated(E, R) ==> BreadthAll(V, E, Ascend(remaining), visited) == BreadthOrder(V, E, R)
      decreases remaining
    {
      var start := GetLowestValue(remaining);
      assert Lowest(remaining) == start;
      BreadthFromLowest(V, E, remaining, visited);
      if Separated(E, R) {
        SeparatedNotReached(V, E, R, Elems(launches), start);
      }
      LaunchNext(V, E, R, remaining, launches, visited, start);
      ghost var before := visited;
      newAdj, visited := BreadthFromRoot(V, E, newAdj, start, visited, Elems(launches + [start]));
      LaunchedStep(V, E, R, remaining, launches, before, start, visited);
      launches := launches + [start];
      var lowest := GetLowestValue(remaining);
      assert lowest == start;
      remaining := remaining - {lowest};
    }
    LaunchedAll(V, E, R, launches, visited);
  }
}
