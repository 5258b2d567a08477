/**
  The order in which each kind of search visits the vertices, defined on the
  vertex set V and the edge set E alone.  The neighbours of a vertex are
  taken in ascending order.  The depth-first order descends into each
  neighbour in turn; the breadth-first order marks vertices as they are
  queued.  The traversals in traversal.dfy are proved to return these lists,
  whichever way they are written.
*/
module Orders {
  import opened Edges
  import opened Lists
  import opened GraphSpec

  /** The members of a set, in ascending order. */
  ghost function Ascend(s: set<int>): (r: seq<int>)
    ensures StrictlyAscending(r)
    ensures forall x :: x in r <==> x in s
    decreases s
  {
    if s == {} then []
    else
      var m := Lowest(s);
      var rest := Ascend(s - {m});
      assert forall j :: 0 <= j < |rest| ==> m < rest[j] by {
        forall j | 0 <= j < |rest| ensures m < rest[j] {
          assert rest[j] in s - {m};
        }
      }
      [m] + rest
  }

  /** Each member of the set appears exactly once in its ascending listing. */
  lemma {:induction false} AscendCounts(s: set<int>)
    ensures multiset(Ascend(s)) == multiset(s)
    decreases s
  {
    if s != {} {
      var m := Lowest(s);
      AscendCounts(s - {m});
      assert Ascend(s) == [m] + Ascend(s - {m});
      assert multiset(s) == multiset{m} + multiset(s - {m});
    }
  }

  /** The neighbours of u, in ascending order. */
  ghost function Neighbours(E: set<Edge>, u: int): (r: seq<int>)
    ensures StrictlyAscending(r)
    ensures forall w :: w in r <==> Edge(u, w) in E
    ensures multiset(r) == multiset(Successors(E, u))
  {
    assert forall w :: w in Successors(E, u) <==> Edge(u, w) in E by {
      forall w ensures w in Successors(E, u) <==> Edge(u, w) in E {
        SuccessorsMember(E, u, w);
      }
    }
    AscendCounts(Successors(E, u));
    Ascend(Successors(E, u))
  }

  /** In a well-formed graph the neighbours of a vertex are vertices. */
  lemma NeighboursInside(V: set<int>, E: set<Edge>, u: int)
    requires WellFormed(V, E)
    ensures forall w :: w in Neighbours(E, u) ==> w in V
  {
    forall w | w in Neighbours(E, u) ensures w in V {
      assert Edge(u, w) in E;
    }
  }

  /**
    A neighbour list of a faithful table, once it is ascending, is the
    ascending list of neighbours: sorting it leaves no choice.
  */
  lemma SortedIsNeighbours(V: set<int>, E: set<Edge>, adj: map<int, seq<int>>, u: int, list: seq<int>)
    requires AdjFaithful(V, E, adj) && u in V
    requires Ascending(list) && multiset(list) == multiset(adj[u])
    ensures list == Neighbours(E, u)
  {
    AscendingUnique(list, Neighbours(E, u));
  }

  // ---------------------------------------------------------------------
  // Depth-first order

  /**
    The depth-first visit from u after the vertices of `visited`: nothing
    when u is already visited; otherwise u, then the visits from each of its
    neighbours in ascending order.
  */
  ghost function DepthVisit(V: set<int>, E: set<Edge>, u: int, visited: seq<int>): (r: seq<int>)
    requires WellFormed(V, E) && u in V
    ensures |r| >= |visited| && r[..|visited|] == visited
    ensures Elems(visited) <= Elems(r)
    decreases V - Elems(visited), 0
  {
    if u in visited then visited
    else
      var next := visited + [u];
      assert Elems(next) == Elems(visited) + {u};
      NeighboursInside(V, E, u);
      var r := DepthVisitAll(V, E, Neighbours(E, u), next);
      PrefixOfPrefix(visited, next, r);
      r
  }

  /** The depth-first visits from each member of `list` in turn. */
  ghost function DepthVisitAll(V: set<int>, E: set<Edge>, list: seq<int>, visited: seq<int>): (r: seq<int>)
    requires WellFormed(V, E) && forall x :: x in list ==> x in V
    ensures |r| >= |visited| && r[..|visited|] == visited
    ensures Elems(visited) <= Elems(r)
    decreases V - Elems(visited), 1, |list|
  {
    if list == [] then visited
    else
      var next := DepthVisit(V, E, list[0], visited);
      var r := DepthVisitAll(V, E, list[1..], next);
      PrefixOfPrefix(visited, next, r);
      r
  }

  /** The depth-first traversal: the visits from each root in ascending order. */
  ghost function DepthOrder(V: set<int>, E: set<Edge>, roots: set<int>): seq<int>
    requires WellFormed(V, E) && roots <= V
  {
    DepthVisitAll(V, E, Ascend(roots), [])
  }

  /** The visits from the roots left: those from the lowest of them, then from the others. */
  lemma DepthFromLowest(V: set<int>, E: set<Edge>, roots: set<int>, visited: seq<int>)
    requires WellFormed(V, E) && roots <= V && roots != {}
    ensures var m := Lowest(roots);
      DepthVisitAll(V, E, Ascend(roots), visited) == DepthVisitAll(V, E, Ascend(roots - {m}), DepthVisit(V, E, m, visited))
  {
    var m := Lowest(roots);
    var rest := Ascend(roots - {m});
    assert Ascend(roots) == [m] + rest;
    assert ([m] + rest)[0] == m && ([m] + rest)[1..] == rest;
  }

  /** Visiting from the members of a concatenation is visiting from each part in turn. */
  lemma {:induction false} DepthVisitAllConcat(V: set<int>, E: set<Edge>, a: seq<int>, b: seq<int>, visited: seq<int>)
    requires WellFormed(V, E) && (forall x :: x in a ==> x in V) && (forall x :: x in b ==> x in V)
    ensures DepthVisitAll(V, E, a + b, visited) == DepthVisitAll(V, E, b, DepthVisitAll(V, E, a, visited))
    decreases |a|
  {
    if a == [] {
      assert a + b == b;
    } else {
      assert (a + b)[0] == a[0] && (a + b)[1..] == a[1..] + b;
      DepthVisitAllConcat(V, E, a[1..], b, DepthVisit(V, E, a[0], visited));
    }
  }

  /**
    Visiting from a list with the members of `part` dropped is visiting from
    the whole list, when `part` is already visited: a visit from a visited
    vertex adds nothing.
  */
  lemma {:induction false} DepthVisitAllOutside(V: set<int>, E: set<Edge>, list: seq<int>, part: seq<int>, visited: seq<int>)
    requires WellFormed(V, E) && forall x :: x in list ==> x in V
    requires forall x :: x in part ==> x in visited
    ensures DepthVisitAll(V, E, Outside(list, part), visited) == DepthVisitAll(V, E, list, visited)
    decreases |list|
  {
    if list != [] {
      var x := list[0];
      var rest := list[1..];
      assert list == [x] + rest;
      OutsideCons(x, rest, part);
      var next := DepthVisit(V, E, x, visited);
      if x in part {
        DepthVisitAllOutside(V, E, rest, part, visited);
      } else {
        var o := Outside(rest, part);
        assert ([x] + o)[0] == x && ([x] + o)[1..] == o;
        PartStaysInside(V, E, x, part, visited);
        DepthVisitAllOutside(V, E, rest, part, next);
      }
    }
  }

  /** What a visit started with is still there when it ends. */
  lemma PartStaysInside(V: set<int>, E: set<Edge>, x: int, part: seq<int>, visited: seq<int>)
    requires WellFormed(V, E) && x in V
    requires forall y :: y in part ==> y in visited
    ensures forall y :: y in part ==> y in DepthVisit(V, E, x, visited)
  {
    forall y | y in part ensures y in DepthVisit(V, E, x, visited) {
      assert y in Elems(visited);
    }
  }

  /**
    One pop of a stack search, as the depth-first order sees it.  The stack
    has its top at the end.  Popping u, visiting it and pushing its
    neighbours not yet visited, in descending order, leaves the visits still
    to come from the stack as they were; so does popping a visited u.
  */
  lemma DepthPop(V: set<int>, E: set<Edge>, rest: seq<int>, u: int, visited: seq<int>)
    requires WellFormed(V, E) && u in V && forall x :: x in rest ==> x in V
    ensures DepthVisitAll(V, E, Reversed(rest + [u]), visited) == DepthVisitAll(V, E, Reversed(rest), DepthVisit(V, E, u, visited))
    ensures u !in visited ==>
      var next := visited + [u];
      var pushed := rest + Outside(Reversed(Neighbours(E, u)), next);
      (forall x :: x in pushed ==> x in V) &&
      DepthVisitAll(V, E, Reversed(pushed), next) == DepthVisitAll(V, E, Reversed(rest), DepthVisit(V, E, u, visited))
  {
    assert (rest + [u])[..|rest + [u]| - 1] == rest;
    NeighboursInside(V, E, u);
    if u !in visited {
      var next := visited + [u];
      var N := Neighbours(E, u);
      var pushedPart := Outside(Reversed(N), next);
      ReversedConcat(rest, pushedPart);
      ReversedOutside(Reversed(N), next);
      ReversedTwice(N);
      DepthVisitAllConcat(V, E, Outside(N, next), Reversed(rest), next);
      DepthVisitAllOutside(V, E, N, next, next);
    }
  }

  // ---------------------------------------------------------------------
  // Breadth-first order

  /**
    The breadth-first visit list grown from `queue` after the vertices of
    `visited`, with vertices marked as they are queued: the head of the
    queue is taken off, and each of its neighbours not yet visited, in
    ascending order, is queued and marked.
  */
  ghost function BreadthRun(V: set<int>, E: set<Edge>, queue: seq<int>, visited: seq<int>): (r: seq<int>)
    requires WellFormed(V, E) && forall x :: x in queue ==> x in V
    ensures |r| >= |visited| && r[..|visited|] == visited
    decreases V - Elems(visited), |queue|
  {
    if queue == [] then visited
    else
      var next := Unvisited(Neighbours(E, queue[0]), visited);
      NeighboursInside(V, E, queue[0]);
      assert next == [] ==> visited + next == visited;
      assert next != [] ==> next[0] in V && next[0] in Elems(visited + next) && next[0] !in Elems(visited);
      assert Elems(visited) <= Elems(visited + next);
      var r := BreadthRun(V, E, queue[1..] + next, visited + next);
      PrefixOfPrefix(visited, visited + next, r);
      r
  }

  /** One breadth-first search from each start in turn; a start is appended even when already visited. */
  ghost function BreadthAll(V: set<int>, E: set<Edge>, starts: seq<int>, visited: seq<int>): seq<int>
    requires WellFormed(V, E) && forall x :: x in starts ==> x in V
  {
    if starts == [] then visited
    else BreadthAll(V, E, starts[1..], BreadthRun(V, E, [starts[0]], visited + [starts[0]]))
  }

  /** The breadth-first traversal: a search from each root in ascending order. */
  ghost function BreadthOrder(V: set<int>, E: set<Edge>, roots: set<int>): seq<int>
    requires WellFormed(V, E) && roots <= V
  {
    BreadthAll(V, E, Ascend(roots), [])
  }

  /** The searches from the roots left: the one from the lowest of them, then those from the others. */
  lemma BreadthFromLowest(V: set<int>, E: set<Edge>, roots: set<int>, visited: seq<int>)
    requires WellFormed(V, E) && roots <= V && roots != {}
    ensures var m := Lowest(roots);
      BreadthAll(V, E, Ascend(roots), visited) == BreadthAll(V, E, Ascend(roots - {m}), BreadthRun(V, E, [m], visited + [m]))
  {
    var m := Lowest(roots);
    var rest := Ascend(roots - {m});
    assert Ascend(roots) == [m] + rest;
    assert ([m] + rest)[0] == m && ([m] + rest)[1..] == rest;
  }

  /**
    A search that marks vertices only when it takes them off the queue,
    queueing the neighbours not yet marked (repeats and all), and skipping a
    vertex it finds marked, visits in breadth-first order: with u about to be
    taken and `queue` behind it, it ends where the marking-on-queueing run
    from the new members of [u] + queue ends.  Here u is new, and is marked
    and its neighbours queued.
  */
  lemma BreadthVisitMarked(V: set<int>, E: set<Edge>, u: int, visited: seq<int>, queue: seq<int>)
    requires WellFormed(V, E) && u in V && u !in visited && forall x :: x in queue ==> x in V
    ensures var p := Unvisited([u] + queue, visited);
      var p' := Unvisited(queue + Outside(Neighbours(E, u), visited + [u]), visited + [u]);
      BreadthRun(V, E, p, visited + p) == BreadthRun(V, E, p', visited + [u] + p')
  {
    var next := visited + [u];
    var N := Neighbours(E, u);
    NeighboursInside(V, E, u);
    var q1 := Unvisited(queue, next);
    var p := Unvisited([u] + queue, visited);
    var p' := Unvisited(queue + Outside(N, next), next);
    var nx := Unvisited(N, next + q1);
    UnvisitedCons(u, queue, visited);
    Associative(visited, [u], q1);
    BreadthRunHead(V, E, u, q1, next + q1);
    UnvisitedAfterQueueing(queue, N, next);
    Associative(next, q1, nx);
  }

  /**
    One step of the search that marks on taking: u taken off with `queue`
    behind it, skipped when marked, else marked with its neighbours not yet
    marked queued, leaves the marking-on-queueing run where it was.
  */
  lemma BreadthTakeStep(V: set<int>, E: set<Edge>, u: int, visited: seq<int>, queue: seq<int>, vis: seq<int>, q: seq<int>)
    requires WellFormed(V, E) && u in V && forall x :: x in queue ==> x in V
    requires u in visited ==> vis == visited && q == queue
    requires u !in visited ==> vis == visited + [u] && q == queue + Outside(Neighbours(E, u), visited + [u])
    ensures forall x :: x in q ==> x in V
    ensures var p := Unvisited([u] + queue, visited);
      var p' := Unvisited(q, vis);
      BreadthRun(V, E, p, visited + p) == BreadthRun(V, E, p', vis + p')
  {
    NeighboursInside(V, E, u);
    if u in visited {
      BreadthSkipMarked(u, visited, queue);
    } else {
      BreadthVisitMarked(V, E, u, visited, queue);
    }
  }

  /** A search from a single new start is the marking-on-queueing run from it alone. */
  lemma BreadthFromSingle(V: set<int>, E: set<Edge>, start: int, visited: seq<int>, r: seq<int>)
    requires WellFormed(V, E) && start in V && start !in visited
    requires r == BreadthRun(V, E, Unvisited([start] + [], visited), visited + Unvisited([start] + [], visited))
    ensures r == BreadthRun(V, E, [start], visited + [start])
  {
    UnvisitedSingle(start, visited);
  }

  /** The run from a queue with u at its head goes on from the rest of the queue and u's new neighbours. */
  lemma BreadthRunHead(V: set<int>, E: set<Edge>, u: int, rest: seq<int>, visited: seq<int>)
    requires WellFormed(V, E) && u in V && forall x :: x in rest ==> x in V
    ensures var nx := Unvisited(Neighbours(E, u), visited);
      && (forall x :: x in rest + nx ==> x in V)
      && BreadthRun(V, E, [u] + rest, visited) == BreadthRun(V, E, rest + nx, visited + nx)
  {
    NeighboursInside(V, E, u);
    assert ([u] + rest)[0] == u && ([u] + rest)[1..] == rest;
  }

  /**
    Queueing the neighbours outside `visited` behind `queue`, and then taking
    the new members once each, gives the new members of `queue` and then the
    neighbours new to both.
  */
  lemma UnvisitedAfterQueueing(queue: seq<int>, N: seq<int>, visited: seq<int>)
    ensures Unvisited(queue + Outside(N, visited), visited)
         == Unvisited(queue, visited) + Unvisited(N, visited + Unvisited(queue, visited))
  {
    UnvisitedAppend(queue, Outside(N, visited), visited);
    UnvisitedOfOutside(N, visited, visited + Unvisited(queue, visited));
  }

  /** The same, when u is already marked: it is skipped. */
  lemma BreadthSkipMarked(u: int, visited: seq<int>, queue: seq<int>)
    requires u in visited
    ensures Unvisited([u] + queue, visited) == Unvisited(queue, visited)
  {
    UnvisitedCons(u, queue, visited);
  }
}
