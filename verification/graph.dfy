/**
  The graph itself: a vertex set, an edge set and an adjacency table, with the
  relation checks, the equivalence-class query, the root query and four
  traversals.  Vertices are integers ordered by `<=`; edges are compared by
  value.  Each method is specified by the definitions in graphspec.dfy.
*/
module Graphs {
  import opened Edges
  import opened Lists
  import opened GraphSpec
  import opened Orders
  import opened Traversals

  /**
    Builds the adjacency table: an empty list for each vertex, then, vertex by
    vertex and edge by edge, the destination of each edge leaving that vertex
    appended to its list.
  */
  method BuildAdjacency(V: set<int>, E: set<Edge>) returns (adj: map<int, seq<int>>)
    ensures AdjFaithful(V, E, adj)
  {
    adj := map v | v in V :: [];
    var pending := V;
    while pending != {}
      invariant pending <= V
      invariant adj.Keys == V
      invariant forall v :: v in V && v !in pending ==> multiset(adj[v]) == multiset(Successors(E, v))
      invariant forall v :: v in pending ==> adj[v] == []
      decreases pending
    {
      HasMember(pending);
      var vertex :| vertex in pending;
      var list := adj[vertex];
      var rest := E;
      ghost var scanned: set<Edge> := {};
      while rest != {}
        invariant rest <= E && scanned == E - rest
        invariant multiset(list) == multiset(Successors(scanned, vertex))
        decreases rest
      {
        HasEdge(rest);
        var edge :| edge in rest;
        SuccessorsAddEdge(scanned, edge, vertex);
        if edge.source == vertex {
          list := list + [edge.destination];
        }
        rest := rest - {edge};
        scanned := scanned + {edge};
      }
      assert scanned == E;
      adj := adj[vertex := list];
      pending := pending - {vertex};
    }
  }

  /**
    Whether some edge enters C from outside: an edge whose destination is in C
    and whose source is not.  Member by member of C, edge by edge.
  */
  method EnteredFromOutside(E: set<Edge>, C: set<int>) returns (entered: bool)
    ensures entered <==> !ClosedUnderPredecessors(E, C)
  {
    var pending := C;
    while pending != {}
      invariant pending <= C
      invariant forall e :: e in E && e.destination in C && e.destination !in pending ==> e.source in C
      decreases pending
    {
      HasMember(pending);
      var vert :| vert in pending;
      var rest := E;
      while rest != {}
        invariant rest <= E
        invariant forall e :: e in E && e.destination in C && e.destination !in pending ==> e.source in C
        invariant forall e :: e in E && e !in rest && e.destination == vert ==> e.source in C
        decreases rest
      {
        HasEdge(rest);
        var edge :| edge in rest;
        if edge.destination == vert && edge.source !in C {
          return true;
        }
        rest := rest - {edge};
      }
      pending := pending - {vert};
    }
    return false;
  }

  /** The edges with at least one end in C, collected member by member of C, edge by edge. */
  method EdgesTouching(E: set<Edge>, C: set<int>) returns (touching: set<Edge>)
    ensures forall e :: e in touching <==> e in E && (e.source in C || e.destination in C)
    ensures touching == Touching(E, C)
  {
    touching := {};
    var members := C;
    while members != {}
      invariant members <= C
      invariant forall e :: e in touching <==> e in E && ((e.source in C && e.source !in members) || (e.destination in C && e.destination !in members))
      decreases members
    {
      HasMember(members);
      var vert :| vert in members;
      var rest := E;
      while rest != {}
        invariant rest <= E
        invariant forall e :: e in touching <==>
          e in E && ((e.source in C && e.source !in members) || (e.destination in C && e.destination !in members)
                     || (e !in rest && (e.source == vert || e.destination == vert)))
        decreases rest
      {
        HasEdge(rest);
        var edge :| edge in rest;
        if edge.source == vert || edge.destination == vert {
          touching := touching + {edge};
        }
        rest := rest - {edge};
      }
      members := members - {vert};
    }
  }

  /**
    The vertices with no incoming edge and at least one outgoing edge: every
    edge's destination is struck off a copy of V, then each survivor that is
    the source of some edge is kept.
  */
  method ZeroInDegreeRootsOf(V: set<int>, E: set<Edge>) returns (roots: set<int>)
    ensures forall v :: v in roots <==> v in V && (forall e :: e in E ==> e.destination != v) && exists e :: e in E && e.source == v
    ensures roots == ZeroInDegreeRoots(V, E)
  {
    roots := {};
    var tempRoots := V;
    var rest := E;
    while rest != {}
      invariant rest <= E
      invariant forall v :: v in tempRoots <==> v in V && forall e :: e in E && e !in rest ==> e.destination != v
      decreases rest
    {
      HasEdge(rest);
      var edge :| edge in rest;
      tempRoots := tempRoots - {edge.destination};
      rest := rest - {edge};
    }

    var pending := tempRoots;
    while pending != {}
      invariant pending <= tempRoots
      invariant forall v :: v in roots <==> v in tempRoots && v !in pending && exists e :: e in E && e.source == v
      decreases pending
    {
      HasMember(pending);
      var temp :| temp in pending;
      var outgoing := E;
      while outgoing != {}
        invariant outgoing <= E
        invariant forall v :: v in roots <==>
          (v in tempRoots && v !in pending && exists e :: e in E && e.source == v)
          || (v == temp && exists e :: e in E && e !in outgoing && e.source == temp)
        decreases outgoing
      {
        HasEdge(outgoing);
        var edge :| edge in outgoing;
        if temp == edge.source {
          roots := roots + {temp};
        }
        outgoing := outgoing - {edge};
      }
      pending := pending - {temp};
    }
  }

  class Graph {
    var vertices: set<int>
    var edges: set<Edge>
    /** For each vertex, the destinations of the edges leaving it. */
    var adj: map<int, seq<int>>

    ghost predicate Valid()
      reads this
    {
      WellFormed(vertices, edges) && AdjFaithful(vertices, edges, adj)
    }

    constructor (vertices: set<int>, edges: set<Edge>)
      requires WellFormed(vertices, edges)
      ensures Valid()
      ensures this.vertices == vertices && this.edges == edges
    {
      var table := BuildAdjacency(vertices, edges);
      this.vertices := vertices;
      this.edges := edges;
      this.adj := table;
    }

    /** Counts the self-loops and compares the count with the number of vertices. */
    method IsReflexive() returns (b: bool)
      requires Valid()
      ensures b == ReflexiveByCount(vertices, edges)
      ensures b <==> Reflexive(vertices, edges)
    {
      var count := 0;
      var rest := edges;
      while rest != {}
        invariant rest <= edges
        invariant count == |SelfLoops(edges - rest)|
        decreases rest
      {
        HasEdge(rest);
        var edge :| edge in rest;
        if edge.source == edge.destination {
          count := count + 1;
        }
        SelfLoopsStep(edges, rest, edge);
        rest := rest - {edge};
      }
      assert edges - rest == edges;
      ReflexiveCountMeaning(vertices, edges);
      b := count == |vertices|;
    }

    /** Counts the ordered pairs of edges that run against each other and compares the count with the number of edges. */
    method IsSymmetric() returns (b: bool)
      requires Valid()
      ensures b == SymmetricByCount(edges)
      ensures b <==> Symmetric(edges)
    {
      var count := 0;
      var outer := edges;
      while outer != {}
        invariant outer <= edges
        invariant count == |ReversePairs(edges - outer, edges)|
        decreases outer
      {
        HasEdge(outer);
        var edge :| edge in outer;
        var inner := edges;
        while inner != {}
          invariant inner <= edges
          invariant count == |ReversePairs(edges - outer, edges)| + |ReversePairs({edge}, edges - inner)|
          decreases inner
        {
          HasEdge(inner);
          var edge2 :| edge2 in inner;
          if edge.source == edge2.destination && edge.destination == edge2.source {
            count := count + 1;
          }
          ReversePairsAddRight(edge, edges, inner, edge2);
          inner := inner - {edge2};
        }
        assert edges - inner == edges;
        ReversePairsAddLeft(edges, outer, edge);
        outer := outer - {edge};
      }
      assert edges - outer == edges;
      SymmetricCountMeaning(edges);
      b := count == |edges|;
    }

    /**
      For each vertex u and each successor v of u, checks that every successor
      of v is also a successor of u.
    */
    method IsTransitive() returns (b: bool)
      requires Valid()
      ensures b <==> Transitive(edges)
    {
      TransitiveAtEveryVertex(vertices, edges);
      var pending := vertices;
      while pending != {}
        invariant pending <= vertices
        invariant forall u :: u in vertices && u !in pending ==> TransitiveAt(edges, u)
        decreases pending
      {
        HasMember(pending);
        var vertex :| vertex in pending;
        var adjTemp := adj[vertex];
        var i := 0;
        while i < |adjTemp|
          invariant 0 <= i <= |adjTemp|
          invariant forall k, w :: 0 <= k < i && Edge(adjTemp[k], w) in edges ==> Edge(vertex, w) in edges
        {
          var next := adjTemp[i];
          AdjMember(vertices, edges, adj, vertex, next);
          var adjTemp2 := adj[next];
          var j := 0;
          while j < |adjTemp2|
            invariant 0 <= j <= |adjTemp2|
            invariant forall l :: 0 <= l < j ==> adjTemp2[l] in adjTemp
          {
            if adjTemp2[j] !in adjTemp {
              AdjMember(vertices, edges, adj, next, adjTemp2[j]);
              AdjMember(vertices, edges, adj, vertex, adjTemp2[j]);
              return false;
            }
            j := j + 1;
          }
          forall w | Edge(next, w) in edges ensures Edge(vertex, w) in edges {
            AdjMember(vertices, edges, adj, next, w);
            AdjMember(vertices, edges, adj, vertex, w);
          }
          i := i + 1;
        }
        forall v, w | Edge(vertex, v) in edges && Edge(v, w) in edges ensures Edge(vertex, w) in edges {
          AdjMember(vertices, edges, adj, vertex, v);
        }
        pending := pending - {vertex};
      }
      return true;
    }

    /** For each vertex u and each successor v of u, checks that v does not point back unless v is u. */
    method IsAntiSymmetric() returns (b: bool)
      requires Valid()
      ensures b <==> AntiSymmetric(edges)
    {
      var pending := vertices;
      while pending != {}
        invariant pending <= vertices
        invariant forall u, v :: u in vertices && u !in pending && Edge(u, v) in edges && Edge(v, u) in edges ==> u == v
        decreases pending
      {
        HasMember(pending);
        var vertex :| vertex in pending;
        var adjTemp := adj[vertex];
        var k := 0;
        while k < |adjTemp|
          invariant 0 <= k <= |adjTemp|
          invariant forall l :: 0 <= l < k ==> adjTemp[l] in vertices && (vertex in adj[adjTemp[l]] ==> vertex == adjTemp[l])
        {
          var temp := adjTemp[k];
          AdjMember(vertices, edges, adj, vertex, temp);
          if vertex in adj[temp] && vertex != temp {
            AdjMember(vertices, edges, adj, temp, vertex);
            return false;
          }
          k := k + 1;
        }
        forall v | Edge(vertex, v) in edges && Edge(v, vertex) in edges ensures vertex == v {
          AdjMember(vertices, edges, adj, vertex, v);
          AdjMember(vertices, edges, adj, v, vertex);
        }
        pending := pending - {vertex};
      }
      return true;
    }

    /** Reflexive, then symmetric, then transitive, stopping at the first check that fails. */
    method IsEquivalence() returns (b: bool)
      requires Valid()
      ensures b == Equivalence(vertices, edges)
      ensures b <==> Reflexive(vertices, edges) && Symmetric(edges) && Transitive(edges)
    {
      EquivalenceMeaning(vertices, edges);
      var reflexive := IsReflexive();
      if !reflexive {
        return false;
      }
      var symmetric := IsSymmetric();
      if !symmetric {
        return false;
      }
      b := IsTransitive();
    }

    /**
      Depth-first search from `vertex`, marking vertices as it goes.  `visited`
      holds the vertices already marked on entry; the result adds every vertex
      the search marks, and everything it adds is reachable from `vertex`.
    */
    method Dfs(vertex: int, visited: set<int>) returns (reached: set<int>)
      requires Valid()
      requires vertex in vertices && vertex !in visited && visited <= vertices
      ensures visited <= reached <= vertices && vertex in reached
      ensures forall e :: e in edges && e.source in reached - visited ==> e.destination in reached
      ensures forall w :: w in reached - visited ==> Reaches(edges, vertex, w)
      decreases vertices - visited
    {
      reached := visited + {vertex};
      ReachesItself(edges, vertex);
      var adjTemp := adj[vertex];
      var i := 0;
      while i < |adjTemp|
        invariant 0 <= i <= |adjTemp|
        invariant visited + {vertex} <= reached <= vertices
        invariant forall k :: 0 <= k < i ==> adjTemp[k] in reached
        invariant forall e :: e in edges && e.source in reached - visited && e.source != vertex ==> e.destination in reached
        invariant forall w :: w in reached - visited ==> Reaches(edges, vertex, w)
      {
        var next := adjTemp[i];
        AdjMember(vertices, edges, adj, vertex, next);
        if next !in reached {
          var more := Dfs(next, reached);
          forall w | w in more - reached ensures Reaches(edges, vertex, w) {
            StepThenReaches(edges, vertex, next, w);
          }
          reached := more;
        }
        i := i + 1;
      }
      forall e | e in edges && e.source == vertex ensures e.destination in reached {
        AdjMember(vertices, edges, adj, vertex, e.destination);
        assert e == Edge(vertex, e.destination);
      }
    }

    /**
      The equivalence class of `vertex`.  The search collects what `vertex`
      reaches; the class is rejected (empty) when an edge enters it from
      outside, or when the edges touching it do not pass the equivalence
      check.  For that check the graph is narrowed to the class, and it is
      put back only when the check passes: a class that fails it leaves the
      graph narrowed.
    */
    method GetEquivalenceClass(vertex: int) returns (equivClass: set<int>)
      requires Valid() && vertex in vertices
      modifies this
      ensures Valid()
      ensures equivClass == EquivalenceClass(old(vertices), old(edges), vertex)
      ensures var C := ReachSet(old(vertices), old(edges), vertex);
        if ClosedUnderPredecessors(old(edges), C) && !Equivalence(C, Touching(old(edges), C)) then
          vertices == C && edges == Touching(old(edges), C)
        else
          vertices == old(vertices) && edges == old(edges) && adj == old(adj)
    {
      var found := Dfs(vertex, {});
      ghost var V, E := vertices, edges;
      assert found == ReachSet(V, E, vertex) by {
        ReachSetFacts(V, E, vertex);
        ClosedContainsReach(V, E, found, {vertex});
      }

      // reject the class when an edge enters it from outside
      var entered := EnteredFromOutside(edges, found);
      if entered {
        assert EquivalenceClass(V, E, vertex) == {};
        return {};
      }

      var saveVert, saveEdge, saveAdj := vertices, edges, adj;
      var tempEdge := EdgesTouching(edges, found);
      NarrowedIsWellFormed(E, found);
      var table := BuildAdjacency(found, tempEdge);
      vertices, edges, adj := found, tempEdge, table;

      var equivalence := IsEquivalence();
      if !equivalence {
        assert EquivalenceClass(V, E, vertex) == {};
        return {};
      }
      assert EquivalenceClass(V, E, vertex) == found;
      vertices, edges, adj := saveVert, saveEdge, saveAdj;
      return found;
    }

    /**
      The roots the traversals start from: every vertex with no incoming edge
      and at least one outgoing edge, and, when the whole graph is an
      equivalence, the lowest member of each vertex's non-empty class.
    */
    method GetRoots() returns (roots: set<int>)
      requires Valid()
      modifies this
      ensures Valid()
      ensures vertices == old(vertices) && edges == old(edges) && adj == old(adj)
      ensures roots == RootsOf(vertices, edges)
    {
      roots := ZeroInDegreeRootsOf(vertices, edges);
      var equivalence := IsEquivalence();
      if !equivalence {
        return;
      }

      var lows := ClassLowestValues();
      roots := roots + lows;
    }

    /**
      The second half of the root query, on an equivalence graph: for each
      vertex, its class is asked for and, when non-empty, its lowest member is
      collected.  No class of an equivalence graph is rejected, so the graph
      comes back unchanged from every query.
    */
    method ClassLowestValues() returns (lows: set<int>)
      requires Valid() && Equivalence(vertices, edges)
      modifies this
      ensures Valid()
      ensures vertices == old(vertices) && edges == old(edges) && adj == old(adj)
      ensures lows == ClassLows(vertices, edges, vertices)
    {
      lows := {};
      ghost var V, E, A := vertices, edges, adj;
      ghost var done: set<int> := {};
      assert ClassLows(V, E, done) == {};
      var remaining := vertices;
      while remaining != {}
        invariant remaining <= V && done == V - remaining
        invariant Valid() && vertices == V && edges == E && adj == A
        invariant lows == ClassLows(V, E, done)
        decreases remaining
      {
        HasMember(remaining);
        var vertex :| vertex in remaining;
        EquivalenceGraphClass(V, E, vertex);
        var equivClass := GetEquivalenceClass(vertex);
        ClassLowsAdd(V, E, done, vertex);
        if equivClass != {} {
          var lowest := GetLowestValue(equivClass);
          assert lowest == Lowest(equivClass);
          lows := lows + {lowest};
        }
        TakeOneMore(V, remaining, vertex);
        remaining := remaining - {vertex};
        done := done + {vertex};
      }
      assert V - remaining == V;
    }

    /**
      Breadth-first search from each root in ascending order, with the
      neighbours of each vertex taken in ascending order and each vertex
      marked when it is queued: the order `BreadthOrder` defines.  A root is
      appended at the start of its search even when an earlier search reached
      it; no root of the graph reaches another, so that never happens here and
      no vertex is visited twice.  `launches` records the roots in the order
      the searches start from them.
    */
    method IterativeBreadthFirstSearch() returns (visited: seq<int>, ghost launches: seq<int>)
      requires Valid()
      modifies this
      ensures Valid() && vertices == old(vertices) && edges == old(edges)
      ensures StrictlyAscending(launches) && Elems(launches) == RootsOf(vertices, edges)
      ensures visited == BreadthOrder(vertices, edges, RootsOf(vertices, edges))
      ensures Elems(visited) == ReachFromAll(vertices, edges, RootsOf(vertices, edges))
      ensures NoDuplicates(visited)
      ensures forall v :: v in visited ==> v in vertices && Ascending(adj[v])
      ensures forall v :: v in vertices && v !in visited ==> adj[v] == old(adj[v])
    {
      var roots := GetRoots();
      RootsAreVertices(vertices, edges);
      RootsSeparated(vertices, edges);
      var table;
      table, visited, launches := IterativeBreadth(vertices, edges, adj, roots);
      adj := table;
    }

    /**
      Depth-first search from each root in ascending order, with a stack:
      a vertex popped for the first time is visited, its neighbour list is
      sorted and reversed in place, and its unvisited neighbours are pushed,
      so the lowest is popped next: the order `DepthOrder` defines.  No
      vertex is visited twice.
    */
    method IterativeDepthFirstSearch() returns (visited: seq<int>, ghost launches: seq<int>)
      requires Valid()
      modifies this
      ensures Valid() && vertices == old(vertices) && edges == old(edges)
      ensures StrictlyAscending(launches) && Elems(launches) == RootsOf(vertices, edges)
      ensures visited == DepthOrder(vertices, edges, RootsOf(vertices, edges))
      ensures Elems(visited) == ReachFromAll(vertices, edges, RootsOf(vertices, edges))
      ensures NoDuplicates(visited)
      ensures forall v :: v in visited ==> v in vertices && Descending(adj[v])
      ensures forall v :: v in vertices && v !in visited ==> adj[v] == old(adj[v])
    {
      var roots := GetRoots();
      RootsAreVertices(vertices, edges);
      var table;
      table, visited, launches := IterativeDepth(vertices, edges, adj, roots);
      adj := table;
    }

    /**
      Breadth-first search from each root in ascending order, written as a
      recursion that visits a vertex, queues its unvisited neighbours and
      recurses on the head of the queue.  The step here drains the queue
      past vertices already visited; see `AsWrittenMissesReachableVertex`
      for the step that stops at the first of them.  Though it marks a
      vertex only when it takes it off the queue, it visits in the order of
      the iterative search, because no root of the graph reaches another.
    */
    method RecursiveBreadthFirstSearch() returns (visited: seq<int>, ghost launches: seq<int>)
      requires Valid()
      modifies this
      ensures Valid() && vertices == old(vertices) && edges == old(edges)
      ensures StrictlyAscending(launches) && Elems(launches) == RootsOf(vertices, edges)
      ensures visited == BreadthOrder(vertices, edges, RootsOf(vertices, edges))
      ensures Elems(visited) == ReachFromAll(vertices, edges, RootsOf(vertices, edges))
      ensures NoDuplicates(visited)
      ensures forall v :: v in visited ==> v in vertices && Ascending(adj[v])
      ensures forall v :: v in vertices && v !in visited ==> adj[v] == old(adj[v])
    {
      var roots := GetRoots();
      RootsAreVertices(vertices, edges);
      var table;
      RootsSeparated(vertices, edges);
      table, visited, launches := RecursiveBreadth(vertices, edges, adj, roots);
      adj := table;
    }

    /**
      Depth-first search from each root in ascending order, written as a
      recursion into the neighbours of each vertex in ascending order.  It
      visits in the order of the iterative search.
    */
    method RecursiveDepthFirstSearch() returns (visited: seq<int>, ghost launches: seq<int>)
      requires Valid()
      modifies this
      ensures Valid() && vertices == old(vertices) && edges == old(edges)
      ensures StrictlyAscending(launches) && Elems(launches) == RootsOf(vertices, edges)
      ensures visited == DepthOrder(vertices, edges, RootsOf(vertices, edges))
      ensures Elems(visited) == ReachFromAll(vertices, edges, RootsOf(vertices, edges))
      ensures NoDuplicates(visited)
      ensures forall v :: v in visited ==> v in vertices && Ascending(adj[v])
      ensures forall v :: v in vertices && v !in visited ==> adj[v] == old(adj[v])
    {
      var roots := GetRoots();
      RootsAreVertices(vertices, edges);
      var table;
      table, visited, launches := RecursiveDepth(vertices, edges, adj, roots);
      adj := table;
    }
  }
}
