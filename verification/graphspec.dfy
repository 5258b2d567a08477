/**
  What the graph's operations compute, stated over the vertex set V and the
  edge set E alone: the adjacency table, the counting forms of the relation
  checks and what they mean, reachability, equivalence classes and roots.
  The class in graph.dfy is specified by these definitions.
*/
module GraphSpec {
  import opened Edges
  import opened Lists

  /** A non-empty set of edges has an edge to pick. */
  lemma HasEdge(E: set<Edge>)
    requires E != {}
    ensures exists e :: e in E
  {
    if forall e :: e !in E {
      assert false;
    }
  }

  lemma SubsetOfSameSize<T>(A: set<T>, B: set<T>)
    requires A <= B && |A| == |B|
    ensures A == B
  {
    assert |B - A| == |B| - |A|;
  }

  // ---------------------------------------------------------------------
  // Vertices, edges and the adjacency table

  /** Every edge starts and ends at a vertex of the graph. */
  ghost predicate WellFormed(V: set<int>, E: set<Edge>)
  {
    forall e :: e in E ==> e.source in V && e.destination in V
  }

  /** The destinations of the edges that leave `u`. */
  ghost function Successors(E: set<Edge>, u: int): set<int>
  {
    set e | e in E && e.source == u :: e.destination
  }

  lemma SuccessorsMember(E: set<Edge>, u: int, w: int)
    ensures w in Successors(E, u) <==> Edge(u, w) in E
  {
    if Edge(u, w) in E {
      assert Edge(u, w).source == u;
    }
  }

  /** Scanning one more edge adds its destination to the successors of its source, and to nobody else's. */
  lemma SuccessorsAddEdge(E: set<Edge>, e: Edge, u: int)
    requires e !in E
    ensures multiset(Successors(E + {e}, u))
         == multiset(Successors(E, u)) + if e.source == u then multiset{e.destination} else multiset{}
  {
    if e.source == u {
      assert Successors(E + {e}, u) == Successors(E, u) + {e.destination};
      SuccessorsMember(E, u, e.destination);
      assert e == Edge(u, e.destination);
      assert e.destination !in Successors(E, u);
    } else {
      assert Successors(E + {e}, u) == Successors(E, u);
    }
  }

  /**
    The adjacency table has one list per vertex, and the list of `v` holds the
    destinations of the edges leaving `v`, each exactly once, in any order.
  */
  ghost predicate AdjFaithful(V: set<int>, E: set<Edge>, adj: map<int, seq<int>>)
  {
    adj.Keys == V &&
    forall v :: v in adj ==> multiset(adj[v]) == multiset(Successors(E, v))
  }

  lemma AdjMember(V: set<int>, E: set<Edge>, adj: map<int, seq<int>>, u: int, w: int)
    requires AdjFaithful(V, E, adj) && u in V
    ensures w in adj[u] <==> Edge(u, w) in E
  {
    SuccessorsMember(E, u, w);
    assert w in adj[u] <==> w in multiset(adj[u]);
  }

  lemma {:induction false} SingleCountsMeanNoDuplicates(s: seq<int>)
    requires forall x :: multiset(s)[x] <= 1
    ensures NoDuplicates(s)
  {
    if s != [] {
      var t := s[1..];
      assert s == [s[0]] + t;
      assert multiset(s) == multiset{s[0]} + multiset(t);
      forall x ensures multiset(t)[x] <= 1 {
        assert multiset(t)[x] <= multiset(s)[x];
      }
      SingleCountsMeanNoDuplicates(t);
      assert multiset(s)[s[0]] <= 1;
      assert multiset(t)[s[0]] == 0;
      forall i, j | 0 <= i < j < |s| ensures s[i] != s[j] {
        if i > 0 {
          assert s[i] == t[i - 1] && s[j] == t[j - 1];
        } else {
          assert s[j] == t[j - 1];
          assert s[j] in multiset(t);
        }
      }
    }
  }

  /** No neighbour list of a faithful table repeats a vertex. */
  lemma AdjListsHaveNoDuplicates(V: set<int>, E: set<Edge>, adj: map<int, seq<int>>, u: int)
    requires AdjFaithful(V, E, adj) && u in V
    ensures NoDuplicates(adj[u])
  {
    forall x ensures multiset(adj[u])[x] <= 1 {
      assert multiset(Successors(E, u))[x] <= 1;
    }
    SingleCountsMeanNoDuplicates(adj[u]);
  }

  // ---------------------------------------------------------------------
  // Relation checks: the counting form the graph computes, and its meaning

  /** The edges that are self-loops. */
  ghost function SelfLoops(E: set<Edge>): set<Edge>
  {
    set e | e in E && e.source == e.destination
  }

  /** Scanning one more edge adds one to the self-loop count exactly when that edge is a self-loop. */
  lemma SelfLoopsStep(E: set<Edge>, rest: set<Edge>, edge: Edge)
    requires rest <= E && edge in rest
    ensures |SelfLoops(E - (rest - {edge}))| == |SelfLoops(E - rest)| + if edge.source == edge.destination then 1 else 0
  {
    assert E - (rest - {edge}) == (E - rest) + {edge};
    if edge.source == edge.destination {
      assert SelfLoops(E - (rest - {edge})) == SelfLoops(E - rest) + {edge};
    } else {
      assert SelfLoops(E - (rest - {edge})) == SelfLoops(E - rest);
    }
  }

  /** Reflexivity as the graph checks it: as many self-loops as vertices. */
  ghost predicate ReflexiveByCount(V: set<int>, E: set<Edge>)
  {
    |SelfLoops(E)| == |V|
  }

  /** Every vertex has a self-loop. */
  ghost predicate Reflexive(V: set<int>, E: set<Edge>)
  {
    forall v :: v in V ==> Edge(v, v) in E
  }

  lemma {:induction false} LoopImageSize(L: set<int>)
    ensures |set v | v in L :: Edge(v, v)| == |L|
  {
    if L != {} {
      HasMember(L);
      var x :| x in L;
      LoopImageSize(L - {x});
      assert (set v | v in L :: Edge(v, v)) == (set v | v in L - {x} :: Edge(v, v)) + {Edge(x, x)};
    }
  }

  /** With edges unique by value and inside V, counting self-loops is the same as checking each vertex. */
  lemma ReflexiveCountMeaning(V: set<int>, E: set<Edge>)
    requires WellFormed(V, E)
    ensures ReflexiveByCount(V, E) <==> Reflexive(V, E)
  {
    var looped := set v | v in V && Edge(v, v) in E;
    assert SelfLoops(E) == set v | v in looped :: Edge(v, v) by {
      forall e | e in SelfLoops(E) ensures e in set v | v in looped :: Edge(v, v) {
        assert e == Edge(e.source, e.source);
      }
    }
    LoopImageSize(looped);
    if |looped| == |V| {
      SubsetOfSameSize(looped, V);
      assert forall v :: v in V ==> v in looped;
    }
    if Reflexive(V, E) {
      assert looped == V;
    }
  }

  /**
    The ordered pairs (e, f) of edges from A and B in which f runs against e:
    f's destination is e's source and f's source is e's destination.
  */
  ghost function ReversePairs(A: set<Edge>, B: set<Edge>): set<(Edge, Edge)>
  {
    set e, f | e in A && f in B && e.source == f.destination && e.destination == f.source :: (e, f)
  }

  /** Scanning one more inner edge f adds the pair (e, f) exactly when f runs against e. */
  lemma ReversePairsAddRight(e: Edge, E: set<Edge>, inner: set<Edge>, f: Edge)
    requires inner <= E && f in inner
    ensures |ReversePairs({e}, E - (inner - {f}))|
         == |ReversePairs({e}, E - inner)| + if e.source == f.destination && e.destination == f.source then 1 else 0
  {
    var B := E - inner;
    assert E - (inner - {f}) == B + {f};
    if e.source == f.destination && e.destination == f.source {
      assert ReversePairs({e}, B + {f}) == ReversePairs({e}, B) + {(e, f)};
    } else {
      assert ReversePairs({e}, B + {f}) == ReversePairs({e}, B);
    }
  }

  /** Finishing one more outer edge e adds all the pairs that start with e. */
  lemma ReversePairsAddLeft(E: set<Edge>, outer: set<Edge>, e: Edge)
    requires outer <= E && e in outer
    ensures |ReversePairs(E - (outer - {e}), E)| == |ReversePairs(E - outer, E)| + |ReversePairs({e}, E)|
  {
    var A := E - outer;
    assert E - (outer - {e}) == A + {e};
    assert ReversePairs(A + {e}, E) == ReversePairs(A, E) + ReversePairs({e}, E);
    assert ReversePairs(A, E) * ReversePairs({e}, E) == {};
  }

  /** Symmetry as the graph checks it: as many reverse pairs as edges. */
  ghost predicate SymmetricByCount(E: set<Edge>)
  {
    |ReversePairs(E, E)| == |E|
  }

  /** Every edge has its reverse. */
  ghost predicate Symmetric(E: set<Edge>)
  {
    forall e :: e in E ==> e.Flipped() in E
  }

  lemma {:induction false} PairImageSize(H: set<Edge>)
    ensures |set e | e in H :: (e, e.Flipped())| == |H|
  {
    if H != {} {
      HasEdge(H);
      var x :| x in H;
      PairImageSize(H - {x});
      assert (set e | e in H :: (e, e.Flipped())) == (set e | e in H - {x} :: (e, e.Flipped())) + {(x, x.Flipped())};
    }
  }

  /** With edges unique by value, each edge has at most one reverse, so the count equals |E| iff every edge has one. */
  lemma SymmetricCountMeaning(E: set<Edge>)
    ensures SymmetricByCount(E) <==> Symmetric(E)
  {
    var reversed := set e | e in E && e.Flipped() in E;
    assert ReversePairs(E, E) == set e | e in reversed :: (e, e.Flipped()) by {
      forall p | p in ReversePairs(E, E) ensures p in set e | e in reversed :: (e, e.Flipped()) {
        assert p.1 == p.0.Flipped();
      }
    }
    PairImageSize(reversed);
    if |reversed| == |E| {
      SubsetOfSameSize(reversed, E);
      assert forall e :: e in E ==> e in reversed;
    }
    if Symmetric(E) {
      assert reversed == E;
    }
  }

  /** One-hop transitivity: u -> v and v -> w give u -> w. */
  ghost predicate Transitive(E: set<Edge>)
  {
    forall u, v, w :: Edge(u, v) in E && Edge(v, w) in E ==> Edge(u, w) in E
  }

  /** Transitivity at one vertex u: whatever a successor of u points at, u points at too. */
  ghost predicate TransitiveAt(E: set<Edge>, u: int)
  {
    forall v, w :: Edge(u, v) in E && Edge(v, w) in E ==> Edge(u, w) in E
  }

  lemma TransitiveAtEveryVertex(V: set<int>, E: set<Edge>)
    requires WellFormed(V, E)
    ensures Transitive(E) <==> forall u :: u in V ==> TransitiveAt(E, u)
  {
    if forall u :: u in V ==> TransitiveAt(E, u) {
      forall u, v, w | Edge(u, v) in E && Edge(v, w) in E ensures Edge(u, w) in E {
        assert TransitiveAt(E, u);
      }
    }
  }

  /** No two distinct vertices point at each other. */
  ghost predicate AntiSymmetric(E: set<Edge>)
  {
    forall u, v :: Edge(u, v) in E && Edge(v, u) in E ==> u == v
  }

  /** Equivalence as the graph checks it: the three checks, in their counting forms. */
  ghost predicate Equivalence(V: set<int>, E: set<Edge>)
  {
    ReflexiveByCount(V, E) && SymmetricByCount(E) && Transitive(E)
  }

  /** On a well-formed graph the equivalence check decides whether the edge relation is an equivalence relation on V. */
  lemma EquivalenceMeaning(V: set<int>, E: set<Edge>)
    requires WellFormed(V, E)
    ensures Equivalence(V, E) <==> Reflexive(V, E) && Symmetric(E) && Transitive(E)
  {
    ReflexiveCountMeaning(V, E);
    SymmetricCountMeaning(E);
  }

  // ---------------------------------------------------------------------
  // Reachability

  ghost predicate IsPath(E: set<Edge>, p: seq<int>)
  {
    |p| > 0 && forall i :: 0 <= i < |p| - 1 ==> Edge(p[i], p[i + 1]) in E
  }

  /** There is a path of zero or more edges from u to w. */
  ghost predicate Reaches(E: set<Edge>, u: int, w: int)
  {
    exists p :: IsPath(E, p) && p[0] == u && p[|p| - 1] == w
  }

  /** The vertices reachable from u. */
  ghost function ReachSet(V: set<int>, E: set<Edge>, u: int): set<int>
  {
    set w | w in V && Reaches(E, u, w)
  }

  /** The vertices reachable from some member of R. */
  ghost function ReachFromAll(V: set<int>, E: set<Edge>, R: set<int>): set<int>
  {
    set w | w in V && exists r :: r in R && Reaches(E, r, w)
  }

  ghost predicate ClosedUnderSuccessors(E: set<Edge>, C: set<int>)
  {
    forall e :: e in E && e.source in C ==> e.destination in C
  }

  ghost predicate ClosedUnderPredecessors(E: set<Edge>, C: set<int>)
  {
    forall e :: e in E && e.destination in C ==> e.source in C
  }

  lemma ReachesItself(E: set<Edge>, u: int)
    ensures Reaches(E, u, u)
  {
    assert IsPath(E, [u]);
  }

  lemma ReachesThenStep(E: set<Edge>, u: int, v: int, w: int)
    requires Reaches(E, u, v) && Edge(v, w) in E
    ensures Reaches(E, u, w)
  {
    var p :| IsPath(E, p) && p[0] == u && p[|p| - 1] == v;
    var q := p + [w];
    assert IsPath(E, q);
  }

  lemma StepThenReaches(E: set<Edge>, u: int, v: int, w: int)
    requires Edge(u, v) in E && Reaches(E, v, w)
    ensures Reaches(E, u, w)
  {
    var p :| IsPath(E, p) && p[0] == v && p[|p| - 1] == w;
    var q := [u] + p;
    assert IsPath(E, q);
  }

  /** A path that starts inside a set closed under successors never leaves it. */
  lemma {:induction false} PathStaysInside(E: set<Edge>, C: set<int>, p: seq<int>)
    requires IsPath(E, p) && p[0] in C && ClosedUnderSuccessors(E, C)
    ensures p[|p| - 1] in C
  {
    if |p| > 1 {
      var init := p[..|p| - 1];
      assert IsPath(E, init);
      PathStaysInside(E, C, init);
      assert Edge(p[|p| - 2], p[|p| - 1]) in E;
    }
  }

  /** A set closed under successors that holds R holds everything reachable from R. */
  lemma ClosedContainsReach(V: set<int>, E: set<Edge>, C: set<int>, R: set<int>)
    requires R <= C && ClosedUnderSuccessors(E, C)
    ensures ReachFromAll(V, E, R) <= C
  {
    forall w | w in ReachFromAll(V, E, R) ensures w in C {
      var r :| r in R && Reaches(E, r, w);
      var p :| IsPath(E, p) && p[0] == r && p[|p| - 1] == w;
      PathStaysInside(E, C, p);
    }
  }

  /** What is reachable from R holds R and is closed under successors. */
  lemma ReachFromAllFacts(V: set<int>, E: set<Edge>, R: set<int>)
    requires WellFormed(V, E) && R <= V
    ensures R <= ReachFromAll(V, E, R) <= V
    ensures ClosedUnderSuccessors(E, ReachFromAll(V, E, R))
  {
    forall r | r in R ensures r in ReachFromAll(V, E, R) {
      ReachesItself(E, r);
    }
    forall e | e in E && e.source in ReachFromAll(V, E, R)
      ensures e.destination in ReachFromAll(V, E, R)
    {
      var r :| r in R && Reaches(E, r, e.source);
      assert e == Edge(e.source, e.destination);
      ReachesThenStep(E, r, e.source, e.destination);
    }
  }

  /** Adding a start vertex r loses nothing that was reachable, and gains r itself. */
  lemma ReachFromAllGrow(V: set<int>, E: set<Edge>, R: set<int>, r: int)
    requires r in V
    ensures ReachFromAll(V, E, R) <= ReachFromAll(V, E, R + {r})
    ensures r in ReachFromAll(V, E, R + {r})
  {
    ReachesItself(E, r);
  }

  /** One more edge out of a reachable vertex leads to a reachable vertex. */
  lemma ReachFromAllStep(V: set<int>, E: set<Edge>, R: set<int>, u: int, w: int)
    requires u in ReachFromAll(V, E, R) && Edge(u, w) in E && w in V
    ensures w in ReachFromAll(V, E, R)
  {
    var r :| r in R && Reaches(E, r, u);
    ReachesThenStep(E, r, u, w);
  }

  lemma ReachSetFacts(V: set<int>, E: set<Edge>, u: int)
    requires WellFormed(V, E) && u in V
    ensures ReachSet(V, E, u) == ReachFromAll(V, E, {u})
    ensures u in ReachSet(V, E, u) && ReachSet(V, E, u) <= V
    ensures ClosedUnderSuccessors(E, ReachSet(V, E, u))
  {
    ReachFromAllFacts(V, E, {u});
  }

  /** In a symmetric edge set every path can be walked backwards. */
  lemma PathBackwards(E: set<Edge>, p: seq<int>)
    requires IsPath(E, p) && Symmetric(E)
    ensures IsPath(E, Reversed(p))
  {
    var n := |p|;
    var q := Reversed(p);
    forall i | 0 <= i < n - 1 ensures Edge(q[i], q[i + 1]) in E {
      ReversedAt(p, i);
      ReversedAt(p, i + 1);
      assert Edge(p[n - 2 - i], p[n - 1 - i]).Flipped() in E;
    }
  }

  // ---------------------------------------------------------------------
  // Equivalence classes

  /** The edges with at least one end in C. */
  ghost function Touching(E: set<Edge>, C: set<int>): set<Edge>
  {
    set e | e in E && (e.source in C || e.destination in C)
  }

  /** A set closed both ways, with the edges touching it, is a graph of its own. */
  lemma NarrowedIsWellFormed(E: set<Edge>, C: set<int>)
    requires ClosedUnderSuccessors(E, C) && ClosedUnderPredecessors(E, C)
    ensures WellFormed(C, Touching(E, C))
  {
  }

  /**
    What the class query returns for v: the vertices reachable from v, when no
    edge enters them from outside and the edges touching them form an
    equivalence on them; the empty set otherwise.
  */
  ghost function EquivalenceClass(V: set<int>, E: set<Edge>, v: int): set<int>
  {
    var C := ReachSet(V, E, v);
    if ClosedUnderPredecessors(E, C) && Equivalence(C, Touching(E, C)) then C else {}
  }

  /** A non-empty class holds v, is closed both ways, and its induced subgraph is an equivalence relation. */
  lemma EquivalenceClassFacts(V: set<int>, E: set<Edge>, v: int)
    requires WellFormed(V, E) && v in V
    ensures var C := EquivalenceClass(V, E, v);
      C != {} ==>
        && v in C && C <= V
        && ClosedUnderSuccessors(E, C) && ClosedUnderPredecessors(E, C)
        && Touching(E, C) == (set e | e in E && e.source in C && e.destination in C)
        && Reflexive(C, Touching(E, C)) && Symmetric(Touching(E, C)) && Transitive(Touching(E, C))
  {
    var C := EquivalenceClass(V, E, v);
    ReachSetFacts(V, E, v);
    if C != {} {
      assert WellFormed(C, Touching(E, C));
      EquivalenceMeaning(C, Touching(E, C));
    }
  }

  lemma ReachesThenReaches(E: set<Edge>, a: int, b: int, c: int)
    requires Reaches(E, a, b) && Reaches(E, b, c)
    ensures Reaches(E, a, c)
  {
    var p :| IsPath(E, p) && p[0] == a && p[|p| - 1] == b;
    var q :| IsPath(E, q) && q[0] == b && q[|q| - 1] == c;
    var pq := p + q[1..];
    forall i | 0 <= i < |pq| - 1 ensures Edge(pq[i], pq[i + 1]) in E {
      if i < |p| - 1 {
        assert pq[i] == p[i] && pq[i + 1] == p[i + 1];
      } else {
        assert pq[i] == q[i - |p| + 1] && pq[i + 1] == q[i - |p| + 2];
      }
    }
    assert IsPath(E, pq);
  }

  /** Inside a non-empty class every member reaches v back. */
  lemma ClassMemberReachesBack(V: set<int>, E: set<Edge>, v: int, u: int)
    requires WellFormed(V, E) && v in V
    requires u in EquivalenceClass(V, E, v)
    ensures Reaches(E, u, v)
  {
    var C := EquivalenceClass(V, E, v);
    EquivalenceClassFacts(V, E, v);
    var T := Touching(E, C);
    var p :| IsPath(E, p) && p[0] == v && p[|p| - 1] == u;
    assert IsPath(T, p) by {
      forall i | 0 <= i < |p| - 1 ensures Edge(p[i], p[i + 1]) in T {
        var prefix := p[..i + 1];
        assert IsPath(E, prefix);
        PathStaysInside(E, C, prefix);
      }
    }
    PathBackwards(T, p);
    var q := Reversed(p);
    ReversedAt(p, 0);
    ReversedAt(p, |p| - 1);
    assert IsPath(E, q);
  }

  /** From any member of a non-empty class the same vertices are reachable as from v. */
  lemma ClassMemberReachesClass(V: set<int>, E: set<Edge>, v: int, u: int)
    requires WellFormed(V, E) && v in V
    requires u in EquivalenceClass(V, E, v)
    ensures ReachSet(V, E, u) == EquivalenceClass(V, E, v)
  {
    var C := EquivalenceClass(V, E, v);
    EquivalenceClassFacts(V, E, v);
    ReachSetFacts(V, E, u);
    ClosedContainsReach(V, E, C, {u});
    ClassMemberReachesBack(V, E, v, u);
    forall w | w in C ensures w in ReachSet(V, E, u) {
      ReachesThenReaches(E, u, v, w);
    }
  }

  /** Asking again from any member of a non-empty class gives the same class. */
  lemma EquivalenceClassIdempotent(V: set<int>, E: set<Edge>, v: int, u: int)
    requires WellFormed(V, E) && v in V
    requires u in EquivalenceClass(V, E, v)
    ensures EquivalenceClass(V, E, u) == EquivalenceClass(V, E, v)
  {
    ClassMemberReachesClass(V, E, v, u);
    assert ReachSet(V, E, v) == EquivalenceClass(V, E, v);
  }

  /** In an equivalence graph every vertex reaches exactly its direct successors. */
  lemma {:induction false} PathInEquivalence(E: set<Edge>, p: seq<int>)
    requires IsPath(E, p) && Transitive(E) && Edge(p[0], p[0]) in E
    ensures Edge(p[0], p[|p| - 1]) in E
  {
    if |p| > 1 {
      var init := p[..|p| - 1];
      assert IsPath(E, init);
      PathInEquivalence(E, init);
      assert Edge(p[|p| - 2], p[|p| - 1]) in E;
    }
  }

  /**
    When the whole graph is an equivalence, the class of v is never rejected:
    it is v's set of direct successors, nothing enters it from outside and the
    edges touching it again pass the equivalence check.
  */
  lemma EquivalenceGraphClass(V: set<int>, E: set<Edge>, v: int)
    requires WellFormed(V, E) && Equivalence(V, E) && v in V
    ensures ReachSet(V, E, v) == Successors(E, v)
    ensures ClosedUnderPredecessors(E, ReachSet(V, E, v))
    ensures Equivalence(ReachSet(V, E, v), Touching(E, ReachSet(V, E, v)))
    ensures EquivalenceClass(V, E, v) == Successors(E, v)
    ensures v in EquivalenceClass(V, E, v)
  {
    EquivalenceMeaning(V, E);
    var C := ReachSet(V, E, v);
    ReachSetFacts(V, E, v);
    forall w | w in C ensures w in Successors(E, v) {
      var p :| IsPath(E, p) && p[0] == v && p[|p| - 1] == w;
      PathInEquivalence(E, p);
      SuccessorsMember(E, v, w);
    }
    forall w | w in Successors(E, v) ensures w in C {
      SuccessorsMember(E, v, w);
      assert IsPath(E, [v, w]);
    }
    forall e | e in E && e.destination in C ensures e.source in C {
      assert e.Flipped() in E;
    }
    var T := Touching(E, C);
    assert WellFormed(C, T);
    forall u | u in C ensures Edge(u, u) in T {
    }
    forall e | e in T ensures e.Flipped() in T {
      assert e.Flipped() in E;
    }
    forall a, b, c | Edge(a, b) in T && Edge(b, c) in T ensures Edge(a, c) in T {
      assert Edge(a, c) in E;
    }
    EquivalenceMeaning(C, T);
    SuccessorsMember(E, v, v);
  }

  // ---------------------------------------------------------------------
  // Roots

  /** Vertices with no incoming edge and at least one outgoing edge. */
  ghost function ZeroInDegreeRoots(V: set<int>, E: set<Edge>): set<int>
  {
    set v | v in V && (forall e :: e in E ==> e.destination != v) && (exists e :: e in E && e.source == v)
  }

  /** The lowest member of the non-empty class of each vertex of S. */
  ghost function ClassLows(V: set<int>, E: set<Edge>, S: set<int>): set<int>
  {
    set v | v in S && EquivalenceClass(V, E, v) != {} :: Lowest(EquivalenceClass(V, E, v))
  }

  lemma ClassLowsAdd(V: set<int>, E: set<Edge>, S: set<int>, v: int)
    ensures ClassLows(V, E, S + {v})
         == ClassLows(V, E, S) + if EquivalenceClass(V, E, v) != {} then {Lowest(EquivalenceClass(V, E, v))} else {}
  {
  }

  /**
    The roots the traversals start from: the zero-in-degree roots, and, when
    the graph is an equivalence, the lowest member of each non-empty class.
  */
  ghost function RootsOf(V: set<int>, E: set<Edge>): set<int>
  {
    var zero := ZeroInDegreeRoots(V, E);
    if Equivalence(V, E) then
      zero + ClassLows(V, E, V)
    else
      zero
  }

  lemma RootsAreVertices(V: set<int>, E: set<Edge>)
    requires WellFormed(V, E)
    ensures RootsOf(V, E) <= V
  {
    forall v | v in V && EquivalenceClass(V, E, v) != {}
      ensures Lowest(EquivalenceClass(V, E, v)) in V
    {
      EquivalenceClassFacts(V, E, v);
    }
  }

  /** r is the lowest member of S. */
  ghost predicate IsLowestOf(r: int, S: set<int>)
  {
    r in S && forall w :: w in S ==> r <= w
  }

  /** In a reflexive graph each vertex has its self-loop coming in, so none has in-degree 0. */
  lemma NoZeroInDegreeWhenReflexive(V: set<int>, E: set<Edge>)
    requires Reflexive(V, E)
    ensures ZeroInDegreeRoots(V, E) == {}
  {
    forall v | v in V ensures v !in ZeroInDegreeRoots(V, E) {
      assert Edge(v, v) in E;
    }
  }

  /** No member of R reaches another member of R. */
  ghost predicate Separated(E: set<Edge>, R: set<int>)
  {
    forall r, s :: r in R && s in R && r != s ==> !Reaches(E, r, s)
  }

  /** A vertex reached from a different vertex has an edge coming in. */
  lemma ReachedHasEdgeIn(E: set<Edge>, r: int, s: int)
    requires Reaches(E, r, s) && r != s
    ensures exists e :: e in E && e.destination == s
  {
    var p :| IsPath(E, p) && p[0] == r && p[|p| - 1] == s;
    var e := Edge(p[|p| - 2], p[|p| - 1]);
    assert e in E && e.destination == s;
  }

  /**
    No root reaches another root: a zero-in-degree root has no edge coming
    in, and on an equivalence graph the roots are the lowest members of
    different classes, each class closed under reachability.
  */
  lemma RootsSeparated(V: set<int>, E: set<Edge>)
    requires WellFormed(V, E)
    ensures Separated(E, RootsOf(V, E))
  {
    var R := RootsOf(V, E);
    forall r, s | r in R && s in R && r != s ensures !Reaches(E, r, s) {
      if Reaches(E, r, s) {
        if Equivalence(V, E) {
          ClassLowsDoNotReach(V, E, r, s);
        } else {
          ReachedHasEdgeIn(E, r, s);
          assert false;
        }
      }
    }
  }

  /** On an equivalence graph the lowest member of one class reaches no other class's lowest member. */
  lemma ClassLowsDoNotReach(V: set<int>, E: set<Edge>, r: int, s: int)
    requires WellFormed(V, E) && Equivalence(V, E)
    requires r in RootsOf(V, E) && s in RootsOf(V, E) && Reaches(E, r, s)
    ensures r == s
  {
    EquivalenceMeaning(V, E);
    NoZeroInDegreeWhenReflexive(V, E);
    var v :| v in V && EquivalenceClass(V, E, v) != {} && r == Lowest(EquivalenceClass(V, E, v));
    var w :| w in V && EquivalenceClass(V, E, w) != {} && s == Lowest(EquivalenceClass(V, E, w));
    EquivalenceClassFacts(V, E, v);
    EquivalenceClassFacts(V, E, w);
    EquivalenceClassIdempotent(V, E, v, r);
    EquivalenceGraphClass(V, E, r);
    assert s in ReachSet(V, E, r);
    EquivalenceClassIdempotent(V, E, v, s);
    EquivalenceClassIdempotent(V, E, w, s);
  }

  /** In a separated set R, a member outside L is not reached from L. */
  lemma SeparatedNotReached(V: set<int>, E: set<Edge>, R: set<int>, L: set<int>, s: int)
    requires Separated(E, R) && L <= R && s in R && s !in L
    ensures s !in ReachFromAll(V, E, L)
  {
    forall l | l in L ensures !Reaches(E, l, s) {
      assert l in R && l != s;
    }
  }

  /**
    In an equivalence graph the roots are exactly the lowest members of the
    vertices' neighbourhoods, that is, one lowest member per class.
  */
  lemma RootsOfEquivalence(V: set<int>, E: set<Edge>)
    requires WellFormed(V, E) && Equivalence(V, E)
    ensures forall r :: r in RootsOf(V, E) <==> exists v :: v in V && IsLowestOf(r, Successors(E, v))
  {
    EquivalenceMeaning(V, E);
    NoZeroInDegreeWhenReflexive(V, E);
    var lows := ClassLows(V, E, V);
    assert RootsOf(V, E) == lows;
    forall r ensures r in lows <==> exists v :: v in V && IsLowestOf(r, Successors(E, v)) {
      if r in lows {
        var v :| v in V && EquivalenceClass(V, E, v) != {} && r == Lowest(EquivalenceClass(V, E, v));
        EquivalenceGraphClass(V, E, v);
        assert IsLowestOf(r, Successors(E, v));
      }
      if exists v :: v in V && IsLowestOf(r, Successors(E, v)) {
        var v :| v in V && IsLowestOf(r, Successors(E, v));
        EquivalenceGraphClass(V, E, v);
        assert r == Lowest(EquivalenceClass(V, E, v));
      }
    }
  }
}
