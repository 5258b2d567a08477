/**
  An edge of a directed graph: an immutable (source, destination) pair.
  Any pair is accepted, a self-loop (source == destination) included; the
  pair never changes once built, which a datatype value gives for free.
*/
module Edges {

  datatype Edge = Edge(source: int, destination: int)
  {
    /** The vertex the edge leaves. */
    function GetSource(): int { source }

    /** The vertex the edge enters. */
    function GetDest(): int { destination }

    /** The same pair with its ends swapped. */
    function Flipped(): (f: Edge)
      ensures f.source == destination && f.destination == source
    {
      Edge(destination, source)
    }
  }

  /** The getters hand back exactly what the constructor was given, whatever the pair. */
  lemma GettersReturnConstructorArguments(source: int, destination: int)
    ensures Edge(source, destination).GetSource() == source
    ensures Edge(source, destination).GetDest() == destination
  {
  }

  /** An edge is nothing more than its two ends: rebuilding it from its getters gives it back. */
  lemma EdgeIsItsEnds(e: Edge, f: Edge)
    ensures Edge(e.GetSource(), e.GetDest()) == e
    ensures e == f <==> e.GetSource() == f.GetSource() && e.GetDest() == f.GetDest()
  {
  }
}
