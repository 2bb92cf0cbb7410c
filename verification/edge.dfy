/** Vertices and directed edges of an escape network. Both are plain values:
    two vertices are equal when their identifiers are, two edges when their
    endpoints are (`Vertex.equals`, `Edge.equals`). */
module Edges {

  datatype Vertex = Vertex(identifier: string)

  datatype Edge = Edge(from: Vertex, to: Vertex)

  /** `Edge.reverse`: the same two vertices, directed the other way. */
  function Reverse(e: Edge): (r: Edge)
    ensures r.from == e.to && r.to == e.from
  {
    Edge(e.to, e.from)
  }

  /** `Edge.isLoop`: the edge starts where it ends. */
  predicate IsLoop(e: Edge)
  {
    e.from == e.to
  }

  /** `Edge.asList`: the two endpoints in order. */
  function AsList(e: Edge): (r: seq<Vertex>)
    ensures |r| == 2 && Edge(r[0], r[1]) == e
  {
    [e.from, e.to]
  }

  /** Reversing twice gives back the edge. */
  lemma ReverseInvolutive(e: Edge)
    ensures Reverse(Reverse(e)) == e
  {
  }

  /** An edge is its own reverse exactly when it is a loop. */
  lemma ReverseFixedIffLoop(e: Edge)
    ensures Reverse(e) == e <==> IsLoop(e)
  {
  }
}
