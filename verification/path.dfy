/** Paths through a graph, given by the vertices they visit. A path has at
    least one edge: a single vertex is not a path (`Path.fromVertices`). */
module Paths {
  import opened Wrappers
  import opened Edges

  /** Paths are equal exactly when their vertex lists are. */
  datatype Path = Path(vertices: seq<Vertex>)

  predicate Valid(p: Path)
  {
    |p.vertices| >= 2
  }

  /** `Path.fromVertices`: lists of fewer than two vertices are refused. */
  function FromVertices(vertices: seq<Vertex>): (r: Option<Path>)
    ensures r.Some? <==> |vertices| >= 2
    ensures r.Some? ==> Valid(r.value) && r.value.vertices == vertices
  {
    if |vertices| >= 2 then Some(Path(vertices)) else None
  }

  /** The edges the path traverses: one from each vertex to the next. */
  function EdgesOf(p: Path): (es: seq<Edge>)
    requires Valid(p)
    ensures |es| == |p.vertices| - 1
    ensures forall i | 0 <= i < |es| :: es[i] == Edge(p.vertices[i], p.vertices[i + 1])
  {
    seq(|p.vertices| - 1, i requires 0 <= i < |p.vertices| - 1 => Edge(p.vertices[i], p.vertices[i + 1]))
  }

  /** `Path.length`: the number of edges, one fewer than the vertices. */
  function Length(p: Path): (n: nat)
    requires Valid(p)
    ensures n >= 1 && n + 1 == |p.vertices|
  {
    |EdgesOf(p)|
  }

  function Start(p: Path): Vertex
    requires Valid(p)
  {
    p.vertices[0]
  }

  /** `Path.getEnd` reads the vertex at index `length()`. */
  function End(p: Path): Vertex
    requires Valid(p)
  {
    p.vertices[Length(p)]
  }

  /** The edges chain: the first leaves the start, each ends where the next
      begins, and the last arrives at the end. */
  lemma EdgesChain(p: Path)
    requires Valid(p)
    ensures var es := EdgesOf(p);
      es[0].from == Start(p) && es[|es| - 1].to == End(p)
      && forall i | 0 <= i < |es| - 1 :: es[i].to == es[i + 1].from
  {
  }
}
