/** Escape networks (`Network`): a graph with a capacity on every edge. A
    network never holds an edge together with its reverse, has a vertex no
    edge enters (a possible source) and a vertex no edge leaves (a possible
    sink), and has no negative capacity. */
module Networks {
  import opened Wrappers
  import opened Edges
  import G = Graphs
  import IC = ImmutableCollections

  datatype Network = Network(graph: G.Graph, capacities: map<Edge, int>)

  /** Why a network is refused or a query about it fails; the program
      reports each as an `IllegalArgumentException`. */
  datatype NetworkError =
    | AntiparallelEdges
    | NoSource
    | NoSink
    | CapacitiesMismatch
    | NegativeCapacity
    | UnknownEdge
    | UnknownVertex

  /** No edge's reverse is in the graph; a loop is its own reverse, so no
      loop is either. */
  predicate NoAntiparallel(g: G.Graph)
  {
    forall e | e in g.edges :: Reverse(e) !in g.edges
  }

  /** The checks of `Network.create`, in the terms it states them: fewer
      closed vertices than vertices leaves one without incoming edges, and
      fewer open ones leaves one without outgoing edges. */
  predicate Valid(n: Network)
  {
    G.Valid(n.graph) && NoAntiparallel(n.graph)
    && |G.ClosedVertices(n.graph)| < |n.graph.vertices|
    && |G.OpenVertices(n.graph)| < |n.graph.vertices|
    && n.capacities.Keys == n.graph.edges
    && forall e | e in n.capacities :: n.capacities[e] >= 0
  }

  /** A vertex no edge enters. */
  predicate IsSource(g: G.Graph, v: Vertex)
  {
    v in g.vertices && forall e | e in g.edges :: e.to != v
  }

  /** A vertex no edge leaves. */
  predicate IsSink(g: G.Graph, v: Vertex)
  {
    v in g.vertices && forall e | e in g.edges :: e.from != v
  }

  /** `Network.create`: the checks run in the program's order and the first
      that fails names the error. */
  function Create(g: G.Graph, capacities: map<Edge, int>): (r: Result<Network, NetworkError>)
    requires G.Valid(g)
    ensures r.Ok? <==> Valid(Network(g, capacities))
    ensures r.Ok? ==> r.value == Network(g, capacities)
    ensures !NoAntiparallel(g) ==> r == Err(AntiparallelEdges)
    ensures NoAntiparallel(g) && !(exists v :: IsSource(g, v)) ==> r == Err(NoSource)
    ensures NoAntiparallel(g) && (exists v :: IsSource(g, v)) && !(exists v :: IsSink(g, v)) ==> r == Err(NoSink)
  {
    SourceBySize(g);
    SinkBySize(g);
    if !NoAntiparallel(g) then Err(AntiparallelEdges)
    else if !(|G.ClosedVertices(g)| < |g.vertices|) then Err(NoSource)
    else if !(|G.OpenVertices(g)| < |g.vertices|) then Err(NoSink)
    else if g.edges != capacities.Keys then Err(CapacitiesMismatch)
    else if !(forall e | e in capacities :: capacities[e] >= 0) then Err(NegativeCapacity)
    else Ok(Network(g, capacities))
  }

  /** Fewer closed vertices than vertices means exactly that some vertex
      has no incoming edge. */
  lemma SourceBySize(g: G.Graph)
    requires G.Valid(g)
    ensures |G.ClosedVertices(g)| < |g.vertices| <==> exists v :: IsSource(g, v)
  {
    var closed := G.ClosedVertices(g);
    if |closed| < |g.vertices| {
      if g.vertices <= closed {
        G.SubsetSize(g.vertices, closed);
      }
      var v :| v in g.vertices && v !in closed;
      forall e | e in g.edges ensures e.to != v {
        assert e.to in closed;
      }
      assert IsSource(g, v);
    }
    if exists v :: IsSource(g, v) {
      var v :| IsSource(g, v);
      assert closed <= g.vertices - {v};
      G.SubsetSize(closed, g.vertices - {v});
    }
  }

  /** Fewer open vertices than vertices means exactly that some vertex has
      no outgoing edge. */
  lemma SinkBySize(g: G.Graph)
    requires G.Valid(g)
    ensures |G.OpenVertices(g)| < |g.vertices| <==> exists v :: IsSink(g, v)
  {
    var open := G.OpenVertices(g);
    if |open| < |g.vertices| {
      if g.vertices <= open {
        G.SubsetSize(g.vertices, open);
      }
      var v :| v in g.vertices && v !in open;
      forall e | e in g.edges ensures e.from != v {
        assert e.from in open;
      }
      assert IsSink(g, v);
    }
    if exists v :: IsSink(g, v) {
      var v :| IsSink(g, v);
      assert open <= g.vertices - {v};
      G.SubsetSize(open, g.vertices - {v});
    }
  }

  /** A network has a possible source and a possible sink, and none of its
      edges is a loop. */
  lemma ValidHasEnds(n: Network)
    requires Valid(n)
    ensures (exists v :: IsSource(n.graph, v)) && (exists v :: IsSink(n.graph, v))
    ensures forall e | e in n.graph.edges :: !IsLoop(e)
  {
    SourceBySize(n.graph);
    SinkBySize(n.graph);
    forall e | e in n.graph.edges ensures !IsLoop(e) {
      assert Reverse(e) !in n.graph.edges;
    }
  }

  /** `Network.update`: the graph with the edge added and the capacity map
      with the edge's capacity set, checked again as a whole. The update is
      accepted exactly when the updated network is valid; otherwise the
      first check of `Network.create` that fails names the error, and the
      capacity check can fail only for the new capacity. */
  function Update(n: Network, e: Edge, capacity: int): (r: Result<Network, NetworkError>)
    requires Valid(n)
    ensures var g := G.Update(n.graph, e);
      r.Ok? <==> Valid(Network(g, n.capacities[e := capacity]))
    ensures r.Ok? ==> r.value.graph == G.Update(n.graph, e) && r.value.capacities == n.capacities[e := capacity]
    ensures var g := G.Update(n.graph, e);
      && (!NoAntiparallel(g) ==> r == Err(AntiparallelEdges))
      && (NoAntiparallel(g) && !(exists v :: IsSource(g, v)) ==> r == Err(NoSource))
      && (NoAntiparallel(g) && (exists v :: IsSource(g, v)) && !(exists v :: IsSink(g, v)) ==> r == Err(NoSink))
      && (NoAntiparallel(g) && (exists v :: IsSource(g, v)) && (exists v :: IsSink(g, v)) ==>
            (r.Ok? <==> capacity >= 0) && (capacity < 0 ==> r == Err(NegativeCapacity)))
  {
    IC.MergeSingleton(n.capacities, e, capacity);
    UpdatedCapacities(n, e, capacity);
    SourceBySize(G.Update(n.graph, e));
    SinkBySize(G.Update(n.graph, e));
    Create(G.Update(n.graph, e), IC.Merge(n.capacities, map[e := capacity]))
  }

  /** The updated capacities cover exactly the updated graph's edges, and
      only the new capacity can be negative. */
  lemma UpdatedCapacities(n: Network, e: Edge, capacity: int)
    requires Valid(n)
    ensures var c := n.capacities[e := capacity];
      c.Keys == G.Update(n.graph, e).edges
      && ((forall k | k in c :: c[k] >= 0) <==> capacity >= 0)
  {
  }

  /** Updating an edge already present only replaces its capacity, and
      succeeds exactly when that capacity is not negative. */
  lemma UpdateExisting(n: Network, e: Edge, capacity: int)
    requires Valid(n) && e in n.graph.edges
    ensures Update(n, e, capacity).Ok? <==> capacity >= 0
    ensures Update(n, e, capacity).Ok? ==> Update(n, e, capacity).value == Network(n.graph, n.capacities[e := capacity])
    ensures capacity < 0 ==> Update(n, e, capacity) == Err(NegativeCapacity)
  {
    IC.MergeSingleton(n.capacities, e, capacity);
    assert G.Update(n.graph, e) == n.graph;
  }

  /** An edge whose reverse is in the network, a loop included, is refused. */
  lemma UpdateRefusesReverse(n: Network, e: Edge, capacity: int)
    requires Valid(n) && (Reverse(e) in n.graph.edges || IsLoop(e))
    ensures Update(n, e, capacity) == Err(AntiparallelEdges)
  {
    var g := G.Update(n.graph, e);
    assert e in g.edges && Reverse(e) in g.edges;
  }

  /** `Network.getCapacity`: defined for the network's edges only. */
  function Capacity(n: Network, e: Edge): (r: Result<int, NetworkError>)
    requires Valid(n)
    ensures r.Err? <==> e !in n.graph.edges
    ensures r.Err? ==> r.error == UnknownEdge
    ensures r.Ok? ==> r.value >= 0
  {
    if e in n.graph.edges then Ok(n.capacities[e]) else Err(UnknownEdge)
  }

  /** `Network.isValidSource`: whether no edge enters the vertex, which
      must be part of the network. */
  function IsValidSource(n: Network, v: Vertex): (r: Result<bool, NetworkError>)
    requires Valid(n)
    ensures r.Err? <==> v !in n.graph.vertices
    ensures r.Err? ==> r.error == UnknownVertex
    ensures r.Ok? ==> (r.value <==> IsSource(n.graph, v))
  {
    match G.Incoming(n.graph, v)
    case Err(_) => Err(UnknownVertex)
    case Ok(incoming) =>
      assert incoming == {} <==> IsSource(n.graph, v) by {
        if !IsSource(n.graph, v) {
          var e :| e in n.graph.edges && e.to == v;
          assert e in incoming;
        }
      }
      Ok(incoming == {})
  }

  /** `Network.isValidSink`: whether no edge leaves the vertex, which must
      be part of the network. */
  function IsValidSink(n: Network, v: Vertex): (r: Result<bool, NetworkError>)
    requires Valid(n)
    ensures r.Err? <==> v !in n.graph.vertices
    ensures r.Err? ==> r.error == UnknownVertex
    ensures r.Ok? ==> (r.value <==> IsSink(n.graph, v))
  {
    match G.Outgoing(n.graph, v)
    case Err(_) => Err(UnknownVertex)
    case Ok(outgoing) =>
      assert outgoing == {} <==> IsSink(n.graph, v) by {
        if !IsSink(n.graph, v) {
          var e :| e in n.graph.edges && e.from == v;
          assert e in outgoing;
        }
      }
      Ok(outgoing == {})
  }
}
