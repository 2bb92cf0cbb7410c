/** Maximum flow through an escape network (`Flow`): Ford–Fulkerson with
    breadth-first augmenting paths, the Edmonds–Karp method, over integers.
    The flow is kept on every edge of the network and on every reverse of
    one; the flow on a reverse edge is the negation of the flow on the
    edge. */
module Flows {
  import opened Wrappers
  import opened Edges
  import Paths
  import G = Graphs
  import N = Networks

  /** Why a flow computation is refused; the program reports each as an
      `IllegalArgumentException`. */
  datatype FlowError =
    | UnknownSource      // the source is not a vertex of the network
    | InvalidSource      // an edge enters the source
    | UnknownSink        // the sink is not a vertex of the network
    | InvalidSink        // an edge leaves the sink
    | SameSourceAndSink  // the search for a path from a vertex to itself fails

  // Sums over sets of edges.

  /** The sum of `f` over the edges of `s`. */
  ghost function Sum(f: map<Edge, int>, s: set<Edge>): int
    requires s <= f.Keys
    decreases |s|
  {
    if s == {} then 0 else var e :| e in s; f[e] + Sum(f, s - {e})
  }

  /** Any edge may be taken out of a sum first. */
  lemma {:induction false} SumRemove(f: map<Edge, int>, s: set<Edge>, x: Edge)
    requires s <= f.Keys && x in s
    ensures Sum(f, s) == f[x] + Sum(f, s - {x})
    decreases |s|
  {
    var e :| e in s && Sum(f, s) == f[e] + Sum(f, s - {e});
    if e != x {
      SumRemove(f, s - {e}, x);
      SumRemove(f, s - {x}, e);
      assert s - {e} - {x} == s - {x} - {e};
    }
  }

  /** Adding an edge to a set adds its value to the sum. */
  lemma SumAdd(f: map<Edge, int>, s: set<Edge>, x: Edge)
    requires s <= f.Keys && x in f && x !in s
    ensures Sum(f, s + {x}) == Sum(f, s) + f[x]
  {
    SumRemove(f, s + {x}, x);
    assert s + {x} - {x} == s;
  }

  /** Maps that agree on a set have the same sum over it. */
  lemma {:induction false} SumAgree(f: map<Edge, int>, g: map<Edge, int>, s: set<Edge>)
    requires s <= f.Keys && s <= g.Keys
    requires forall e | e in s :: f[e] == g[e]
    ensures Sum(f, s) == Sum(g, s)
    decreases |s|
  {
    if s != {} {
      var x :| x in s;
      SumRemove(f, s, x);
      SumRemove(g, s, x);
      SumAgree(f, g, s - {x});
    }
  }

  /** Raising one summand by `b` raises the sum by `b`. */
  lemma SumBump(f: map<Edge, int>, g: map<Edge, int>, s: set<Edge>, x: Edge, b: int)
    requires s <= f.Keys && s <= g.Keys && x in s
    requires g[x] == f[x] + b && forall e | e in s && e != x :: f[e] == g[e]
    ensures Sum(g, s) == Sum(f, s) + b
  {
    SumRemove(f, s, x);
    SumRemove(g, s, x);
    SumAgree(f, g, s - {x});
  }

  /** Sums are monotone in the summands. */
  lemma {:induction false} SumMonotone(f: map<Edge, int>, g: map<Edge, int>, s: set<Edge>)
    requires s <= f.Keys && s <= g.Keys
    requires forall e | e in s :: f[e] <= g[e]
    ensures Sum(f, s) <= Sum(g, s)
    decreases |s|
  {
    if s != {} {
      var x :| x in s;
      SumRemove(f, s, x);
      SumRemove(g, s, x);
      SumMonotone(f, g, s - {x});
    }
  }

  /** A sum of non-negative values is non-negative. */
  lemma {:induction false} SumNonNegative(f: map<Edge, int>, s: set<Edge>)
    requires s <= f.Keys
    requires forall e | e in s :: f[e] >= 0
    ensures Sum(f, s) >= 0
    decreases |s|
  {
    if s != {} {
      var x :| x in s;
      SumRemove(f, s, x);
      SumNonNegative(f, s - {x});
    }
  }

  /** A sum of zeros is zero. */
  lemma {:induction false} SumZero(f: map<Edge, int>, s: set<Edge>)
    requires s <= f.Keys && forall e | e in s :: f[e] == 0
    ensures Sum(f, s) == 0
    decreases |s|
  {
    if s != {} {
      var x :| x in s;
      SumRemove(f, s, x);
      SumZero(f, s - {x});
    }
  }

  /** The sum over two disjoint sets is the sum of the two sums. */
  lemma {:induction false} SumUnion(f: map<Edge, int>, a: set<Edge>, b: set<Edge>)
    requires a <= f.Keys && b <= f.Keys && a !! b
    ensures Sum(f, a + b) == Sum(f, a) + Sum(f, b)
    decreases |b|
  {
    if b == {} {
      assert a + b == a;
    } else {
      var x :| x in b;
      SumRemove(f, a + b, x);
      SumRemove(f, b, x);
      assert a + b - {x} == a + (b - {x});
      SumUnion(f, a, b - {x});
    }
  }

  /** Raising one summand by `b` and lowering another by `b` keeps the sum. */
  lemma SumShift(f: map<Edge, int>, g: map<Edge, int>, s: set<Edge>, up: Edge, down: Edge, b: int)
    requires s <= f.Keys && s <= g.Keys && up in s && down in s && up != down
    requires g[up] == f[up] + b && g[down] == f[down] - b
    requires forall e | e in s && e != up && e != down :: f[e] == g[e]
    ensures Sum(g, s) == Sum(f, s)
  {
    SumRemove(f, s, up);
    SumRemove(g, s, up);
    SumBump(f, g, s - {up}, down, -b);
  }

  /** The reverses of a set of edges. */
  ghost function Reversed(s: set<Edge>): (r: set<Edge>)
    ensures forall e :: e in r <==> Reverse(e) in s
  {
    assert forall e | Reverse(e) in s :: e == Reverse(Reverse(e));
    set e | e in s :: Reverse(e)
  }

  /** Where reversing an edge negates its value, the sum over the reverses
      of a set is the negated sum over the set. */
  lemma {:induction false} SumReversed(f: map<Edge, int>, s: set<Edge>)
    requires s <= f.Keys && forall e | e in s :: Reverse(e) in f && f[Reverse(e)] == -f[e]
    ensures Reversed(s) <= f.Keys && Sum(f, Reversed(s)) == -Sum(f, s)
    decreases |s|
  {
    if s == {} {
      assert Reversed(s) == {};
    } else {
      var x :| x in s;
      SumRemove(f, s, x);
      ReverseInvolutive(x);
      assert Reversed(s) == Reversed(s - {x}) + {Reverse(x)};
      SumReversed(f, s - {x});
      SumAdd(f, Reversed(s - {x}), Reverse(x));
    }
  }

  /** Where reversing an edge negates its value, the sum over a set that
      holds the reverse of each of its edges, and no loop, is zero: every
      edge cancels its reverse. */
  lemma {:induction false} SumSkew(f: map<Edge, int>, s: set<Edge>)
    requires s <= f.Keys
    requires forall e | e in s :: Reverse(e) in s && !IsLoop(e) && f[Reverse(e)] == -f[e]
    ensures Sum(f, s) == 0
    decreases |s|
  {
    if s != {} {
      var x :| x in s;
      var y := Reverse(x);
      SumRemove(f, s, x);
      SumRemove(f, s - {x}, y);
      var rest := s - {x} - {y};
      forall e | e in rest ensures Reverse(e) in rest {
        ReverseInvolutive(e);
        ReverseInvolutive(x);
      }
      SumSkew(f, rest);
    }
  }

  // The residual network.

  /** The edges of the network together with their reverses. */
  function Complete(edges: set<Edge>): (r: set<Edge>)
    ensures edges <= r
    ensures forall e | e in r :: Reverse(e) in r && (e in edges || Reverse(e) in edges)
  {
    edges + set e | e in edges :: Reverse(e)
  }

  /** In a network an edge and its reverse are never both original: the
      reverses added for the residual network are new edges. */
  lemma ReversesAreNew(n: N.Network, e: Edge)
    requires N.Valid(n) && e in Complete(n.graph.edges)
    ensures (e in n.graph.edges) != (Reverse(e) in n.graph.edges)
  {
  }

  /** The residual graph built by `Flow.create`: the network's vertices
      with every edge and every reverse. */
  function ResidualGraph(n: N.Network): (r: G.Graph)
    requires N.Valid(n)
    ensures G.Valid(r) && r.vertices == n.graph.vertices && r.edges == Complete(n.graph.edges)
  {
    G.Create(n.graph.vertices, Complete(n.graph.edges)).value
  }

  /** `Flow.getRemainingCapacity`: what an edge can still carry; a reverse
      edge has capacity 0. */
  function Remaining(n: N.Network, flow: map<Edge, int>, e: Edge): int
    requires N.Valid(n) && e in flow
  {
    (if e in n.graph.edges then n.capacities[e] else 0) - flow[e]
  }

  /** The flow invariant: a value on every residual edge, the reverse of
      an edge carrying the negated flow, and no edge over its capacity. */
  ghost predicate Feasible(n: N.Network, flow: map<Edge, int>)
    requires N.Valid(n)
  {
    flow.Keys == Complete(n.graph.edges)
    && (forall e | e in flow :: flow[Reverse(e)] == -flow[e])
    && (forall e | e in flow :: Remaining(n, flow, e) >= 0)
  }

  /** On an edge of the network a feasible flow lies between zero and the
      edge's capacity. */
  lemma FeasibleBounds(n: N.Network, flow: map<Edge, int>, e: Edge)
    requires N.Valid(n) && Feasible(n, flow) && e in n.graph.edges
    ensures 0 <= flow[e] <= n.capacities[e]
  {
    assert Remaining(n, flow, Reverse(e)) >= 0;
  }

  /** The flow `Flow.create` starts from: zero on every residual edge. */
  function InitialFlow(n: N.Network): (flow: map<Edge, int>)
    requires N.Valid(n)
    ensures Feasible(n, flow)
    ensures forall e | e in flow :: flow[e] == 0
  {
    map e | e in Complete(n.graph.edges) :: 0
  }

  /** `Flow.computeRemainingGraph`: the residual edges that can still carry
      flow. */
  function RemainingGraph(n: N.Network, flow: map<Edge, int>): (r: G.Graph)
    requires N.Valid(n) && flow.Keys == Complete(n.graph.edges)
    ensures G.Valid(r) && r.vertices == n.graph.vertices
    ensures forall e :: e in r.edges <==> e in flow && Remaining(n, flow, e) > 0
  {
    var residual := ResidualGraph(n);
    G.Create(residual.vertices, set e | e in residual.edges && Remaining(n, flow, e) > 0).value
  }

  /** `Flow.getBottleneck`: an edge of the path with the least remaining
      capacity, the first such one. */
  function Bottleneck(n: N.Network, flow: map<Edge, int>, es: seq<Edge>): (e: Edge)
    requires N.Valid(n) && |es| >= 1 && forall i | 0 <= i < |es| :: es[i] in flow
    ensures e in es && e in flow
    ensures forall i | 0 <= i < |es| :: Remaining(n, flow, e) <= Remaining(n, flow, es[i])
    decreases |es|
  {
    if |es| == 1 then es[0]
    else
      var m := Bottleneck(n, flow, es[1..]);
      assert forall i | 1 <= i < |es| :: es[i] == es[1..][i - 1];
      if Remaining(n, flow, es[0]) <= Remaining(n, flow, m) then es[0] else m
  }

  // Augmentation.

  /** `Flow.augmentFlow`'s loop: each edge of the path in turn gains `b`
      and its reverse loses `b`. */
  function Augment(flow: map<Edge, int>, es: seq<Edge>, b: int): (r: map<Edge, int>)
    requires forall i | 0 <= i < |es| :: es[i] in flow && Reverse(es[i]) in flow
    ensures r.Keys == flow.Keys
    decreases |es|
  {
    if es == [] then flow
    else
      var e := es[0];
      var raised := flow[e := flow[e] + b];
      Augment(raised[Reverse(e) := raised[Reverse(e)] - b], es[1..], b)
  }

  /** No edge of the list repeats, none is a loop, and none is the reverse
      of another. */
  predicate Untangled(es: seq<Edge>)
  {
    (forall i | 0 <= i < |es| :: !IsLoop(es[i]))
    && forall i, j | 0 <= i < j < |es| :: es[i] != es[j] && es[i] != Reverse(es[j])
  }

  /** The edges of a path that visits no vertex twice are untangled. */
  lemma SimpleUntangled(p: Paths.Path)
    requires Paths.Valid(p) && G.Simple(p.vertices)
    ensures Untangled(Paths.EdgesOf(p))
  {
    var es := Paths.EdgesOf(p);
    forall i, j | 0 <= i < j < |es| ensures es[i] != es[j] && es[i] != Reverse(es[j]) {
      assert es[i].from == p.vertices[i] && es[j].from == p.vertices[j];
      assert es[i].to == p.vertices[i + 1] && es[j].to == p.vertices[j + 1];
      if i + 1 < j {
        assert p.vertices[i + 1] != p.vertices[j];
      }
    }
  }

  /** Along untangled edges, augmentation adds `b` on the path's edges,
      takes `b` off their reverses, and leaves every other edge alone. */
  lemma {:induction false} AugmentAt(flow: map<Edge, int>, es: seq<Edge>, b: int, x: Edge)
    requires forall i | 0 <= i < |es| :: es[i] in flow && Reverse(es[i]) in flow
    requires Untangled(es) && x in flow
    ensures Augment(flow, es, b)[x] == flow[x] + (if x in es then b else if Reverse(x) in es then -b else 0)
    decreases |es|
  {
    if es != [] {
      var e := es[0];
      var raised := flow[e := flow[e] + b];
      var next := raised[Reverse(e) := raised[Reverse(e)] - b];
      var tail := es[1..];
      assert Untangled(tail) by {
        forall i, j | 0 <= i < j < |tail| ensures tail[i] != tail[j] && tail[i] != Reverse(tail[j]) {
          assert tail[i] == es[i + 1] && tail[j] == es[j + 1];
        }
      }
      AugmentAt(next, tail, b, x);
      assert e !in tail && Reverse(e) !in tail by {
        forall j | 0 <= j < |tail| ensures tail[j] != e && tail[j] != Reverse(e) {
          assert tail[j] == es[j + 1];
        }
      }
      assert Reverse(e) != e;
      assert x in es <==> x == e || x in tail;
      assert Reverse(x) in es <==> Reverse(x) == e || Reverse(x) in tail;
    }
  }

  /** Augmenting untangled edges by at most their least remaining capacity
      keeps the flow feasible. */
  lemma AugmentFeasible(n: N.Network, flow: map<Edge, int>, es: seq<Edge>, b: int)
    requires N.Valid(n) && Feasible(n, flow) && Untangled(es) && b >= 0
    requires forall i | 0 <= i < |es| :: es[i] in flow && b <= Remaining(n, flow, es[i])
    ensures Feasible(n, Augment(flow, es, b))
  {
    var after := Augment(flow, es, b);
    forall x | x in flow ensures after[Reverse(x)] == -after[x] && Remaining(n, after, x) >= 0 {
      AugmentAt(flow, es, b, x);
      AugmentAt(flow, es, b, Reverse(x));
      ReverseInvolutive(x);
    }
  }

  // The flow value.

  /** `Flow.getTotalFlow`: the flow on the network's edges into the sink. */
  ghost function TotalFlow(n: N.Network, flow: map<Edge, int>, sink: Vertex): int
    requires N.Valid(n) && flow.Keys == Complete(n.graph.edges) && sink in n.graph.vertices
  {
    Sum(flow, G.Incoming(n.graph, sink).value)
  }

  /** The capacity of the network's edges into the sink. */
  ghost function CapacityInto(n: N.Network, sink: Vertex): int
    requires N.Valid(n) && sink in n.graph.vertices
  {
    Sum(n.capacities, G.Incoming(n.graph, sink).value)
  }

  /** A feasible flow's value is at least zero and at most the capacity
      into the sink. */
  lemma TotalBounds(n: N.Network, flow: map<Edge, int>, sink: Vertex)
    requires N.Valid(n) && Feasible(n, flow) && sink in n.graph.vertices
    ensures 0 <= TotalFlow(n, flow, sink) <= CapacityInto(n, sink)
  {
    var into := G.Incoming(n.graph, sink).value;
    forall e | e in into ensures 0 <= flow[e] <= n.capacities[e] {
      FeasibleBounds(n, flow, e);
    }
    SumNonNegative(flow, into);
    SumMonotone(flow, n.capacities, into);
  }

  // Conservation.

  /** Flow conservation: at every vertex other than the source and the
      sink, as much flows out along the network's edges as flows in. */
  ghost predicate Conserving(n: N.Network, source: Vertex, sink: Vertex, flow: map<Edge, int>)
    requires N.Valid(n) && flow.Keys == Complete(n.graph.edges)
  {
    forall v | v in n.graph.vertices && v != source && v != sink ::
      Sum(flow, G.Outgoing(n.graph, v).value) == Sum(flow, G.Incoming(n.graph, v).value)
  }

  /** A flow from `source` to `sink`: feasible, and conserved at every
      other vertex. */
  ghost predicate IsFlow(n: N.Network, source: Vertex, sink: Vertex, flow: map<Edge, int>)
    requires N.Valid(n)
  {
    Feasible(n, flow) && Conserving(n, source, sink, flow)
  }

  /** The residual edges leaving a vertex. */
  ghost function Leaving(n: N.Network, v: Vertex): (r: set<Edge>)
    requires N.Valid(n)
    ensures r <= Complete(n.graph.edges)
  {
    set e | e in Complete(n.graph.edges) && e.from == v
  }

  /** Where reverse edges carry the negated flow, the flow over the
      residual edges leaving a vertex is what flows out of it less what
      flows in. */
  lemma NetLeaving(n: N.Network, flow: map<Edge, int>, v: Vertex)
    requires N.Valid(n) && flow.Keys == Complete(n.graph.edges) && v in n.graph.vertices
    requires forall e | e in flow :: flow[Reverse(e)] == -flow[e]
    ensures Sum(flow, Leaving(n, v)) == Sum(flow, G.Outgoing(n.graph, v).value) - Sum(flow, G.Incoming(n.graph, v).value)
  {
    var out := G.Outgoing(n.graph, v).value;
    var into := G.Incoming(n.graph, v).value;
    forall e | e in Leaving(n, v) ensures e in out + Reversed(into) {
      ReverseInvolutive(e);
    }
    forall e | e in out + Reversed(into) ensures e in Leaving(n, v) {
      ReverseInvolutive(e);
    }
    assert Leaving(n, v) == out + Reversed(into);
    SumReversed(flow, into);
    SumUnion(flow, out, Reversed(into));
  }

  /** The zero flow is conserved everywhere. */
  lemma InitialConserving(n: N.Network, source: Vertex, sink: Vertex)
    requires N.Valid(n)
    ensures IsFlow(n, source, sink, InitialFlow(n))
  {
    var flow := InitialFlow(n);
    forall v | v in n.graph.vertices && v != source && v != sink
      ensures Sum(flow, G.Outgoing(n.graph, v).value) == Sum(flow, G.Incoming(n.graph, v).value)
    {
      SumZero(flow, G.Outgoing(n.graph, v).value);
      SumZero(flow, G.Incoming(n.graph, v).value);
    }
  }

  /** A walk from the source to the sink in the remaining graph that visits
      no vertex twice. */
  ghost predicate Augmenting(n: N.Network, flow: map<Edge, int>, source: Vertex, sink: Vertex, vs: seq<Vertex>)
    requires N.Valid(n) && flow.Keys == Complete(n.graph.edges)
  {
    |vs| >= 2 && G.Leads(RemainingGraph(n, flow), vs, source, sink) && G.Simple(vs)
  }

  /** Augmenting along a path to a sink with no outgoing edge raises the
      flow value by exactly the amount augmented: the path's last edge is
      an edge of the network into the sink, and no other edge into the sink
      or its reverse lies on the path. */
  lemma AugmentRaisesTotal(n: N.Network, flow: map<Edge, int>, source: Vertex, sink: Vertex, vs: seq<Vertex>, b: int)
    requires N.Valid(n) && Feasible(n, flow) && N.IsSink(n.graph, sink)
    requires Augmenting(n, flow, source, sink, vs)
    ensures var es := Paths.EdgesOf(Paths.Path(vs));
      (forall i | 0 <= i < |es| :: es[i] in flow && Reverse(es[i]) in flow)
      && TotalFlow(n, Augment(flow, es, b), sink) == TotalFlow(n, flow, sink) + b
  {
    var p := Paths.Path(vs);
    var es := Paths.EdgesOf(p);
    var remaining := RemainingGraph(n, flow);
    var k := |vs| - 1;
    forall i | 0 <= i < |es| ensures es[i] in flow && Reverse(es[i]) in flow {
      assert es[i] in remaining.edges;
    }
    SimpleUntangled(p);
    var last := es[k - 1];
    assert last == Edge(vs[k - 1], sink);
    assert last in remaining.edges;
    assert last in n.graph.edges;
    var into := G.Incoming(n.graph, sink).value;
    assert last in into;
    var after := Augment(flow, es, b);
    forall x | x in into && x != last ensures after[x] == flow[x] {
      AugmentAt(flow, es, b, x);
    }
    AugmentAt(flow, es, b, last);
    assert last in es;
    SumBump(flow, after, into, last, b);
  }

  /** The edges from each vertex of a walk to the next. */
  ghost predicate Along(vs: seq<Vertex>, es: seq<Edge>)
  {
    |es| + 1 == |vs| && forall i | 0 <= i < |es| :: es[i] == Edge(vs[i], vs[i + 1])
  }

  /** On a walk that visits no vertex twice, the only walk edge leaving its
      `i`-th vertex is the `i`-th edge, and the only edge leaving it whose
      reverse is on the walk is the reverse of the edge before. */
  lemma WalkEdgeAt(vs: seq<Vertex>, es: seq<Edge>, i: nat, x: Edge)
    requires Along(vs, es) && G.Simple(vs) && i < |vs| && x.from == vs[i]
    ensures x in es ==> i < |es| && x == es[i]
    ensures Reverse(x) in es ==> 0 < i && x == Reverse(es[i - 1])
  {
    forall j | 0 <= j < |es| && es[j] == x ensures j == i {
      assert es[j] == Edge(vs[j], vs[j + 1]);
    }
    forall j | 0 <= j < |es| && es[j] == Reverse(x) ensures j + 1 == i {
      assert vs[j + 1] == vs[i];
    }
  }

  /** No walk edge leaves a vertex off the walk, and none arrives there. */
  lemma WalkEdgeOff(vs: seq<Vertex>, es: seq<Edge>, x: Edge)
    requires Along(vs, es) && x.from !in vs
    ensures x !in es && Reverse(x) !in es
  {
    forall j | 0 <= j < |es| ensures es[j] != x && es[j] != Reverse(x) {
      assert vs[j] in vs && vs[j + 1] in vs;
    }
  }

  /** Augmenting along the edges of a walk leaves the residual edges
      leaving a vertex off the walk untouched. */
  lemma AugmentOffWalk(n: N.Network, flow: map<Edge, int>, vs: seq<Vertex>, es: seq<Edge>, b: int, v: Vertex)
    requires N.Valid(n) && flow.Keys == Complete(n.graph.edges)
    requires Along(vs, es) && Untangled(es) && v !in vs
    requires forall i | 0 <= i < |es| :: es[i] in flow && Reverse(es[i]) in flow
    ensures Sum(Augment(flow, es, b), Leaving(n, v)) == Sum(flow, Leaving(n, v))
  {
    var after := Augment(flow, es, b);
    forall x | x in Leaving(n, v) ensures after[x] == flow[x] {
      WalkEdgeOff(vs, es, x);
      AugmentAt(flow, es, b, x);
    }
    SumAgree(flow, after, Leaving(n, v));
  }

  /** At an inner vertex of a walk that visits no vertex twice, the walk
      edge on to the next vertex gains `b`, the reverse of the walk edge in
      from the previous vertex loses `b`, and no other edge leaving the
      vertex changes. */
  lemma AugmentAtInner(flow: map<Edge, int>, vs: seq<Vertex>, es: seq<Edge>, b: int, i: nat, x: Edge)
    requires Along(vs, es) && G.Simple(vs) && Untangled(es) && 0 < i < |vs| - 1
    requires forall k | 0 <= k < |es| :: es[k] in flow && Reverse(es[k]) in flow
    requires x in flow && x.from == vs[i]
    ensures es[i] != Reverse(es[i - 1])
    ensures var after := Augment(flow, es, b);
      after[x] == flow[x] + (if x == es[i] then b else if x == Reverse(es[i - 1]) then -b else 0)
  {
    WalkEdgeAt(vs, es, i, x);
    AugmentAt(flow, es, b, x);
    ReverseInvolutive(es[i - 1]);
    assert es[i - 1] in es;
    if x == es[i] {
      assert x in es;
    }
  }

  /** Augmenting along the edges of a walk that visits no vertex twice
      keeps the flow over the residual edges leaving an inner vertex of the
      walk: the edge on to the next vertex gains `b` while the reverse of
      the edge in from the previous one loses `b`. */
  lemma AugmentThrough(n: N.Network, flow: map<Edge, int>, vs: seq<Vertex>, es: seq<Edge>, b: int, i: nat)
    requires N.Valid(n) && flow.Keys == Complete(n.graph.edges)
    requires Along(vs, es) && G.Simple(vs) && Untangled(es) && 0 < i < |vs| - 1
    requires forall k | 0 <= k < |es| :: es[k] in flow && Reverse(es[k]) in flow
    ensures Sum(Augment(flow, es, b), Leaving(n, vs[i])) == Sum(flow, Leaving(n, vs[i]))
  {
    var after := Augment(flow, es, b);
    var out := Leaving(n, vs[i]);
    var up := es[i];
    var down := Reverse(es[i - 1]);
    forall x | x in out ensures after[x] == flow[x] + (if x == up then b else if x == down then -b else 0) {
      AugmentAtInner(flow, vs, es, b, i, x);
    }
    assert es[i] == Edge(vs[i], vs[i + 1]) && es[i - 1] == Edge(vs[i - 1], vs[i]);
    assert up in out && down in out;
    AugmentAtInner(flow, vs, es, b, i, up);
    SumShift(flow, after, out, up, down, b);
  }

  /** Augmenting an amount every edge of an augmenting path can take keeps
      the flow a flow: feasible, and conserved away from the source and the
      sink. */
  lemma AugmentConserving(n: N.Network, flow: map<Edge, int>, source: Vertex, sink: Vertex, vs: seq<Vertex>, b: int)
    requires N.Valid(n) && IsFlow(n, source, sink, flow) && Augmenting(n, flow, source, sink, vs) && b >= 0
    requires var es := Paths.EdgesOf(Paths.Path(vs));
      forall i | 0 <= i < |es| :: es[i] in flow && b <= Remaining(n, flow, es[i])
    ensures var es := Paths.EdgesOf(Paths.Path(vs));
      (forall i | 0 <= i < |es| :: Reverse(es[i]) in flow)
      && IsFlow(n, source, sink, Augment(flow, es, b))
  {
    var es := Paths.EdgesOf(Paths.Path(vs));
    SimpleUntangled(Paths.Path(vs));
    AugmentFeasible(n, flow, es, b);
    var after := Augment(flow, es, b);
    assert Along(vs, es);
    forall v | v in n.graph.vertices && v != source && v != sink
      ensures Sum(after, G.Outgoing(n.graph, v).value) == Sum(after, G.Incoming(n.graph, v).value)
    {
      if v in vs {
        var i :| 0 <= i < |vs| && vs[i] == v;
        AugmentThrough(n, flow, vs, es, b, i);
      } else {
        AugmentOffWalk(n, flow, vs, es, b, v);
      }
      NetLeaving(n, flow, v);
      NetLeaving(n, after, v);
    }
  }

  // Maximisation.

  /** Every edge of a walk in the remaining graph can still carry flow. */
  lemma OnRemaining(n: N.Network, flow: map<Edge, int>, p: Paths.Path)
    requires N.Valid(n) && flow.Keys == Complete(n.graph.edges)
    requires Paths.Valid(p) && G.IsWalk(RemainingGraph(n, flow), p.vertices)
    ensures var es := Paths.EdgesOf(p);
      forall i | 0 <= i < |es| :: es[i] in flow && Remaining(n, flow, es[i]) > 0
  {
    var es := Paths.EdgesOf(p);
    forall i | 0 <= i < |es| ensures es[i] in flow && Remaining(n, flow, es[i]) > 0 {
      assert es[i] == Edge(p.vertices[i], p.vertices[i + 1]);
      assert es[i] in RemainingGraph(n, flow).edges;
    }
  }

  /** `Flow.augmentFlow`: push the path's bottleneck capacity along a
      shortest path of the remaining graph from the source to the sink. The
      flow stays a flow, feasible and conserved, and its value grows by the
      bottleneck, which is at least one. */
  function AugmentAlong(n: N.Network, flow: map<Edge, int>, source: Vertex, sink: Vertex, p: Paths.Path): (after: map<Edge, int>)
    requires N.Valid(n) && IsFlow(n, source, sink, flow) && N.IsSink(n.graph, sink)
    requires Paths.Valid(p) && Paths.Start(p) == source && Paths.End(p) == sink
    requires G.Shortest(RemainingGraph(n, flow), p.vertices)
    ensures IsFlow(n, source, sink, after)
    ensures TotalFlow(n, after, sink) > TotalFlow(n, flow, sink)
  {
    var es := Paths.EdgesOf(p);
    AugmentAlongSound(n, flow, source, sink, p);
    Augment(flow, es, Remaining(n, flow, Bottleneck(n, flow, es)))
  }

  /** Pushing the bottleneck along a shortest remaining path keeps the flow
      a flow and raises its value. */
  lemma AugmentAlongSound(n: N.Network, flow: map<Edge, int>, source: Vertex, sink: Vertex, p: Paths.Path)
    requires N.Valid(n) && IsFlow(n, source, sink, flow) && N.IsSink(n.graph, sink)
    requires Paths.Valid(p) && Paths.Start(p) == source && Paths.End(p) == sink
    requires G.Shortest(RemainingGraph(n, flow), p.vertices)
    ensures var es := Paths.EdgesOf(p);
      && |es| >= 1 && (forall i | 0 <= i < |es| :: es[i] in flow && Reverse(es[i]) in flow)
      && var after := Augment(flow, es, Remaining(n, flow, Bottleneck(n, flow, es)));
         IsFlow(n, source, sink, after) && TotalFlow(n, after, sink) > TotalFlow(n, flow, sink)
  {
    var es := Paths.EdgesOf(p);
    AlongIsAugmenting(n, flow, source, sink, p);
    var b := BottleneckBounds(n, flow, p);
    AugmentRaisesTotal(n, flow, source, sink, p.vertices, b);
    SimpleUntangled(p);
    AugmentConserving(n, flow, source, sink, p.vertices, b);
  }

  /** The bottleneck of a path of the remaining graph is positive and bounds
      what every edge of the path can still take. */
  lemma BottleneckBounds(n: N.Network, flow: map<Edge, int>, p: Paths.Path) returns (b: int)
    requires N.Valid(n) && flow.Keys == Complete(n.graph.edges)
    requires Paths.Valid(p) && G.IsWalk(RemainingGraph(n, flow), p.vertices)
    ensures var es := Paths.EdgesOf(p);
      && (forall i | 0 <= i < |es| :: es[i] in flow && b <= Remaining(n, flow, es[i]))
      && b == Remaining(n, flow, Bottleneck(n, flow, es)) && b > 0
  {
    var es := Paths.EdgesOf(p);
    OnRemaining(n, flow, p);
    var e := Bottleneck(n, flow, es);
    var k :| 0 <= k < |es| && es[k] == e;
    b := Remaining(n, flow, e);
  }

  /** A shortest remaining path from the source to the sink is an augmenting one. */
  lemma AlongIsAugmenting(n: N.Network, flow: map<Edge, int>, source: Vertex, sink: Vertex, p: Paths.Path)
    requires N.Valid(n) && flow.Keys == Complete(n.graph.edges)
    requires Paths.Valid(p) && Paths.Start(p) == source && Paths.End(p) == sink
    requires G.Shortest(RemainingGraph(n, flow), p.vertices)
    ensures Augmenting(n, flow, source, sink, p.vertices) && G.Simple(p.vertices)
  {
    G.ShortestIsSimple(RemainingGraph(n, flow), p.vertices);
  }

  /** `Flow.maximize`: augment along breadth-first paths in the remaining
      graph until none leads from the source to the sink. The loop ends
      because each round raises the flow value by at least one, and the
      value never exceeds the capacity into the sink. */
  method Maximize(n: N.Network, source: Vertex, sink: Vertex) returns (r: Result<map<Edge, int>, G.GraphError>)
    requires N.Valid(n) && N.IsSource(n.graph, source) && N.IsSink(n.graph, sink)
    ensures r.Err? <==> source == sink
    ensures r.Err? ==> r.error == G.TrivialPath
    ensures r.Ok? ==> IsFlow(n, source, sink, r.value) && !G.Reachable(RemainingGraph(n, r.value), source, sink)
  {
    var flow := InitialFlow(n);
    InitialConserving(n, source, sink);
    while true
      invariant IsFlow(n, source, sink, flow)
      decreases CapacityInto(n, sink) - TotalFlow(n, flow, sink)
    {
      TotalBounds(n, flow, sink);
      var found := G.FindPath(RemainingGraph(n, flow), source, sink);
      if found.Err? {
        return Err(found.error);
      }
      if found.value.None? {
        return Ok(flow);
      }
      flow := AugmentAlong(n, flow, source, sink, found.value.value);
    }
  }

  /** A flow that no augmenting path can raise: the state `Flow.maximize`
      stops in. */
  ghost predicate Saturated(n: N.Network, source: Vertex, sink: Vertex, flow: map<Edge, int>)
    requires N.Valid(n)
  {
    IsFlow(n, source, sink, flow) && !G.Reachable(RemainingGraph(n, flow), source, sink)
  }

  // The cut bound: no flow exceeds a saturated one.

  /** The residual edges leaving some vertex of `side`. */
  ghost function LeavingSide(n: N.Network, side: set<Vertex>): (r: set<Edge>)
    requires N.Valid(n)
    ensures r <= Complete(n.graph.edges)
  {
    set e | e in Complete(n.graph.edges) && e.from in side
  }

  /** The residual edges from `side` to the vertices outside it. */
  ghost function Crossing(n: N.Network, side: set<Vertex>): (r: set<Edge>)
    requires N.Valid(n)
    ensures r <= Complete(n.graph.edges)
  {
    set e | e in Complete(n.graph.edges) && e.from in side && e.to !in side
  }

  /** What each residual edge can carry at most: its capacity on an edge of
      the network and nothing on a reverse. */
  ghost function Limits(n: N.Network): (r: map<Edge, int>)
    requires N.Valid(n)
    ensures r.Keys == Complete(n.graph.edges)
    ensures forall flow, e | e in r && e in flow :: Remaining(n, flow, e) == r[e] - flow[e]
  {
    map e | e in Complete(n.graph.edges) :: if e in n.graph.edges then n.capacities[e] else 0
  }

  /** With conservation at every vertex of `side` but the source, the flow
      over the residual edges leaving `side` is the flow leaving the
      source. */
  lemma {:induction false} LeavingSideSum(n: N.Network, source: Vertex, sink: Vertex, flow: map<Edge, int>, side: set<Vertex>)
    requires N.Valid(n) && IsFlow(n, source, sink, flow)
    requires source in side && sink !in side && side <= n.graph.vertices
    ensures Sum(flow, LeavingSide(n, side)) == Sum(flow, Leaving(n, source))
    decreases |side|
  {
    var others := side - {source};
    if others == {} {
      LeavingSideSplit(n, side, source);
      assert LeavingSide(n, others) == {};
      assert LeavingSide(n, side) == Leaving(n, source);
    } else {
      var v :| v in others;
      var rest := side - {v};
      LeavingSideSplit(n, side, v);
      SumUnion(flow, LeavingSide(n, rest), Leaving(n, v));
      ConservedLeaving(n, source, sink, flow, v);
      LeavingSideSum(n, source, sink, flow, rest);
    }
  }

  /** At a vertex where the flow is conserved the residual edges leaving it
      carry nothing in total. */
  lemma ConservedLeaving(n: N.Network, source: Vertex, sink: Vertex, flow: map<Edge, int>, v: Vertex)
    requires N.Valid(n) && IsFlow(n, source, sink, flow)
    requires v in n.graph.vertices && v != source && v != sink
    ensures Sum(flow, Leaving(n, v)) == 0
  {
    NetLeaving(n, flow, v);
  }

  /** The residual edges leaving a set are those leaving one of its
      vertices and those leaving the rest. */
  lemma LeavingSideSplit(n: N.Network, side: set<Vertex>, v: Vertex)
    requires N.Valid(n) && v in side
    ensures LeavingSide(n, side) == LeavingSide(n, side - {v}) + Leaving(n, v)
    ensures LeavingSide(n, side - {v}) !! Leaving(n, v)
  {
  }

  /** The residual edges of a network are no loops. */
  lemma CompleteLoopFree(n: N.Network, e: Edge)
    requires N.Valid(n) && e in Complete(n.graph.edges)
    ensures !IsLoop(e)
  {
    N.ValidHasEnds(n);
    if e !in n.graph.edges {
      assert !IsLoop(Reverse(e));
    }
  }

  /** Across every cut that puts the source on one side and the sink on
      the other, the flow over the crossing residual edges is the flow
      leaving the source: the edges inside `side` cancel with their
      reverses. */
  lemma CutFlow(n: N.Network, source: Vertex, sink: Vertex, flow: map<Edge, int>, side: set<Vertex>)
    requires N.Valid(n) && IsFlow(n, source, sink, flow)
    requires source in side && sink !in side && side <= n.graph.vertices
    ensures Sum(flow, Crossing(n, side)) == Sum(flow, Leaving(n, source))
  {
    var inner := set e | e in Complete(n.graph.edges) && e.from in side && e.to in side;
    forall e | e in inner ensures Reverse(e) in inner && !IsLoop(e) {
      CompleteLoopFree(n, e);
    }
    SumSkew(flow, inner);
    assert LeavingSide(n, side) == inner + Crossing(n, side);
    SumUnion(flow, inner, Crossing(n, side));
    LeavingSideSum(n, source, sink, flow, side);
  }

  /** The cut that leaves only the sink outside crosses exactly the
      network's edges into the sink, because no edge leaves the sink. */
  lemma SinkCut(n: N.Network, sink: Vertex)
    requires N.Valid(n) && N.IsSink(n.graph, sink)
    ensures Crossing(n, n.graph.vertices - {sink}) == G.Incoming(n.graph, sink).value
  {
    var side := n.graph.vertices - {sink};
    forall e | e in Crossing(n, side) ensures e in G.Incoming(n.graph, sink).value {
      if e !in n.graph.edges {
        assert Reverse(e) in n.graph.edges;
      }
    }
    forall e | e in G.Incoming(n.graph, sink).value ensures e in Crossing(n, side) {
      CompleteLoopFree(n, e);
    }
  }

  /** The value of a flow, read at the sink, crosses every cut between the
      source and the sink. */
  lemma CutValue(n: N.Network, source: Vertex, sink: Vertex, flow: map<Edge, int>, side: set<Vertex>)
    requires N.Valid(n) && IsFlow(n, source, sink, flow) && N.IsSink(n.graph, sink)
    requires source in side && sink !in side && side <= n.graph.vertices
    ensures Sum(flow, Crossing(n, side)) == TotalFlow(n, flow, sink)
  {
    CutFlow(n, source, sink, flow, side);
    CutFlow(n, source, sink, flow, n.graph.vertices - {sink});
    SinkCut(n, sink);
  }

  /** A walk extends by an edge from its end. */
  lemma WalkStep(g: G.Graph, w: seq<Vertex>, s: Vertex, e: Edge)
    requires G.Valid(g) && G.Leads(g, w, s, e.from) && e in g.edges
    ensures G.Leads(g, w + [e.to], s, e.to)
  {
    var w' := w + [e.to];
    forall i | 0 <= i < |w'| - 1 ensures Edge(w'[i], w'[i + 1]) in g.edges {
      if i < |w| - 1 {
        assert w'[i] == w[i] && w'[i + 1] == w[i + 1];
      }
    }
  }

  /** The vertices the remaining graph reaches from the source. */
  ghost function Reached(n: N.Network, flow: map<Edge, int>, source: Vertex): (r: set<Vertex>)
    requires N.Valid(n) && flow.Keys == Complete(n.graph.edges)
    ensures r <= n.graph.vertices
  {
    set v | v in n.graph.vertices && G.Reachable(RemainingGraph(n, flow), source, v)
  }

  /** What the remaining graph reaches is closed under its edges. */
  lemma ReachedClosed(n: N.Network, flow: map<Edge, int>, source: Vertex, e: Edge)
    requires N.Valid(n) && flow.Keys == Complete(n.graph.edges)
    requires e in flow && e.from in Reached(n, flow, source)
    ensures Remaining(n, flow, e) > 0 ==> e.to in Reached(n, flow, source)
  {
    var remaining := RemainingGraph(n, flow);
    if Remaining(n, flow, e) > 0 {
      var w :| G.Leads(remaining, w, source, e.from);
      WalkStep(remaining, w, source, e);
    }
  }

  /** A saturated flow uses every crossing residual edge of the cut around
      what the remaining graph reaches to its limit. */
  lemma SaturatedCut(n: N.Network, source: Vertex, sink: Vertex, flow: map<Edge, int>)
    requires N.Valid(n) && Saturated(n, source, sink, flow) && source in n.graph.vertices
    ensures var side := Reached(n, flow, source);
      source in side && sink !in side
      && Sum(flow, Crossing(n, side)) == Sum(Limits(n), Crossing(n, side))
  {
    var remaining := RemainingGraph(n, flow);
    var side := Reached(n, flow, source);
    assert G.Leads(remaining, [source], source, source);
    forall e | e in Crossing(n, side) ensures flow[e] == Limits(n)[e] {
      ReachedClosed(n, flow, source, e);
      FeasibleWithin(n, flow, e);
    }
    SumAgree(flow, Limits(n), Crossing(n, side));
  }

  /** No residual edge carries more than its limit. */
  lemma FeasibleWithin(n: N.Network, flow: map<Edge, int>, e: Edge)
    requires N.Valid(n) && Feasible(n, flow) && e in flow
    ensures flow[e] <= Limits(n)[e]
  {
  }

  /** The max-flow bound: a flow that no augmenting path can raise has a
      value no flow between the same source and sink exceeds, since every
      flow's value crosses the cut around what the saturated flow's
      remaining graph reaches, and that cut is used to its limit. */
  lemma SaturatedIsMaximum(n: N.Network, source: Vertex, sink: Vertex, flow: map<Edge, int>, other: map<Edge, int>)
    requires N.Valid(n) && N.IsSink(n.graph, sink) && source in n.graph.vertices
    requires Saturated(n, source, sink, flow) && IsFlow(n, source, sink, other)
    ensures TotalFlow(n, other, sink) <= TotalFlow(n, flow, sink)
  {
    SaturatedCut(n, source, sink, flow);
    var side := Reached(n, flow, source);
    CutValue(n, source, sink, flow, side);
    CutValue(n, source, sink, other, side);
    forall e | e in Crossing(n, side) ensures other[e] <= Limits(n)[e] {
      FeasibleWithin(n, other, e);
    }
    SumMonotone(other, Limits(n), Crossing(n, side));
  }

  /** `value` is the greatest value of a flow from `source` to `sink`, and
      some flow has it. */
  ghost predicate IsMaximum(n: N.Network, source: Vertex, sink: Vertex, value: int)
    requires N.Valid(n) && sink in n.graph.vertices
  {
    (exists flow :: IsFlow(n, source, sink, flow) && TotalFlow(n, flow, sink) == value)
    && forall flow | IsFlow(n, source, sink, flow) :: TotalFlow(n, flow, sink) <= value
  }

  /** `Flow.computeMaxFlow`: check the source and the sink, maximise, and
      add up the flow into the sink. */
  method MaxFlow(n: N.Network, source: Vertex, sink: Vertex) returns (r: Result<int, FlowError>)
    requires N.Valid(n)
    ensures source !in n.graph.vertices <==> r == Err(UnknownSource)
    ensures source in n.graph.vertices && !N.IsSource(n.graph, source) <==> r == Err(InvalidSource)
    ensures N.IsSource(n.graph, source) && sink !in n.graph.vertices <==> r == Err(UnknownSink)
    ensures N.IsSource(n.graph, source) && sink in n.graph.vertices && !N.IsSink(n.graph, sink) <==> r == Err(InvalidSink)
    ensures N.IsSource(n.graph, source) && N.IsSink(n.graph, sink) && source == sink <==> r == Err(SameSourceAndSink)
    ensures r.Ok? <==> N.IsSource(n.graph, source) && N.IsSink(n.graph, sink) && source != sink
    ensures r.Ok? ==> sink in n.graph.vertices && 0 <= r.value <= CapacityInto(n, sink)
    ensures r.Ok? ==> exists flow :: Saturated(n, source, sink, flow) && r.value == TotalFlow(n, flow, sink)
    ensures r.Ok? ==> IsMaximum(n, source, sink, r.value)
  {
    var validSource := N.IsValidSource(n, source);
    if validSource.Err? {
      return Err(UnknownSource);
    }
    if !validSource.value {
      return Err(InvalidSource);
    }
    var validSink := N.IsValidSink(n, sink);
    if validSink.Err? {
      return Err(UnknownSink);
    }
    if !validSink.value {
      return Err(InvalidSink);
    }
    var maximized := Maximize(n, source, sink);
    if maximized.Err? {
      return Err(SameSourceAndSink);
    }
    var flow := maximized.value;
    var total := SumOver(flow, G.Incoming(n.graph, sink).value);
    TotalBounds(n, flow, sink);
    assert Saturated(n, source, sink, flow);
    forall other | IsFlow(n, source, sink, other) ensures TotalFlow(n, other, sink) <= total {
      SaturatedIsMaximum(n, source, sink, flow, other);
    }
    return Ok(total);
  }

  /** The stream sum of `Flow.getTotalFlow`, one edge at a time. */
  method SumOver(flow: map<Edge, int>, edges: set<Edge>) returns (total: int)
    requires edges <= flow.Keys
    ensures total == Sum(flow, edges)
  {
    var todo := edges;
    ghost var summed: set<Edge> := {};
    total := 0;
    while todo != {}
      invariant todo + summed == edges && todo !! summed
      invariant total == Sum(flow, summed)
      decreases |todo|
    {
      var e :| e in todo;
      SumAdd(flow, summed, e);
      total := total + flow[e];
      todo := todo - {e};
      summed := summed + {e};
    }
  }
}
