/** Immutable directed graphs and the breadth-first path search over them
    (`Graph`). A graph is a set of vertices and a set of edges between them;
    every operation returns a new graph. */
module Graphs {
  import opened Wrappers
  import opened Edges
  import Paths
  import IC = ImmutableCollections

  datatype Graph = Graph(vertices: set<Vertex>, edges: set<Edge>)

  /** Every edge joins two vertices of the graph: `Graph.create` admits no
      other graph, so every graph the program holds is valid. */
  predicate Valid(g: Graph)
  {
    forall e | e in g.edges :: e.from in g.vertices && e.to in g.vertices
  }

  datatype GraphError =
    | DanglingEdge   // an edge names a vertex outside the graph
    | UnknownVertex  // a vertex argument is not part of the graph
    | TrivialPath    // the search would produce a path of a single vertex

  /** `Graph.create`: refused when an edge leaves the vertex set. */
  function Create(vertices: set<Vertex>, edges: set<Edge>): (r: Result<Graph, GraphError>)
    ensures r.Ok? <==> Valid(Graph(vertices, edges))
    ensures r.Ok? ==> r.value == Graph(vertices, edges)
    ensures r.Err? ==> r.error == DanglingEdge
  {
    if forall e | e in edges :: e.from in vertices && e.to in vertices then Ok(Graph(vertices, edges))
    else Err(DanglingEdge)
  }

  /** `Graph.update`: the graph itself when the edge is already in it, and
      otherwise the graph with the edge and both its endpoints added. */
  function Update(g: Graph, e: Edge): (r: Graph)
    requires Valid(g)
    ensures Valid(r)
    ensures r.vertices == g.vertices + {e.from, e.to}
    ensures r.edges == g.edges + {e}
  {
    if e in g.edges then g
    else Create(IC.Union(g.vertices, {e.from, e.to}), IC.Union(g.edges, {e})).value
  }

  /** Adding an edge twice is adding it once. */
  lemma UpdateIdempotent(g: Graph, e: Edge)
    requires Valid(g)
    ensures Update(Update(g, e), e) == Update(g, e)
  {
  }

  /** Edges may be added in either order. */
  lemma UpdateCommutes(g: Graph, a: Edge, b: Edge)
    requires Valid(g)
    ensures Update(Update(g, a), b) == Update(Update(g, b), a)
  {
  }

  /** `Graph.getOutgoingEdges`: the edges leaving a vertex of the graph. */
  function Outgoing(g: Graph, v: Vertex): (r: Result<set<Edge>, GraphError>)
    ensures r.Err? <==> v !in g.vertices
    ensures r.Err? ==> r.error == UnknownVertex
    ensures r.Ok? ==> r.value <= g.edges && forall e | e in r.value :: e.from == v
  {
    if v !in g.vertices then Err(UnknownVertex)
    else Ok(set e | e in g.edges && e.from == v)
  }

  /** `Graph.getIncomingEdges`: the edges arriving at a vertex of the graph. */
  function Incoming(g: Graph, v: Vertex): (r: Result<set<Edge>, GraphError>)
    ensures r.Err? <==> v !in g.vertices
    ensures r.Err? ==> r.error == UnknownVertex
    ensures r.Ok? ==> r.value <= g.edges && forall e | e in r.value :: e.to == v
  {
    if v !in g.vertices then Err(UnknownVertex)
    else Ok(set e | e in g.edges && e.to == v)
  }

  /** No edge of the graph is missed by the adjacency queries: each one is
      outgoing at its start and incoming at its end. */
  lemma AdjacencyComplete(g: Graph, e: Edge)
    requires Valid(g) && e in g.edges
    ensures e in Outgoing(g, e.from).value && e in Incoming(g, e.to).value
  {
  }

  /** `Graph.getOpenVertices`: the vertices some edge leaves. */
  function OpenVertices(g: Graph): (r: set<Vertex>)
    requires Valid(g)
    ensures r <= g.vertices
  {
    set e | e in g.edges :: e.from
  }

  /** `Graph.getClosedVertices`: the vertices some edge enters. */
  function ClosedVertices(g: Graph): (r: set<Vertex>)
    requires Valid(g)
    ensures r <= g.vertices
  {
    set e | e in g.edges :: e.to
  }

  /** A vertex is open exactly when it has outgoing edges, and closed
      exactly when it has incoming edges. */
  lemma OpenClosedByAdjacency(g: Graph, v: Vertex)
    requires Valid(g) && v in g.vertices
    ensures v in OpenVertices(g) <==> Outgoing(g, v).value != {}
    ensures v in ClosedVertices(g) <==> Incoming(g, v).value != {}
  {
    if v in OpenVertices(g) {
      var e :| e in g.edges && e.from == v;
      assert e in Outgoing(g, v).value;
    }
    if v in ClosedVertices(g) {
      var e :| e in g.edges && e.to == v;
      assert e in Incoming(g, v).value;
    }
  }

  // Walks, reachability and shortest walks: the terms the search is specified in.

  /** A walk visits vertices of the graph, each joined to the next by an edge. */
  ghost predicate IsWalk(g: Graph, w: seq<Vertex>)
  {
    |w| >= 1 && w[0] in g.vertices && forall i | 0 <= i < |w| - 1 :: Edge(w[i], w[i + 1]) in g.edges
  }

  /** `w` is a walk from `s` to `t`. */
  ghost predicate Leads(g: Graph, w: seq<Vertex>, s: Vertex, t: Vertex)
  {
    IsWalk(g, w) && w[0] == s && w[|w| - 1] == t
  }

  ghost predicate Reachable(g: Graph, s: Vertex, t: Vertex)
  {
    exists w :: Leads(g, w, s, t)
  }

  /** No walk between the same two vertices takes fewer steps. */
  ghost predicate Shortest(g: Graph, w: seq<Vertex>)
  {
    IsWalk(g, w) && forall w' | Leads(g, w', w[0], w[|w| - 1]) :: |w| <= |w'|
  }

  /** No vertex is visited twice. */
  predicate Simple(w: seq<Vertex>)
  {
    forall i, j | 0 <= i < j < |w| :: w[i] != w[j]
  }

  /** A shortest walk never visits a vertex twice: cutting out the loop
      between two visits would give a shorter one. */
  lemma ShortestIsSimple(g: Graph, w: seq<Vertex>)
    requires Shortest(g, w)
    ensures Simple(w)
  {
    forall i, j | 0 <= i < j < |w| ensures w[i] != w[j] {
      if w[i] == w[j] {
        var cut := w[..i] + w[j..];
        assert |cut| < |w|;
        forall k | 0 <= k < |cut| - 1 ensures Edge(cut[k], cut[k + 1]) in g.edges {
          if k < i - 1 {
            assert cut[k] == w[k] && cut[k + 1] == w[k + 1];
          } else if k == i - 1 {
            assert cut[k] == w[i - 1] && cut[k + 1] == w[j];
          } else {
            assert cut[k] == w[k + j - i] && cut[k + 1] == w[k + 1 + j - i];
          }
        }
        assert cut[0] == w[0] by {
          if i == 0 { assert cut[0] == w[j]; }
        }
        assert Leads(g, cut, w[0], w[|w| - 1]);
        assert false;
      }
    }
  }

  // The invariants of the breadth-first search.

  /** The search tree: every encountered vertex other than the start has a
      parent it was reached from, one step further from the start. */
  ghost predicate Tree(g: Graph, start: Vertex, encountered: set<Vertex>, parents: map<Vertex, Vertex>, dist: map<Vertex, nat>)
  {
    start in encountered && encountered <= g.vertices && dist.Keys == encountered && dist[start] == 0
    && parents.Keys == encountered - {start}
    && forall v | v in parents ::
         parents[v] in encountered && Edge(parents[v], v) in g.edges && dist[v] == dist[parents[v]] + 1
  }

  /** No walk from the start reaches an encountered vertex in fewer steps
      than its recorded distance. */
  ghost predicate Minimal(g: Graph, start: Vertex, dist: map<Vertex, nat>)
  {
    forall v, w | v in dist && Leads(g, w, start, v) :: dist[v] <= |w| - 1
  }

  /** The queue holds distinct encountered vertices by increasing distance,
      spanning at most two adjacent distances. */
  ghost predicate Layered(queue: seq<Vertex>, dist: map<Vertex, nat>)
  {
    (forall i | 0 <= i < |queue| :: queue[i] in dist)
    && (forall i, j | 0 <= i < j < |queue| :: queue[i] != queue[j] && dist[queue[i]] <= dist[queue[j]])
    && (|queue| > 0 ==> dist[queue[|queue| - 1]] <= dist[queue[0]] + 1)
  }

  /** Every successor of a finished vertex has been encountered. */
  ghost predicate Expanded(g: Graph, done: set<Vertex>, encountered: set<Vertex>)
  {
    forall e | e in g.edges && e.from in done :: e.to in encountered
  }

  /** The encountered vertices are the finished ones and the queued ones. */
  ghost predicate Partitioned(done: set<Vertex>, queue: seq<Vertex>, encountered: set<Vertex>)
  {
    done <= encountered
    && (forall v | v in done :: v !in queue)
    && (forall i | 0 <= i < |queue| :: queue[i] in encountered)
    && (forall v | v in encountered && v !in done :: v in queue)
  }

  /** With every vertex nearer than `d` finished, each walk from the start
      of at most `d` steps ends at an encountered vertex. */
  lemma {:induction false} WithinReach(g: Graph, start: Vertex, done: set<Vertex>, encountered: set<Vertex>,
                                       dist: map<Vertex, nat>, d: nat, w: seq<Vertex>)
    requires start in encountered && dist.Keys == encountered && Minimal(g, start, dist)
    requires Expanded(g, done, encountered)
    requires forall v | v in encountered && dist[v] < d :: v in done
    requires IsWalk(g, w) && w[0] == start && |w| - 1 <= d
    ensures w[|w| - 1] in encountered
    decreases |w|
  {
    if |w| > 1 {
      var prefix := w[..|w| - 1];
      assert IsWalk(g, prefix);
      WithinReach(g, start, done, encountered, dist, d, prefix);
      var u := prefix[|prefix| - 1];
      assert Leads(g, prefix, start, u);
      assert dist[u] < d;
      assert Edge(u, w[|w| - 1]) in g.edges;
    }
  }

  /** Once every encountered vertex is finished, every walk from the start
      stays among the encountered vertices. */
  lemma {:induction false} Enclosed(g: Graph, start: Vertex, encountered: set<Vertex>, w: seq<Vertex>)
    requires start in encountered && Expanded(g, encountered, encountered)
    requires IsWalk(g, w) && w[0] == start
    ensures w[|w| - 1] in encountered
    decreases |w|
  {
    if |w| > 1 {
      var prefix := w[..|w| - 1];
      assert IsWalk(g, prefix);
      Enclosed(g, start, encountered, prefix);
      assert Edge(prefix[|prefix| - 1], w[|w| - 1]) in g.edges;
    }
  }

  /** Recording a newly found vertex one step beyond distance `d` keeps the
      distances minimal. */
  lemma Discover(g: Graph, start: Vertex, done: set<Vertex>, encountered: set<Vertex>,
                 dist: map<Vertex, nat>, d: nat, v: Vertex)
    requires start in encountered && dist.Keys == encountered && Minimal(g, start, dist)
    requires Expanded(g, done, encountered)
    requires forall u | u in encountered && dist[u] < d :: u in done
    requires v !in encountered
    ensures Minimal(g, start, dist[v := d + 1])
  {
    forall x, w | x in dist[v := d + 1] && Leads(g, w, start, x) ensures dist[v := d + 1][x] <= |w| - 1 {
      if x == v && |w| - 1 <= d {
        WithinReach(g, start, done, encountered, dist, d, w);
      }
    }
  }

  /** Adding a newly found vertex under its parent keeps the tree. */
  lemma Grow(g: Graph, start: Vertex, encountered: set<Vertex>, parents: map<Vertex, Vertex>,
             dist: map<Vertex, nat>, u: Vertex, v: Vertex)
    requires Valid(g) && Tree(g, start, encountered, parents, dist)
    requires u in encountered && v !in encountered && Edge(u, v) in g.edges
    ensures Tree(g, start, encountered + {v}, parents[v := u], dist[v := dist[u] + 1])
  {
  }

  /** Only the start lies at distance 0. */
  lemma ZeroIsStart(g: Graph, start: Vertex, encountered: set<Vertex>, parents: map<Vertex, Vertex>,
                    dist: map<Vertex, nat>, v: Vertex)
    requires Tree(g, start, encountered, parents, dist) && v in encountered
    ensures dist[v] == 0 <==> v == start
  {
    if v != start {
      assert v in parents;
    }
  }

  /** The state between two rounds of the search. */
  ghost predicate Searching(g: Graph, start: Vertex, goal: Vertex, encountered: set<Vertex>, queue: seq<Vertex>,
                            parents: map<Vertex, Vertex>, dist: map<Vertex, nat>, done: set<Vertex>)
  {
    Tree(g, start, encountered, parents, dist) && Minimal(g, start, dist)
    && Layered(queue, dist) && Partitioned(done, queue, encountered)
    && Expanded(g, done, encountered) && goal !in done
  }

  /** The state while the successors of `current`, at distance `d`, are
      visited: `rest` is what was queued before, `todo` the edges left. */
  ghost predicate Expanding(g: Graph, start: Vertex, goal: Vertex, current: Vertex, d: nat, rest: seq<Vertex>,
                            out: set<Edge>, todo: set<Edge>, encountered: set<Vertex>, queue: seq<Vertex>,
                            parents: map<Vertex, Vertex>, dist: map<Vertex, nat>, done: set<Vertex>)
  {
    Valid(g) && current in g.vertices && todo <= out && out == Outgoing(g, current).value
    && Tree(g, start, encountered, parents, dist) && Minimal(g, start, dist)
    && current in encountered && dist[current] == d && current !in done && current != goal
    && current !in queue && |queue| >= |rest| && queue[..|rest|] == rest
    && (forall i | 0 <= i < |queue| :: queue[i] in dist && d <= dist[queue[i]] <= d + 1)
    && (forall i | |rest| <= i < |queue| :: dist[queue[i]] == d + 1)
    && (forall i, j | 0 <= i < j < |queue| :: queue[i] != queue[j] && dist[queue[i]] <= dist[queue[j]])
    && (forall v | v in done :: v !in queue)
    && done <= encountered && (forall i | 0 <= i < |queue| :: queue[i] in encountered)
    && (forall v | v in encountered && v !in done && v != current :: v in queue)
    && (forall u | u in encountered && dist[u] < d :: u in done)
    && Expanded(g, done, encountered) && goal !in done
    && (forall e | e in out - todo :: e.to in encountered)
  }

  /** Taking the head of the queue starts its expansion. */
  lemma BeginExpand(g: Graph, start: Vertex, goal: Vertex, encountered: set<Vertex>, queue: seq<Vertex>,
                    parents: map<Vertex, Vertex>, dist: map<Vertex, nat>, done: set<Vertex>)
    requires Valid(g) && Searching(g, start, goal, encountered, queue, parents, dist, done)
    requires queue != [] && queue[0] != goal
    ensures var current := queue[0]; var out := Outgoing(g, current).value;
      Expanding(g, start, goal, current, dist[current], queue[1..], out, out, encountered, queue[1..], parents, dist, done)
  {
    QueueTail(queue, dist, encountered, done);
    QueueTailMembers(queue, dist, encountered, done);
  }

  /** Taking the head off the queue leaves it layered, with every vertex
      left at least as far as the head and at most one step farther. */
  lemma QueueTail(queue: seq<Vertex>, dist: map<Vertex, nat>, encountered: set<Vertex>, done: set<Vertex>)
    requires Layered(queue, dist) && Partitioned(done, queue, encountered) && queue != []
    requires encountered == dist.Keys
    ensures var rest, current := queue[1..], queue[0]; var d := dist[current];
      && current in encountered && current !in done && current !in rest
      && (forall i | 0 <= i < |rest| :: rest[i] in dist && d <= dist[rest[i]] <= d + 1)
      && (forall i, j | 0 <= i < j < |rest| :: rest[i] != rest[j] && dist[rest[i]] <= dist[rest[j]])
  {
    var current := queue[0];
    var rest := queue[1..];
    var d := dist[current];
    forall i | 0 <= i < |rest| ensures rest[i] in dist && d <= dist[rest[i]] <= d + 1 && rest[i] != current {
      assert rest[i] == queue[i + 1];
    }
    forall i, j | 0 <= i < j < |rest| ensures rest[i] != rest[j] && dist[rest[i]] <= dist[rest[j]] {
      assert rest[i] == queue[i + 1] && rest[j] == queue[j + 1];
    }
  }

  /** The rest of the queue still holds every unfinished vertex but the
      head, no finished one, and every vertex nearer than the head is
      finished. */
  lemma QueueTailMembers(queue: seq<Vertex>, dist: map<Vertex, nat>, encountered: set<Vertex>, done: set<Vertex>)
    requires Layered(queue, dist) && Partitioned(done, queue, encountered) && queue != []
    requires encountered == dist.Keys
    ensures var rest, current := queue[1..], queue[0]; var d := dist[current];
      && (forall v | v in done :: v !in rest)
      && (forall i | 0 <= i < |rest| :: rest[i] in encountered)
      && (forall v | v in encountered && v !in done && v != current :: v in rest)
      && (forall u | u in encountered && dist[u] < d :: u in done)
  {
    var current := queue[0];
    var rest := queue[1..];
    forall v | v in encountered && v !in done && v != current ensures v in rest {
      var k :| 0 <= k < |queue| && queue[k] == v;
      assert rest[k - 1] == v;
    }
    forall i | 0 <= i < |rest| ensures rest[i] in encountered {
      assert rest[i] == queue[i + 1];
    }
  }

  /** Visiting one outgoing edge of `current` keeps the expansion state,
      recording the edge's target if it is new. */
  lemma StepExpand(g: Graph, start: Vertex, goal: Vertex, current: Vertex, d: nat, rest: seq<Vertex>,
                   out: set<Edge>, todo: set<Edge>, encountered: set<Vertex>, queue: seq<Vertex>,
                   parents: map<Vertex, Vertex>, dist: map<Vertex, nat>, done: set<Vertex>, e: Edge)
    requires Expanding(g, start, goal, current, d, rest, out, todo, encountered, queue, parents, dist, done)
    requires e in todo
    ensures e.to in encountered ==>
      Expanding(g, start, goal, current, d, rest, out, todo - {e}, encountered, queue, parents, dist, done)
    ensures e.to !in encountered ==>
      Expanding(g, start, goal, current, d, rest, out, todo - {e}, encountered + {e.to}, queue + [e.to],
                parents[e.to := e.from], dist[e.to := d + 1], done)
  {
    assert e in g.edges && e.from == current;
    if e.to !in encountered {
      Discover(g, start, done, encountered, dist, d, e.to);
      Grow(g, start, encountered, parents, dist, current, e.to);
      var queue' := queue + [e.to];
      assert queue'[..|rest|] == rest;
    }
  }

  /** Once every outgoing edge is visited, `current` is finished. */
  lemma EndExpand(g: Graph, start: Vertex, goal: Vertex, current: Vertex, d: nat, rest: seq<Vertex>,
                  out: set<Edge>, encountered: set<Vertex>, queue: seq<Vertex>,
                  parents: map<Vertex, Vertex>, dist: map<Vertex, nat>, done: set<Vertex>)
    requires Expanding(g, start, goal, current, d, rest, out, {}, encountered, queue, parents, dist, done)
    ensures Searching(g, start, goal, encountered, queue, parents, dist, done + {current})
  {
    forall e | e in g.edges && e.from in done + {current} ensures e.to in encountered {
      if e.from == current {
        assert e in out;
      }
    }
  }

  /** Following the parents back from an encountered vertex gives a walk
      from the start to it, as many steps long as its distance. */
  method Backtrack(g: Graph, start: Vertex, encountered: set<Vertex>, parents: map<Vertex, Vertex>,
                   ghost dist: map<Vertex, nat>, target: Vertex) returns (vertices: seq<Vertex>)
    requires Tree(g, start, encountered, parents, dist) && target in encountered
    ensures Leads(g, vertices, start, target) && |vertices| == dist[target] + 1
  {
    // The source collects the chain from the target back and then reverses
    // it; here it is built front to back directly.
    vertices := [target];
    var v := target;
    while v in parents
      invariant v in encountered && |vertices| >= 1 && vertices[0] == v && vertices[|vertices| - 1] == target
      invariant dist[v] + |vertices| - 1 == dist[target]
      invariant forall i | 0 <= i < |vertices| - 1 :: Edge(vertices[i], vertices[i + 1]) in g.edges
      decreases dist[v]
    {
      v := parents[v];
      vertices := [v] + vertices;
    }
  }

  /** The walk found by following the parents back from the goal is a
      shortest one, and it has an edge unless the goal is the start. */
  lemma Found(g: Graph, start: Vertex, goal: Vertex, encountered: set<Vertex>, parents: map<Vertex, Vertex>,
              dist: map<Vertex, nat>, vertices: seq<Vertex>)
    requires Tree(g, start, encountered, parents, dist) && Minimal(g, start, dist) && goal in encountered
    requires Leads(g, vertices, start, goal) && |vertices| == dist[goal] + 1
    ensures Shortest(g, vertices)
    ensures |vertices| >= 2 <==> start != goal
  {
    ZeroIsStart(g, start, encountered, parents, dist, goal);
  }

  /** When the queue runs empty before the goal is taken from it, the goal
      cannot be reached. */
  lemma Exhausted(g: Graph, start: Vertex, goal: Vertex, encountered: set<Vertex>,
                  parents: map<Vertex, Vertex>, dist: map<Vertex, nat>, done: set<Vertex>)
    requires Searching(g, start, goal, encountered, [], parents, dist, done)
    ensures !Reachable(g, start, goal)
  {
    assert done == encountered;
    if Reachable(g, start, goal) {
      var w :| Leads(g, w, start, goal);
      Enclosed(g, start, encountered, w);
    }
  }

  lemma SubsetSize<T>(a: set<T>, b: set<T>)
    requires a <= b
    ensures |a| <= |b|
  {
    if a != {} {
      var x :| x in a;
      SubsetSize(a - {x}, b - {x});
    }
  }

  /** A finished round either took the queue's head alone or encountered
      new vertices, so the search ends. */
  lemma Progress(vertices: set<Vertex>, before: set<Vertex>, after: set<Vertex>)
    requires before <= after <= vertices
    ensures after != before ==> |vertices - after| < |vertices - before|
  {
    if after != before {
      assert after - before != {} by {
        if after - before == {} {
          forall x | x in after ensures x in before { assert x !in after - before; }
        }
      }
      var v :| v in after - before;
      var small := vertices - after;
      assert small + {v} <= vertices - before;
      assert |small + {v}| == |small| + 1;
      SubsetSize(small + {v}, vertices - before);
    }
  }

  /** One round of `Graph.findPath`: every successor of `current` not yet
      encountered is queued behind the rest, with `current` as its parent. */
  method Expand(g: Graph, start: Vertex, goal: Vertex, current: Vertex, ghost d: nat, encountered: set<Vertex>,
                queue: seq<Vertex>, parents: map<Vertex, Vertex>, ghost dist: map<Vertex, nat>, ghost done: set<Vertex>)
    returns (encountered': set<Vertex>, queue': seq<Vertex>, parents': map<Vertex, Vertex>, ghost dist': map<Vertex, nat>)
    requires Valid(g) && current in g.vertices
    requires Expanding(g, start, goal, current, d, queue, Outgoing(g, current).value, Outgoing(g, current).value,
                       encountered, queue, parents, dist, done)
    ensures Searching(g, start, goal, encountered', queue', parents', dist', done + {current})
    ensures encountered <= encountered' <= g.vertices && (encountered' == encountered ==> queue' == queue)
  {
    encountered', queue', parents', dist' := encountered, queue, parents, dist;
    ghost var rest := queue;
    var todo := Outgoing(g, current).value;
    ghost var out := todo;
    while todo != {}
      invariant Expanding(g, start, goal, current, d, rest, out, todo, encountered', queue', parents', dist', done)
      invariant encountered <= encountered' <= g.vertices && (encountered' == encountered ==> queue' == rest)
      decreases |todo|
    {
      var e :| e in todo;
      StepExpand(g, start, goal, current, d, rest, out, todo, encountered', queue', parents', dist', done, e);
      todo := todo - {e};
      if e.to !in encountered' {
        queue' := queue' + [e.to];
        encountered' := encountered' + {e.to};
        parents' := parents'[e.to := e.from];
        dist' := dist'[e.to := d + 1];
      }
    }
    EndExpand(g, start, goal, current, d, rest, out, encountered', queue', parents', dist', done);
  }

  /** `Graph.findPath`: breadth-first search from `start` for `goal`. Both
      must be vertices of the graph. A path is found exactly when the goal
      is reachable, and it is a shortest one; searching from a vertex for
      itself fails, since a single vertex is no path. */
  method FindPath(g: Graph, start: Vertex, goal: Vertex) returns (r: Result<Option<Paths.Path>, GraphError>)
    requires Valid(g)
    ensures r == Err(UnknownVertex) <==> start !in g.vertices || goal !in g.vertices
    ensures r == Err(TrivialPath) <==> start in g.vertices && goal in g.vertices && start == goal
    ensures r.Err? ==> r.error == UnknownVertex || r.error == TrivialPath
    ensures r.Ok? ==> (r.value.Some? <==> Reachable(g, start, goal))
    ensures r.Ok? && r.value.Some? ==> var p := r.value.value;
      Paths.Valid(p) && Paths.Start(p) == start && Paths.End(p) == goal && Shortest(g, p.vertices)
  {
    if start !in g.vertices || goal !in g.vertices {
      return Err(UnknownVertex);
    }
    var encountered: set<Vertex> := {start};
    var queue: seq<Vertex> := [start];
    var parents: map<Vertex, Vertex> := map[];
    ghost var dist: map<Vertex, nat> := map[start := 0];
    ghost var done: set<Vertex> := {};
    assert Minimal(g, start, dist) by {
      forall v, w | v in dist && Leads(g, w, start, v) ensures dist[v] <= |w| - 1 { }
    }

    while queue != []
      invariant Searching(g, start, goal, encountered, queue, parents, dist, done)
      decreases |g.vertices - encountered|, |queue|
    {
      var current := queue[0];
      if current == goal {
        var vertices := Backtrack(g, start, encountered, parents, dist, goal);
        Found(g, start, goal, encountered, parents, dist, vertices);
        var path := Paths.FromVertices(vertices);
        if path.None? {
          return Err(TrivialPath);
        }
        return Ok(path);
      }
      BeginExpand(g, start, goal, encountered, queue, parents, dist, done);
      ghost var before := encountered;
      encountered, queue, parents, dist := Expand(g, start, goal, current, dist[current], encountered, queue[1..], parents, dist, done);
      done := done + {current};
      Progress(g.vertices, before, encountered);
    }
    Exhausted(g, start, goal, encountered, parents, dist, done);
    return Ok(None);
  }
}
