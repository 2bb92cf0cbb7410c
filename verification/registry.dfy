/** The state of the escape networks program (`EscapeNetworkSystem`): the
    registered networks by name, and per network a cache of the maximum
    flows computed so far between a source and a sink. Also the rules of
    the `add` command (`AddCommand`), which registers a new network or
    extends a registered one by a single section. */
module Registry {
  import opened Wrappers
  import opened Edges
  import G = Graphs
  import N = Networks
  import F = Flows
  import S = Sections
  import T = NetworkText

  /** Maximum flows by (source, sink). */
  type FlowCache = map<(Vertex, Vertex), int>

  datatype System = System(networks: map<string, N.Network>, cache: map<string, FlowCache>)

  /** Every vertex of the network has a valid name. */
  predicate NamesValid(n: N.Network)
  {
    forall v | v in n.graph.vertices :: S.IsVertexName(v.identifier)
  }

  /** What registration guarantees: valid network names, valid networks
      with valid vertex names, and flow caches only for registered
      networks. */
  predicate Valid(sys: System)
  {
    (forall id | id in sys.networks :: S.IsNetworkName(id) && N.Valid(sys.networks[id]) && NamesValid(sys.networks[id]))
    && sys.cache.Keys <= sys.networks.Keys
  }

  /** `value` is the maximum flow from `source` to `sink`: the value of a
      flow that no augmenting path can raise, and no flow has a greater
      one. */
  ghost predicate IsMaxFlow(n: N.Network, source: Vertex, sink: Vertex, value: int)
    requires N.Valid(n)
  {
    && sink in n.graph.vertices
    && (exists flow :: F.Saturated(n, source, sink, flow) && value == F.TotalFlow(n, flow, sink))
    && F.IsMaximum(n, source, sink, value)
  }

  /** Every cached flow is the maximised flow of its network. */
  ghost predicate Consistent(sys: System)
  {
    Valid(sys)
    && forall id, ends | id in sys.cache && ends in sys.cache[id] ::
         IsMaxFlow(sys.networks[id], ends.0, ends.1, sys.cache[id][ends])
  }

  /** The `EscapeNetworkSystem` constructor: nothing registered, nothing
      cached. */
  function Empty(): (sys: System)
    ensures Consistent(sys)
    ensures forall id :: FindNetwork(sys, id).None? && CachedFlows(sys, id) == map[]
  {
    System(map[], map[])
  }

  /** `findNetwork`: the network registered under the name, if any. */
  function FindNetwork(sys: System, id: string): (r: Option<N.Network>)
    ensures r.Some? <==> id in sys.networks
    ensures r.Some? ==> r.value == sys.networks[id]
  {
    if id in sys.networks then Some(sys.networks[id]) else None
  }

  /** Why `registerNetwork` refuses a network. */
  datatype RegisterError = IllegalNetworkName | IllegalVertexName

  /** `registerNetwork`: check the name and the network's vertex names,
      then map the name to the network, replacing any earlier one. The
      flow cache is left as it is. */
  function Register(sys: System, id: string, n: N.Network): (r: Result<System, RegisterError>)
    ensures r.Ok? <==> S.IsNetworkName(id) && NamesValid(n)
    ensures !S.IsNetworkName(id) ==> r == Err(IllegalNetworkName)
    ensures S.IsNetworkName(id) && !NamesValid(n) ==> r == Err(IllegalVertexName)
    ensures r.Ok? ==> r.value.cache == sys.cache && r.value.networks == sys.networks[id := n]
  {
    if !S.IsNetworkName(id) then Err(IllegalNetworkName)
    else if !NamesValid(n) then Err(IllegalVertexName)
    else Ok(System(sys.networks[id := n], sys.cache))
  }

  /** After registration the name finds the network, every other name
      finds what it found before, and a valid network keeps the system
      valid. */
  lemma RegisterFind(sys: System, id: string, n: N.Network, other: string)
    requires Register(sys, id, n).Ok?
    ensures FindNetwork(Register(sys, id, n).value, id) == Some(n)
    ensures other != id ==> FindNetwork(Register(sys, id, n).value, other) == FindNetwork(sys, other)
    ensures Valid(sys) && N.Valid(n) ==> Valid(Register(sys, id, n).value)
  {
  }

  /** `getCachedFlows`: the flows cached for the name; none when nothing
      was cached. */
  function CachedFlows(sys: System, id: string): (r: FlowCache)
    ensures id !in sys.cache ==> r == map[]
    ensures id in sys.cache ==> r == sys.cache[id]
  {
    if id in sys.cache then sys.cache[id] else map[]
  }

  /** `invalidateFlowCache`: forget the flows cached for the name. */
  function Invalidate(sys: System, id: string): (r: System)
    ensures r.networks == sys.networks
    ensures CachedFlows(r, id) == map[]
    ensures forall other | other != id :: CachedFlows(r, other) == CachedFlows(sys, other)
    ensures Valid(sys) ==> Valid(r)
    ensures Consistent(sys) ==> Consistent(r)
  {
    System(sys.networks, sys.cache - {id})
  }

  /** The outer `computeIfAbsent` of `computeMaxFlow`: a registered name
      gets an empty cache when it has none. Every other cache stays, and
      the cache stays correct. */
  function Touch(sys: System, id: string): (after: System)
    requires Valid(sys) && id in sys.networks
    ensures after.networks == sys.networks && id in after.cache && after.cache[id] == CachedFlows(sys, id)
    ensures forall other | other != id :: CachedFlows(after, other) == CachedFlows(sys, other)
    ensures Valid(after) && (Consistent(sys) ==> Consistent(after))
  {
    var after := System(sys.networks, sys.cache[id := CachedFlows(sys, id)]);
    TouchConsistent(sys, id, after);
    after
  }

  lemma TouchConsistent(sys: System, id: string, after: System)
    requires Valid(sys) && id in sys.networks
    requires after == System(sys.networks, sys.cache[id := CachedFlows(sys, id)])
    ensures Valid(after) && (Consistent(sys) ==> Consistent(after))
  {
    if Consistent(sys) {
      forall other, ends | other in after.cache && ends in after.cache[other]
        ensures IsMaxFlow(after.networks[other], ends.0, ends.1, after.cache[other][ends])
      {
        assert after.cache[other] == CachedFlows(sys, other);
        KeptEntry(sys, after, other, ends);
      }
    }
  }

  /** The inner `computeIfAbsent` of `computeMaxFlow` after a successful
      computation: the flow is cached for its source and sink. Every other
      entry stays, and a maximised flow keeps the cache correct. */
  function Store(sys: System, id: string, source: Vertex, sink: Vertex, value: int): (after: System)
    requires Valid(sys) && id in sys.networks
    ensures after.networks == sys.networks && id in after.cache
    ensures after.cache[id] == CachedFlows(sys, id)[(source, sink) := value]
    ensures forall other | other != id :: CachedFlows(after, other) == CachedFlows(sys, other)
    ensures Valid(after)
    ensures Consistent(sys) && IsMaxFlow(sys.networks[id], source, sink, value) ==> Consistent(after)
  {
    var after := System(sys.networks, sys.cache[id := CachedFlows(sys, id)[(source, sink) := value]]);
    StoreConsistent(sys, id, source, sink, value, after);
    after
  }

  lemma StoreConsistent(sys: System, id: string, source: Vertex, sink: Vertex, value: int, after: System)
    requires Valid(sys) && id in sys.networks
    requires after == System(sys.networks, sys.cache[id := CachedFlows(sys, id)[(source, sink) := value]])
    ensures Consistent(sys) && IsMaxFlow(sys.networks[id], source, sink, value) ==> Consistent(after)
  {
    if !(Consistent(sys) && IsMaxFlow(sys.networks[id], source, sink, value)) {
      return;
    }
    forall other, ends | other in after.cache && ends in after.cache[other]
      ensures IsMaxFlow(after.networks[other], ends.0, ends.1, after.cache[other][ends])
    {
      if other != id || ends != (source, sink) {
        KeptEntry(sys, after, other, ends);
      }
    }
  }

  /** An entry the update left as it was is still a maximised flow. */
  lemma KeptEntry(sys: System, after: System, other: string, ends: (Vertex, Vertex))
    requires Consistent(sys) && after.networks == sys.networks
    requires other in sys.cache && ends in sys.cache[other]
    requires other in after.cache && ends in after.cache[other]
    requires after.cache[other][ends] == sys.cache[other][ends]
    ensures IsMaxFlow(after.networks[other], ends.0, ends.1, after.cache[other][ends])
  {
  }

  /** `Flow.computeMaxFlow` as the registry sees it: it is refused unless
      the source and the sink are a valid source and a valid sink that
      differ, and a value it returns is the maximum flow. */
  method MaxFlowOf(n: N.Network, source: Vertex, sink: Vertex) returns (r: Result<int, F.FlowError>)
    requires N.Valid(n)
    ensures r.Ok? <==> N.IsSource(n.graph, source) && N.IsSink(n.graph, sink) && source != sink
    ensures r.Ok? ==> IsMaxFlow(n, source, sink, r.value)
  {
    r := F.MaxFlow(n, source, sink);
  }

  /** Why a flow query fails: the program's `IllegalArgumentException`s. */
  datatype QueryError = Unregistered | Refused(F.FlowError)

  /** `computeMaxFlow`: an unregistered name is refused and nothing
      changes. Otherwise the name gets a cache if it had none; a cached
      flow is returned as is; a new one is computed and cached when the
      computation succeeds, and not cached when it fails. */
  method ComputeMaxFlow(sys: System, id: string, source: Vertex, sink: Vertex) returns (r: Result<int, QueryError>, after: System)
    requires Valid(sys)
    ensures r == Err(Unregistered) <==> id !in sys.networks
    ensures id !in sys.networks ==> after == sys
    ensures id in sys.networks ==>
      && after.networks == sys.networks && id in after.cache
      && (forall other | other != id :: CachedFlows(after, other) == CachedFlows(sys, other))
    ensures id in sys.networks && (source, sink) in CachedFlows(sys, id) ==>
      r == Ok(CachedFlows(sys, id)[(source, sink)]) && after.cache[id] == CachedFlows(sys, id)
    ensures id in sys.networks && (source, sink) !in CachedFlows(sys, id) && r.Ok? ==>
      && IsMaxFlow(sys.networks[id], source, sink, r.value)
      && after.cache[id] == CachedFlows(sys, id)[(source, sink) := r.value]
    ensures id in sys.networks && r.Err? ==>
      r.error.Refused? && after.cache[id] == CachedFlows(sys, id) && (source, sink) !in after.cache[id]
    ensures Valid(after)
    ensures Consistent(sys) ==> Consistent(after) && (r.Ok? ==> IsMaxFlow(sys.networks[id], source, sink, r.value))
  {
    if id !in sys.networks {
      return Err(Unregistered), sys;
    }
    var flows := CachedFlows(sys, id);
    if (source, sink) in flows {
      return Ok(flows[(source, sink)]), Touch(sys, id);
    }
    var computed := MaxFlowOf(sys.networks[id], source, sink);
    if computed.Err? {
      return Err(Refused(computed.error)), Touch(sys, id);
    }
    return Ok(computed.value), Store(sys, id, source, sink, computed.value);
  }

  /** A set of one element is that element alone. */
  lemma SingletonShape(s: set<Edge>)
    requires |s| == 1
    ensures forall x, y | x in s && y in s :: x == y
  {
    forall x, y | x in s && y in s ensures x == y {
      if x != y {
        G.SubsetSize({x, y}, s);
      }
    }
  }

  /** The one element of a set of one. */
  function Sole(s: set<Edge>): (e: Edge)
    requires |s| == 1
    ensures s == {e}
  {
    SingletonShape(s);
    var e :| e in s;
    e
  }

  /** `after` differs from `sys` only in the network registered under `id`,
      which has no cache left, and in caches it forgot. */
  predicate Kept(sys: System, after: System, id: string)
  {
    && (forall other | other in after.cache ::
          other != id && other in sys.cache && after.cache[other] == sys.cache[other])
    && (forall other | other != id && other in sys.networks ::
          other in after.networks && after.networks[other] == sys.networks[other])
  }

  /** Registering under `id` and keeping the other caches, or all of them
      when `id` had none, changes nothing else. */
  lemma KeptReplaced(sys: System, id: string, n: N.Network, cache: map<string, FlowCache>)
    requires Valid(sys) && (cache == sys.cache - {id} || (cache == sys.cache && id !in sys.networks))
    ensures Kept(sys, System(sys.networks[id := n], cache), id)
  {
  }

  /** A section whose ends are named validly, added to a network whose
      vertices are, leaves every vertex named validly. */
  lemma UpdatedNamesValid(n: N.Network, changes: N.Network, e: Edge, updated: N.Network)
    requires NamesValid(n) && T.Printable(changes) && e in changes.graph.edges
    requires updated.graph.vertices == n.graph.vertices + {e.from, e.to}
    ensures NamesValid(updated)
  {
    assert e.from in changes.graph.vertices && e.to in changes.graph.vertices;
  }

  /** Why the `add` command is refused. */
  datatype AddError =
    | IllegalName                       // the name is not a network name
    | Unreadable(T.ParseError)          // the text is not a network
    | NotOneSection                     // a registered network is extended by other than one section
    | TooFewSections                    // a new network has fewer than two sections
    | UpdateRefused(N.NetworkError)     // the extended network would be invalid

  /** The rules of `AddCommand.execute` once the network text is read. A
      registered network is extended by the one section given, its flow
      cache is forgotten and the result is registered; a new network must
      have more than one section and is registered as read. */
  function AddNetwork(sys: System, id: string, changes: N.Network): (r: Result<System, AddError>)
    requires Valid(sys) && S.IsNetworkName(id) && T.Printable(changes)
    ensures id in sys.networks ==>
      && (|changes.graph.edges| != 1 ==> r == Err(NotOneSection))
      && (|changes.graph.edges| == 1 ==>
            var e := Sole(changes.graph.edges);
            var updated := N.Update(sys.networks[id], e, changes.capacities[e]);
            && (updated.Err? ==> r == Err(UpdateRefused(updated.error)))
            && (updated.Ok? ==> r.Ok? && r.value.networks == sys.networks[id := updated.value]
                                && r.value.cache == sys.cache - {id}))
    ensures id !in sys.networks ==>
      && (|changes.graph.edges| <= 1 ==> r == Err(TooFewSections))
      && (|changes.graph.edges| > 1 ==> r == Ok(System(sys.networks[id := changes], sys.cache)))
    ensures r.Ok? ==> Valid(r.value)
    ensures r.Ok? ==> Kept(sys, r.value, id)
  {
    if id in sys.networks then
      if |changes.graph.edges| != 1 then Err(NotOneSection)
      else
        var e := Sole(changes.graph.edges);
        match N.Update(sys.networks[id], e, changes.capacities[e])
        case Err(err) => Err(UpdateRefused(err))
        case Ok(updated) =>
          UpdatedNamesValid(sys.networks[id], changes, e, updated);
          KeptReplaced(sys, id, updated, sys.cache - {id});
          RegisterFind(Invalidate(sys, id), id, updated, id);
          Ok(Register(Invalidate(sys, id), id, updated).value)
    else if |changes.graph.edges| <= 1 then Err(TooFewSections)
    else
      KeptReplaced(sys, id, changes, sys.cache);
      RegisterFind(sys, id, changes, id);
      Ok(Register(sys, id, changes).value)
  }

  /** `AddCommand.execute`: the name must be a network name and the text
      must read as a network; then the rules of `AddNetwork` apply. */
  function Add(sys: System, id: string, text: string): (r: Result<System, AddError>)
    requires Valid(sys)
    ensures !S.IsNetworkName(id) ==> r == Err(IllegalName)
    ensures S.IsNetworkName(id) && T.ParseNetwork(text).Err? ==> r == Err(Unreadable(T.ParseNetwork(text).error))
    ensures S.IsNetworkName(id) && T.ParseNetwork(text).Ok? ==> r == AddNetwork(sys, id, T.ParseNetwork(text).value)
  {
    if !S.IsNetworkName(id) then Err(IllegalName)
    else
      match T.ParseNetwork(text)
      case Err(e) => Err(Unreadable(e))
      case Ok(changes) => AddNetwork(sys, id, changes)
  }

  /** A successful `add` keeps every cached flow the maximised flow of its
      network: a new network has nothing cached, and an extended one has
      its cache forgotten. */
  lemma AddConsistent(sys: System, id: string, changes: N.Network)
    requires Consistent(sys) && S.IsNetworkName(id) && T.Printable(changes)
    requires AddNetwork(sys, id, changes).Ok?
    ensures Consistent(AddNetwork(sys, id, changes).value)
  {
    KeptCaches(sys, AddNetwork(sys, id, changes).value, id);
  }

  /** A valid system whose caches are some of the old ones, each for the
      same network as before, is as correct as the old one. */
  lemma KeptCaches(sys: System, after: System, id: string)
    requires Consistent(sys) && Valid(after) && Kept(sys, after, id)
    ensures Consistent(after)
  {
    forall other, ends | other in after.cache && ends in after.cache[other]
      ensures IsMaxFlow(after.networks[other], ends.0, ends.1, after.cache[other][ends])
    {
      assert after.networks[other] == sys.networks[other];
    }
  }

  /** Extending a registered network by a section whose edge it already
      has only replaces that edge's capacity. */
  lemma AddExistingEdge(sys: System, id: string, changes: N.Network)
    requires Valid(sys) && S.IsNetworkName(id) && id in sys.networks && T.Printable(changes)
    requires |changes.graph.edges| == 1 && Sole(changes.graph.edges) in sys.networks[id].graph.edges
    ensures var e := Sole(changes.graph.edges); var n := sys.networks[id];
      AddNetwork(sys, id, changes).Ok?
      && AddNetwork(sys, id, changes).value.networks[id] == N.Network(n.graph, n.capacities[e := changes.capacities[e]])
  {
    var e := Sole(changes.graph.edges);
    N.UpdateExisting(sys.networks[id], e, changes.capacities[e]);
  }
}
