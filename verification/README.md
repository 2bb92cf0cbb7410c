# Escape networks and fire-breaker, modelled in Dafny

This project models the core of two small Java command-line programs and the collection helpers they share.

**Escape networks** keeps named escape networks. An escape network is a directed graph whose edges ("sections") carry a capacity. It computes the maximum flow from a source to a sink and caches the result.

- `Edges`, `Paths` and `Graphs` model the graph, with its breadth-first path search.
- `Networks` models the validity rules of a network: no edge together with its reverse, a possible source, a possible sink, and no negative capacity.
- `Flows` models the Edmonds–Karp maximum flow.
- `Decimal`, `Text`, `Sections` and `NetworkText` model the text form of sections and networks (`ab12cd;cd3ef`), both how it is read and how it is printed.
- `Registry` models the registry of networks with its flow cache, and the `add` command.

**Fire-breaker** is a board game for four players, A to D. Each player moves fire engines over a forest board to put out fires that spread with the wind after every round.

- `Geometry` models positions and their neighbourhoods.
- `Forests` models the burn states of a forest and the engines standing in it.
- `FireEngines`, `Players`, `Cycles` and `Turns` model engines, players, the round robin of turns, and a single turn.
- `Boards` models the board, with its engine index and the movement search.
- `Games` models the game: the turn order, the reputation and the fire spread.
- `Actions` models the four actions: move, extinguish, refill and buy.
- `Commands` models the game commands, without their console output.
- `Layouts` models reading and validating the board layout a game starts from.

`ImmutableCollections` holds the list, set and map combinators both programs use. `Wrappers` and `Failures` hold the error channel.

The Java objects are mutable, but the model is functional throughout. Every operation returns the new state, and a refused operation returns an error and no state. The Java exceptions become `Result` values:

- `IllegalArgumentException` becomes a named error.
- `IllegalActionException` becomes `Illegal`.
- A failure the program does not expect, such as a failed cast or a missing map entry, becomes `Fault`.

Object identity is replaced by value identifiers:

- a vertex by its name;
- a player by their name;
- an engine by its owner's name and its number.

An engine's water level is kept in its owner's record, which is the one place the shared Java `FireEngine` object is modelled.

Three main results connect the parts:

- `Graphs.FindPath` finds a path exactly when the goal is reachable, and the path it finds is a shortest one.
- `Flows.MaxFlow` returns the maximum flow value. The flow it stops at is feasible and conserved, no augmenting path can raise it, and no other flow between the same source and sink has a larger value (`Flows.SaturatedIsMaximum`, by the cut around what the remaining graph reaches).
- `Actions.PerformKeepsValid` and `Commands.StepKeepsValid` show that every action and every command keeps a valid game valid. In a valid game, the board and the players agree on which engines exist, tanks stay within capacity, and action points stay between zero and three.

Around these, there are round-trip properties for the text formats (`NetworkText.ParseShowNetwork`, `Sections.ParseShowSection`, `Decimal.ValueOfShow`), and if-and-only-if statements of when the layout reader (`Layouts.ParseLayout`, `Layouts.Assemble`), the network update, the flow computation, the command reader, the fire-to-roll command and the four actions (`Actions.Perform` and the `Accepted` lemmas) accept their input, each with the error its first failing check gives.

## Model

| member | source | states |
|---|---|---|
| Edges.Reverse | escape-networks/src/main/java/edu/kit/informatik/escapenetworks/network/Edge.java:69-78 | The reverse runs between the same two vertices in the other direction. |
| Edges.AsList | escape-networks/src/main/java/edu/kit/informatik/escapenetworks/network/Edge.java:60-67 | The list has exactly two vertices, and they rebuild the edge in order. |
| Edges.ReverseInvolutive | escape-networks/src/main/java/edu/kit/informatik/escapenetworks/network/Edge.java:69-78 | Reversing an edge twice gives the edge back. |
| Edges.ReverseFixedIffLoop | escape-networks/src/main/java/edu/kit/informatik/escapenetworks/network/Edge.java:76-87 | An edge equals its reverse if and only if it is a loop. |
| Paths.FromVertices | escape-networks/src/main/java/edu/kit/informatik/escapenetworks/network/Path.java:39-54 | A path exists exactly for two or more vertices, and it keeps the list it was given. |
| Paths.EdgesOf | escape-networks/src/main/java/edu/kit/informatik/escapenetworks/network/Path.java:23-31 | There is one edge fewer than vertices, and edge i joins vertex i to vertex i+1. |
| Paths.Length | escape-networks/src/main/java/edu/kit/informatik/escapenetworks/network/Path.java:92-103 | The length is at least one and one less than the number of vertices. |
| Paths.EdgesChain | escape-networks/src/main/java/edu/kit/informatik/escapenetworks/network/Path.java:23-72 | The edges form a chain: the first leaves the start, each ends where the next begins, and the last reaches the end. |
| ImmutableCollections.Concat | common/src/main/java/edu/kit/informatik/util/ImmutableCollections.java:22-36 | The result is the first list followed by the second, element by element. |
| ImmutableCollections.Union | common/src/main/java/edu/kit/informatik/util/ImmutableCollections.java:38-53 | The result holds both sets and nothing else. |
| ImmutableCollections.Merge | common/src/main/java/edu/kit/informatik/util/ImmutableCollections.java:55-71 | The keys are the union of the keys; the second map wins on shared keys, and the first supplies the others. |
| ImmutableCollections.MergeSingleton | common/src/main/java/edu/kit/informatik/util/ImmutableCollections.java:55-71 | Merging a one-entry map is the same as updating that single key. |
| Text.Split | escape-networks/src/main/java/edu/kit/informatik/escapenetworks/program/mapping/EscapeNetworkMapper.java:32-34 | There is at least one piece, and no piece contains the separator. |
| Text.JoinSplit | escape-networks/src/main/java/edu/kit/informatik/escapenetworks/program/mapping/EscapeNetworkMapper.java:32-34 | Joining the pieces of a split gives the original text back. |
| Text.SplitJoin | escape-networks/src/main/java/edu/kit/informatik/escapenetworks/program/Display.java:48-53 | Splitting joined pieces gives the pieces back, provided none contains the separator. |
| Decimal.Show | escape-networks/src/main/java/edu/kit/informatik/escapenetworks/program/Display.java:37-40 | A number is printed as a digit run without a leading zero. |
| Decimal.ValueOfShow | escape-networks/src/main/java/edu/kit/informatik/escapenetworks/program/mapping/IntegerMapper.java:19-25 | Reading a printed number gives the number back. |
| Decimal.ShowOfValue | escape-networks/src/main/java/edu/kit/informatik/escapenetworks/program/mapping/IntegerMapper.java:19-25 | A digit run without a leading zero is exactly how its value prints. |
| Decimal.ShowInjective | escape-networks/src/main/java/edu/kit/informatik/escapenetworks/program/Display.java:37-40 | Different numbers never print the same. |
| Sections.MatchUnique | escape-networks/src/main/java/edu/kit/informatik/escapenetworks/program/mapping/EscapeSectionMapper.java:24-25 | The section pattern splits a text into name, digits and name in at most one way. |
| Sections.Groups | escape-networks/src/main/java/edu/kit/informatik/escapenetworks/program/mapping/EscapeSectionMapper.java:24-34 | The groups are found exactly when the pattern matches, and they are its unique split. |
| Sections.ParseSection | escape-networks/src/main/java/edu/kit/informatik/escapenetworks/program/mapping/EscapeSectionMapper.java:28-45 | An accepted section has two different valid vertex names and a positive capacity. |
| Sections.ParseSectionSpec | escape-networks/src/main/java/edu/kit/informatik/escapenetworks/program/mapping/EscapeSectionMapper.java:28-45 | No match gives Malformed. A match reads as the edge between its names with the digits' value, unless the value is 0 (NonPositiveCapacity) or the names are equal (LoopSection). |
| Sections.ParseShowSection | escape-networks/src/main/java/edu/kit/informatik/escapenetworks/program/Display.java:37-40 | Reading the printed text of a valid section gives the section back. |
| Sections.ShowSectionShape | escape-networks/src/main/java/edu/kit/informatik/escapenetworks/program/Display.java:37-40 | A printed section is non-empty and contains no separator character. |
| Sections.ShowParseSection | escape-networks/src/main/java/edu/kit/informatik/escapenetworks/program/mapping/EscapeSectionMapper.java:28-45 | Accepted text prints back to itself if and only if its capacity has no leading zero. |
| NetworkText.ReadAll | escape-networks/src/main/java/edu/kit/informatik/escapenetworks/program/mapping/EscapeNetworkMapper.java:37-38 | Each piece is read on its own, and every section read is valid. |
| NetworkText.Collect | escape-networks/src/main/java/edu/kit/informatik/escapenetworks/program/mapping/EscapeNetworkMapper.java:37-44 | The loop fails only on a piece that is not a section or on a repeated edge. |
| NetworkText.CollectOk | escape-networks/src/main/java/edu/kit/informatik/escapenetworks/program/mapping/EscapeNetworkMapper.java:37-44 | The loop succeeds if and only if every piece is a section and no edge repeats or was recorded before. |
| NetworkText.CollectValue | escape-networks/src/main/java/edu/kit/informatik/escapenetworks/program/mapping/EscapeNetworkMapper.java:37-44 | A successful loop keeps the entries it started with and records each section's capacity under its edge. |
| NetworkText.Collected | escape-networks/src/main/java/edu/kit/informatik/escapenetworks/program/mapping/EscapeNetworkMapper.java:36-44 | Starting from nothing, the loop records exactly the sections' capacities. |
| NetworkText.Endpoints | escape-networks/src/main/java/edu/kit/informatik/escapenetworks/program/mapping/EscapeNetworkMapper.java:35-41 | The endpoints of the edges make a graph with no dangling edge. |
| NetworkText.CapacitiesOf | escape-networks/src/main/java/edu/kit/informatik/escapenetworks/program/mapping/EscapeNetworkMapper.java:42-43 | The capacity map has exactly the sections' edges, each with its section's capacity. |
| NetworkText.ParseNetwork | escape-networks/src/main/java/edu/kit/informatik/escapenetworks/program/mapping/EscapeNetworkMapper.java:29-50 | Malformed if and only if the text starts or ends with ';'. Success if and only if every piece is a section, the edges are distinct and they form a valid network. That network is the result. |
| NetworkText.AssemblePrintable | escape-networks/src/main/java/edu/kit/informatik/escapenetworks/program/mapping/EscapeNetworkMapper.java:35-45 | The network built from accepted sections has valid names, positive capacities and no vertex outside its edges. |
| NetworkText.SplitPrinted | escape-networks/src/main/java/edu/kit/informatik/escapenetworks/program/Display.java:48-53 | A printed network neither starts nor ends with ';' and splits back into its printed sections. |
| NetworkText.ReadPrinted | escape-networks/src/main/java/edu/kit/informatik/escapenetworks/program/mapping/EscapeSectionMapper.java:28-45 | Every printed section reads back as the section that was printed. |
| NetworkText.AssembleSectioned | escape-networks/src/main/java/edu/kit/informatik/escapenetworks/program/mapping/EscapeNetworkMapper.java:35-47 | The sections of a network's edges, in any order, build that network again. |
| NetworkText.ParseShowNetwork | escape-networks/src/main/java/edu/kit/informatik/escapenetworks/program/Display.java:48-53 | Reading the text of a printable network, in any edge order, gives the network back. |
| Graphs.Create | escape-networks/src/main/java/edu/kit/informatik/escapenetworks/network/Graph.java:51-63 | A graph is built if and only if every edge stays within the vertices; otherwise the error is DanglingEdge. |
| Graphs.Update | escape-networks/src/main/java/edu/kit/informatik/escapenetworks/network/Graph.java:111-117 | The result is valid and holds exactly the old vertices plus both endpoints, and the old edges plus the new one. |
| Graphs.UpdateIdempotent | escape-networks/src/main/java/edu/kit/informatik/escapenetworks/network/Graph.java:111-117 | Adding the same edge twice is the same as adding it once. |
| Graphs.UpdateCommutes | escape-networks/src/main/java/edu/kit/informatik/escapenetworks/network/Graph.java:111-117 | Two edges can be added in either order. |
| Graphs.Outgoing | escape-networks/src/main/java/edu/kit/informatik/escapenetworks/network/Graph.java:119-138 | Fails if and only if the vertex is unknown; otherwise every edge returned is a graph edge leaving the vertex. |
| Graphs.Incoming | escape-networks/src/main/java/edu/kit/informatik/escapenetworks/network/Graph.java:119-152 | Fails if and only if the vertex is unknown; otherwise every edge returned is a graph edge entering the vertex. |
| Graphs.AdjacencyComplete | escape-networks/src/main/java/edu/kit/informatik/escapenetworks/network/Graph.java:119-152 | Every edge is reported as outgoing at its start and as incoming at its end. |
| Graphs.OpenVertices | escape-networks/src/main/java/edu/kit/informatik/escapenetworks/network/Graph.java:160-162 | The open vertices are vertices of the graph. |
| Graphs.ClosedVertices | escape-networks/src/main/java/edu/kit/informatik/escapenetworks/network/Graph.java:170-172 | The closed vertices are vertices of the graph. |
| Graphs.OpenClosedByAdjacency | escape-networks/src/main/java/edu/kit/informatik/escapenetworks/network/Graph.java:119-172 | A vertex is open if and only if it has outgoing edges, and closed if and only if it has incoming edges. |
| Graphs.ShortestIsSimple | escape-networks/src/main/java/edu/kit/informatik/escapenetworks/network/Graph.java:185-219 | A shortest walk never visits a vertex twice. |
| Graphs.Discover | escape-networks/src/main/java/edu/kit/informatik/escapenetworks/network/Graph.java:206-214 | Recording a newly found vertex one step beyond the current layer keeps every recorded distance minimal. |
| Graphs.Grow | escape-networks/src/main/java/edu/kit/informatik/escapenetworks/network/Graph.java:206-214 | Recording a new vertex under its parent keeps the search tree. |
| Graphs.StepExpand | escape-networks/src/main/java/edu/kit/informatik/escapenetworks/network/Graph.java:206-214 | Visiting one outgoing edge keeps the search invariant, whether the target is new or was seen before. |
| Graphs.Backtrack | escape-networks/src/main/java/edu/kit/informatik/escapenetworks/network/Graph.java:199-203 | Following parents back from a vertex gives a walk from the start to it, with as many steps as its distance. |
| Graphs.Found | escape-networks/src/main/java/edu/kit/informatik/escapenetworks/network/Graph.java:197-204 | The walk backtracked from the goal is a shortest one, and it has an edge if and only if the goal is not the start. |
| Graphs.Exhausted | escape-networks/src/main/java/edu/kit/informatik/escapenetworks/network/Graph.java:197-218 | If the queue empties before the goal is dequeued, the goal is unreachable. |
| Graphs.Expand | escape-networks/src/main/java/edu/kit/informatik/escapenetworks/network/Graph.java:205-214 | One round keeps the search invariant and finishes the current vertex; the round either encountered new vertices or left the queue unchanged. |
| Graphs.FindPath | escape-networks/src/main/java/edu/kit/informatik/escapenetworks/network/Graph.java:185-219 | Unknown endpoints and a start equal to the goal are the only errors. A path is returned if and only if the goal is reachable, and it is a shortest path from start to goal. |
| Networks.Create | escape-networks/src/main/java/edu/kit/informatik/escapenetworks/network/Network.java:52-66 | Accepted if and only if the network is valid. The first failed check names the error: antiparallel edges, then no source, then no sink. |
| Networks.SourceBySize | escape-networks/src/main/java/edu/kit/informatik/escapenetworks/network/Network.java:56-57 | Having fewer closed vertices than vertices means exactly that some vertex has no incoming edge. |
| Networks.SinkBySize | escape-networks/src/main/java/edu/kit/informatik/escapenetworks/network/Network.java:58-59 | Having fewer open vertices than vertices means exactly that some vertex has no outgoing edge. |
| Networks.ValidHasEnds | escape-networks/src/main/java/edu/kit/informatik/escapenetworks/network/Network.java:52-66 | A valid network has a possible source and a possible sink, and contains no loop. |
| Networks.Update | escape-networks/src/main/java/edu/kit/informatik/escapenetworks/network/Network.java:82-87 | Accepted if and only if the updated network is valid. The first failed check names the error: antiparallel edges, then no source, then no sink, then a negative capacity. An accepted update gains the edge and sets its capacity. |
| Networks.UpdatedCapacities | escape-networks/src/main/java/edu/kit/informatik/escapenetworks/network/Network.java:82-87 | The updated capacity map covers exactly the updated graph's edges, and it is non-negative if and only if the new capacity is. |
| Networks.UpdateExisting | escape-networks/src/main/java/edu/kit/informatik/escapenetworks/network/Network.java:82-87 | Updating an existing edge only replaces its capacity, and succeeds if and only if the capacity is not negative. |
| Networks.UpdateRefusesReverse | escape-networks/src/main/java/edu/kit/informatik/escapenetworks/network/Network.java:52-87 | Adding the reverse of an existing edge, or a loop, is refused as antiparallel. |
| Networks.Capacity | escape-networks/src/main/java/edu/kit/informatik/escapenetworks/network/Network.java:105-108 | Fails if and only if the edge is not in the network; otherwise the capacity is non-negative. |
| Networks.IsValidSource | escape-networks/src/main/java/edu/kit/informatik/escapenetworks/network/Network.java:118-120 | Fails if and only if the vertex is unknown; otherwise true if and only if no edge enters it. |
| Networks.IsValidSink | escape-networks/src/main/java/edu/kit/informatik/escapenetworks/network/Network.java:130-132 | Fails if and only if the vertex is unknown; otherwise true if and only if no edge leaves it. |
| Flows.Complete | escape-networks/src/main/java/edu/kit/informatik/escapenetworks/network/Flow.java:45-48 | The residual edge set contains every edge, is closed under reversal, and adds only reverses. |
| Flows.ReversesAreNew | escape-networks/src/main/java/edu/kit/informatik/escapenetworks/network/Flow.java:45-48 | Each residual edge is either an original edge or a reverse one, never both. |
| Flows.ResidualGraph | escape-networks/src/main/java/edu/kit/informatik/escapenetworks/network/Flow.java:45-51 | The residual graph is valid, has the network's vertices, and has every edge together with its reverse. |
| Flows.FeasibleBounds | escape-networks/src/main/java/edu/kit/informatik/escapenetworks/network/Flow.java:59-76 | On an edge of the network, a feasible flow lies between zero and the edge's capacity. |
| Flows.InitialFlow | escape-networks/src/main/java/edu/kit/informatik/escapenetworks/network/Flow.java:49-50 | The starting flow is zero on every residual edge, and it is feasible. |
| Flows.InitialConserving | escape-networks/src/main/java/edu/kit/informatik/escapenetworks/network/Flow.java:45-50 | The zero flow is a flow: feasible, and conserved at every vertex other than the source and the sink. |
| Flows.RemainingGraph | escape-networks/src/main/java/edu/kit/informatik/escapenetworks/network/Flow.java:78-85 | An edge is in the remaining graph if and only if it can still carry flow. |
| Flows.Bottleneck | escape-networks/src/main/java/edu/kit/informatik/escapenetworks/network/Flow.java:64-68 | The bottleneck is an edge of the path with the least remaining capacity. |
| Flows.AugmentAt | escape-networks/src/main/java/edu/kit/informatik/escapenetworks/network/Flow.java:72-75 | Augmenting adds b on the path's edges, subtracts b on their reverses, and leaves every other edge unchanged. |
| Flows.AugmentFeasible | escape-networks/src/main/java/edu/kit/informatik/escapenetworks/network/Flow.java:70-76 | Augmenting by at most the least remaining capacity keeps the flow feasible. |
| Flows.AugmentConserving | escape-networks/src/main/java/edu/kit/informatik/escapenetworks/network/Flow.java:70-76 | Pushing an amount that every edge of an augmenting path can take keeps the flow a flow: feasible, and conserved at every vertex other than the source and the sink. |
| Flows.TotalBounds | escape-networks/src/main/java/edu/kit/informatik/escapenetworks/network/Flow.java:99-104 | The flow value lies between zero and the capacity into the sink. |
| Flows.AugmentRaisesTotal | escape-networks/src/main/java/edu/kit/informatik/escapenetworks/network/Flow.java:70-104 | Augmenting along a path into the sink raises the flow value by exactly the amount pushed. |
| Flows.AugmentAlong | escape-networks/src/main/java/edu/kit/informatik/escapenetworks/network/Flow.java:70-76 | Pushing the bottleneck along a shortest remaining path keeps the flow a flow, feasible and conserved, and strictly raises its value. |
| Flows.Maximize | escape-networks/src/main/java/edu/kit/informatik/escapenetworks/network/Flow.java:87-97 | Fails if and only if the source is the sink. Otherwise the result is a flow, feasible and conserved, and no remaining path leads from the source to the sink. |
| Flows.MaxFlow | escape-networks/src/main/java/edu/kit/informatik/escapenetworks/network/Flow.java:36-121 | Each error holds exactly when its check fails first: unknown source, invalid source, unknown sink, invalid sink, same vertex; a value is returned exactly when every check passes. The value is that of a flow no augmenting path can raise, and no flow from the source to the sink has a larger value. |
| Flows.CutValue | escape-networks/src/main/java/edu/kit/informatik/escapenetworks/network/Flow.java:99-104 | The value of a flow, read on the edges into the sink, is the flow across every cut that separates the source from the sink. |
| Flows.SaturatedIsMaximum | escape-networks/src/main/java/edu/kit/informatik/escapenetworks/network/Flow.java:87-104 | A flow that no augmenting path can raise has a value that no flow between the same source and sink exceeds. |
| Flows.SumOver | escape-networks/src/main/java/edu/kit/informatik/escapenetworks/network/Flow.java:99-104 | The loop computes the sum of the flow over the given edges. |
| Registry.Empty | escape-networks/src/main/java/edu/kit/informatik/escapenetworks/program/EscapeNetworkSystem.java:44-47 | No name finds a network, no cache is held, and the empty cache is correct. |
| Registry.FindNetwork | escape-networks/src/main/java/edu/kit/informatik/escapenetworks/program/EscapeNetworkSystem.java:56-58 | A network is found if and only if the name is registered, and it is the registered network. |
| Registry.Register | escape-networks/src/main/java/edu/kit/informatik/escapenetworks/program/EscapeNetworkSystem.java:71-82 | Accepted if and only if the network name and every vertex name are valid. The name's check comes first. Only the name's entry changes, and the caches are untouched. |
| Registry.RegisterFind | escape-networks/src/main/java/edu/kit/informatik/escapenetworks/program/EscapeNetworkSystem.java:56-82 | After registering, the name finds the new network, every other name finds what it did before, and validity is kept. |
| Registry.CachedFlows | escape-networks/src/main/java/edu/kit/informatik/escapenetworks/program/EscapeNetworkSystem.java:121-123 | A name without a cache has no cached flows; otherwise its cache is returned. |
| Registry.Invalidate | escape-networks/src/main/java/edu/kit/informatik/escapenetworks/program/EscapeNetworkSystem.java:132-134 | Only this name's cache is forgotten; every other cache stays, and validity and cache correctness are kept. |
| Registry.Touch | escape-networks/src/main/java/edu/kit/informatik/escapenetworks/program/EscapeNetworkSystem.java:101-102 | The name gets a cache if it had none, every other cache stays, and cache correctness is kept. |
| Registry.Store | escape-networks/src/main/java/edu/kit/informatik/escapenetworks/program/EscapeNetworkSystem.java:101-103 | Only the entry for this source and sink is added. Caching a maximised flow keeps every cached flow correct. |
| Registry.MaxFlowOf | escape-networks/src/main/java/edu/kit/informatik/escapenetworks/network/Flow.java:117-121 | A value is returned exactly when the source and the sink are valid and differ, and it is the maximum flow value, reached by a flow no augmenting path can raise. |
| Registry.ComputeMaxFlow | escape-networks/src/main/java/edu/kit/informatik/escapenetworks/program/EscapeNetworkSystem.java:98-104 | An unregistered name fails and changes nothing. A cached flow is returned unchanged. A new one is the maximum flow value and is cached. A failed computation caches nothing. Every cached value stays the maximum flow value. |
| Registry.Sole | escape-networks/src/main/java/edu/kit/informatik/escapenetworks/program/commands/AddCommand.java:46-48 | The set of one edge is exactly that edge. |
| Registry.AddNetwork | escape-networks/src/main/java/edu/kit/informatik/escapenetworks/program/commands/AddCommand.java:42-63 | A registered network is extended by exactly one section, and its cache is forgotten; any other number is refused. A new network needs at least two sections. Nothing else changes. |
| Registry.Add | escape-networks/src/main/java/edu/kit/informatik/escapenetworks/program/commands/AddCommand.java:29-63 | An invalid name is refused first. Unreadable text is refused with its parse error. Otherwise the extension rules apply to the network read. |
| Registry.AddConsistent | escape-networks/src/main/java/edu/kit/informatik/escapenetworks/program/commands/AddCommand.java:54-61 | A successful add keeps every cached flow the maximised flow of its network. |
| Registry.AddExistingEdge | escape-networks/src/main/java/edu/kit/informatik/escapenetworks/program/commands/AddCommand.java:43-55 | Extending a network by an edge it already has succeeds and only replaces that edge's capacity. |
| Geometry.DimensionsOf | fire-breaker/src/main/java/edu/kit/informatik/firebreaker/game/board/Dimensions.java:31-34 | Dimensions are built if and only if both sides are positive, and they keep the sides given. |
| Geometry.Unbounded | fire-breaker/src/main/java/edu/kit/informatik/firebreaker/game/board/Position.java:35-37 | An unbounded position has the given coordinates and no bound. |
| Geometry.PositionOf | fire-breaker/src/main/java/edu/kit/informatik/firebreaker/game/board/Position.java:48-52 | Refused if and only if a bound is given and the coordinates fall outside it; otherwise the position is built as given. |
| Geometry.Add | fire-breaker/src/main/java/edu/kit/informatik/firebreaker/game/board/Position.java:90-95 | A move fails if and only if it leaves the bound; otherwise the bound is kept and the coordinates are shifted. |
| Geometry.UnboundedAddSucceeds | fire-breaker/src/main/java/edu/kit/informatik/firebreaker/game/board/Position.java:90-95 | An unbounded position can always be moved. |
| Geometry.AddAll | fire-breaker/src/main/java/edu/kit/informatik/firebreaker/game/board/Position.java:104-113 | The result holds exactly the successful moves by the offsets. |
| Geometry.OrthogonalAdjacents | fire-breaker/src/main/java/edu/kit/informatik/firebreaker/game/board/Position.java:104-113 | Without diagonals, the neighbours are exactly the in-bound orthogonal steps. |
| Geometry.AllAdjacents | fire-breaker/src/main/java/edu/kit/informatik/firebreaker/game/board/Position.java:104-113 | With diagonals, the neighbours are exactly the in-bound king's moves. |
| Geometry.AdjacentsShape | fire-breaker/src/main/java/edu/kit/informatik/firebreaker/game/board/Position.java:104-113 | A position has at most eight neighbours and is never its own neighbour. |
| Geometry.AdjacencySymmetric | fire-breaker/src/main/java/edu/kit/informatik/firebreaker/game/board/Position.java:104-113 | Within one bound, q neighbours p if and only if p neighbours q. |
| Geometry.AdjacentsIff | fire-breaker/src/main/java/edu/kit/informatik/firebreaker/game/board/Position.java:104-113 | The neighbours are exactly the in-bound king's moves, or the in-bound orthogonal steps when diagonals are excluded. |
| Geometry.Adjacent | fire-breaker/src/main/java/edu/kit/informatik/firebreaker/game/board/Orientation.java:51-53 | The step fails if and only if it leaves the bound; otherwise it is one orthogonal step along the orientation's vector. |
| Geometry.OppositeCancels | fire-breaker/src/main/java/edu/kit/informatik/firebreaker/game/board/Orientation.java:16-53 | A step followed by a step in the opposite direction returns to the start. |
| Geometry.OrientationsCoverAdjacents | fire-breaker/src/main/java/edu/kit/informatik/firebreaker/game/board/Orientation.java:16-53 | The four orientations reach exactly the orthogonal neighbours. |
| Forests.Successor | fire-breaker/src/main/java/edu/kit/informatik/firebreaker/game/board/field/Forest.java:172-175 | The next state is the following one in declaration order, capped at the last. |
| Forests.SuccessorChain | fire-breaker/src/main/java/edu/kit/informatik/firebreaker/game/board/field/Forest.java:129-175 | Wet becomes dry, dry becomes light burn, light burn becomes strong burn, and strong burn stays. |
| Forests.IterateOrdinal | fire-breaker/src/main/java/edu/kit/informatik/firebreaker/game/board/field/Forest.java:172-175 | n escalations raise the state by n steps, saturating at strong burn, and never lower it. |
| Forests.FirstWithIndicator | fire-breaker/src/main/java/edu/kit/informatik/firebreaker/game/board/field/Forest.java:183-187 | A state is found if and only if some state has the indicator, and the one found has it. |
| Forests.ByIndicator | fire-breaker/src/main/java/edu/kit/informatik/firebreaker/game/board/field/Forest.java:183-187 | Only w, d, + and * name a state, and the state found shows that indicator. |
| Forests.ByIndicatorOfIndicator | fire-breaker/src/main/java/edu/kit/informatik/firebreaker/game/board/field/Forest.java:129-187 | Reading a state's indicator gives the state back. |
| Forests.NewForest | fire-breaker/src/main/java/edu/kit/informatik/firebreaker/game/board/field/Forest.java:33-37 | A new forest has the given state and no occupants. |
| Forests.IncreaseBurning | fire-breaker/src/main/java/edu/kit/informatik/firebreaker/game/board/field/Forest.java:42-44 | The state moves to its successor, a fire stays a fire, and the occupants stay. |
| Forests.AddEngine | fire-breaker/src/main/java/edu/kit/informatik/firebreaker/game/board/field/Forest.java:79-81 | The engine is filed under its id, and every other occupant and the state stay. |
| Forests.RemoveEngine | fire-breaker/src/main/java/edu/kit/informatik/firebreaker/game/board/field/Forest.java:88-90 | Exactly the id's entry leaves; the rest and the state stay. |
| Forests.AddThenRemove | fire-breaker/src/main/java/edu/kit/informatik/firebreaker/game/board/field/Forest.java:79-90 | Adding an absent engine and then removing it restores the forest. |
| Forests.RemoveAbsent | fire-breaker/src/main/java/edu/kit/informatik/firebreaker/game/board/field/Forest.java:88-90 | Removing an id no engine has changes nothing. |
| Forests.OccupiedIffSomeEngine | fire-breaker/src/main/java/edu/kit/informatik/firebreaker/game/board/field/Forest.java:104-106 | A forest is occupied if and only if some engine stands in it. |
| Forests.StringBeforeTotal | fire-breaker/src/main/java/edu/kit/informatik/firebreaker/game/board/field/Forest.java:120-121 | Any two different strings are ordered one way or the other. |
| Forests.StringBeforeTransitive | fire-breaker/src/main/java/edu/kit/informatik/firebreaker/game/board/field/Forest.java:120-121 | The string order is transitive. |
| Forests.EngineBeforeTotal | fire-breaker/src/main/java/edu/kit/informatik/firebreaker/game/board/field/Forest.java:120-121 | Any two different engines are ordered by owner, then by number. |
| Forests.EngineBeforeTransitive | fire-breaker/src/main/java/edu/kit/informatik/firebreaker/game/board/field/Forest.java:120-121 | The engine order is transitive. |
| Forests.Sorted | fire-breaker/src/main/java/edu/kit/informatik/firebreaker/game/board/field/Forest.java:117-124 | The listing has each engine of the set exactly once, in strictly increasing display order. |
| Forests.DisplayString | fire-breaker/src/main/java/edu/kit/informatik/firebreaker/game/board/field/Forest.java:117-124 | The cell text starts with the state's indicator, and it is a single character if and only if the forest is empty. When no owner name holds a comma, the rest split at commas is an empty piece followed by the ids of the engines in display order. |
| Forests.CommaIds | fire-breaker/src/main/java/edu/kit/informatik/firebreaker/game/board/field/Forest.java:119-123 | The id list is empty if and only if there are no engines. |
| Forests.CommaIdsJoin | fire-breaker/src/main/java/edu/kit/informatik/firebreaker/game/board/field/Forest.java:119-123 | The id list is an empty piece followed by each engine's id, joined with commas. |
| FireEngines.Id | fire-breaker/src/main/java/edu/kit/informatik/firebreaker/game/FireEngine.java:39-41 | The id is the owner's name followed by the number, written without leading zeros. |
| FireEngines.IdInjective | fire-breaker/src/main/java/edu/kit/informatik/firebreaker/game/FireEngine.java:39-41 | When owner names contain no digit, different engines have different ids. |
| FireEngines.NewTank | fire-breaker/src/main/java/edu/kit/informatik/firebreaker/game/FireEngine.java:28-32 | A new engine's tank is full. |
| FireEngines.Refill | fire-breaker/src/main/java/edu/kit/informatik/firebreaker/game/FireEngine.java:91-93 | A refilled tank is full. |
| FireEngines.UseWater | fire-breaker/src/main/java/edu/kit/informatik/firebreaker/game/FireEngine.java:98-102 | Using water removes one stone, and an empty tank stays empty. |
| FireEngines.RunStaysInTank | fire-breaker/src/main/java/edu/kit/informatik/firebreaker/game/FireEngine.java:91-102 | No sequence of refills and uses takes the tank outside 0 to 3. |
| Players.NewPlayer | fire-breaker/src/main/java/edu/kit/informatik/firebreaker/game/Player.java:27-31 | A new player holds no engine and will number the first one 0. |
| Players.Engines | fire-breaker/src/main/java/edu/kit/informatik/firebreaker/game/Player.java:70-72 | The player's engines are exactly the held numbers under the player's name. |
| Players.CreateEngine | fire-breaker/src/main/java/edu/kit/informatik/firebreaker/game/Player.java:47-52 | The new engine gets the counter's number and a full tank. The counter moves on, the other engines stay, and validity is kept. |
| Players.GetEngine | fire-breaker/src/main/java/edu/kit/informatik/firebreaker/game/Player.java:61-63 | An engine is found if and only if the number is held, and it belongs to this player. |
| Players.RemoveEngine | fire-breaker/src/main/java/edu/kit/informatik/firebreaker/game/Player.java:79-81 | Exactly that number leaves; the counter and the other engines stay, and validity is kept. |
| Players.SetWater | fire-breaker/src/main/java/edu/kit/informatik/firebreaker/game/FireEngine.java:91-102 | Only that engine's water changes, and validity is kept while it stays within capacity. |
| Players.CreatedEngineIsHeld | fire-breaker/src/main/java/edu/kit/informatik/firebreaker/game/Player.java:47-63 | A created engine is held by its player and found by its number. |
| Players.CreateManyNumbers | fire-breaker/src/main/java/edu/kit/informatik/firebreaker/game/Player.java:47-52 | Successive engines are numbered consecutively from the counter. |
| Players.NumbersNeverReused | fire-breaker/src/main/java/edu/kit/informatik/firebreaker/game/Player.java:47-81 | After an engine is removed, a new engine never gets its number. |
| Cycles.Of | fire-breaker/src/main/java/edu/kit/informatik/firebreaker/game/Cycle.java:33-51 | A new cycle keeps the list and the rotation, starts at the first element and marks nothing. |
| Cycles.Current | fire-breaker/src/main/java/edu/kit/informatik/firebreaker/game/Cycle.java:58-60 | There is a current element if and only if the cursor is within the list, and it is the element under the cursor. |
| Cycles.Rotate | fire-breaker/src/main/java/edu/kit/informatik/firebreaker/game/Cycle.java:74-78 | The element at index i moves to index (i + d) mod n. |
| Cycles.RotateBackOne | fire-breaker/src/main/java/edu/kit/informatik/firebreaker/game/Cycle.java:74-78 | A rotation by -1 moves the first element to the end. |
| Cycles.RemoveAll | fire-breaker/src/main/java/edu/kit/informatik/firebreaker/game/Cycle.java:74-78 | The result is exactly the unmarked elements of the list. |
| Cycles.RemoveAllFilters | fire-breaker/src/main/java/edu/kit/informatik/firebreaker/game/Cycle.java:74-78 | Removing marked elements distributes over concatenation, and a single element is kept exactly when it is unmarked, so the remaining elements keep their order. |
| Cycles.Skip | fire-breaker/src/main/java/edu/kit/informatik/firebreaker/game/Cycle.java:70-72 | The cursor stops on the first unmarked element after the current one, or just past the end. |
| Cycles.Advance | fire-breaker/src/main/java/edu/kit/informatik/firebreaker/game/Cycle.java:66-79 | When every element is marked, nothing changes; the rotation and the marks always stay. |
| Cycles.AdvanceEffect | fire-breaker/src/main/java/edu/kit/informatik/firebreaker/game/Cycle.java:66-79 | The cursor lands on an unmarked element, and it is back at 0 if and only if it wrapped. A wrap rotates the list and drops the marked elements; otherwise the list stays and every element skipped was marked. |
| Cycles.SkipWraps | fire-breaker/src/main/java/edu/kit/informatik/firebreaker/game/Cycle.java:70-78 | The cursor runs off the end if and only if no unmarked element follows it. |
| Cycles.RotateKeeps | fire-breaker/src/main/java/edu/kit/informatik/firebreaker/game/Cycle.java:74-78 | Rotation keeps every element. |
| Cycles.AdvanceWithin | fire-breaker/src/main/java/edu/kit/informatik/firebreaker/game/Cycle.java:66-79 | Advancing brings in no element from outside and leaves the cursor on an element. |
| Cycles.WrappedNonEmpty | fire-breaker/src/main/java/edu/kit/informatik/firebreaker/game/Cycle.java:66-78 | After a wrap, a list with an unmarked element is non-empty and starts on an unmarked element. |
| Cycles.AdvanceLoop | fire-breaker/src/main/java/edu/kit/informatik/firebreaker/game/Cycle.java:66-79 | The program's loop computes the same cycle as the functional definition. |
| Cycles.Eliminate | fire-breaker/src/main/java/edu/kit/informatik/firebreaker/game/Cycle.java:99-101 | The marks are replaced, and everything else stays. |
| Cycles.EliminateReplaces | fire-breaker/src/main/java/edu/kit/informatik/firebreaker/game/Cycle.java:99-101 | A second elimination forgets the marks of the first. |
| Turns.NewTurn | fire-breaker/src/main/java/edu/kit/informatik/firebreaker/game/Turn.java:33-39 | Every engine of the player, and no other, gets 3 points; no cell is extinguished and every engine may move. |
| Turns.GetPoints | fire-breaker/src/main/java/edu/kit/informatik/firebreaker/game/Turn.java:56-58 | The lookup succeeds if and only if the turn tracks the engine, and it returns that engine's points. |
| Turns.UsePoint | fire-breaker/src/main/java/edu/kit/informatik/firebreaker/game/Turn.java:46-48 | The engine loses exactly one point, and nothing else changes. |
| Turns.MarkExtinguished | fire-breaker/src/main/java/edu/kit/informatik/firebreaker/game/Turn.java:68-83 | Exactly the one pair (engine, cell) becomes marked as extinguished. |
| Turns.MarkStationary | fire-breaker/src/main/java/edu/kit/informatik/firebreaker/game/Turn.java:92-104 | Exactly the given engine loses the right to move. |
| Turns.AddEngine | fire-breaker/src/main/java/edu/kit/informatik/firebreaker/game/Turn.java:113-117 | Refused if and only if the engine belongs to another player; otherwise the engine gets 3 points. |
| Turns.MarkStationaryIdempotent | fire-breaker/src/main/java/edu/kit/informatik/firebreaker/game/Turn.java:102-104 | Marking an engine stationary twice is the same as marking it once. |
| Turns.ExtinguishedIffMarked | fire-breaker/src/main/java/edu/kit/informatik/firebreaker/game/Turn.java:33-83 | In a turn, an engine has extinguished a cell if and only if that pair was marked earlier. |
| Turns.MarkAllCollects | fire-breaker/src/main/java/edu/kit/informatik/firebreaker/game/Turn.java:68-83 | A sequence of marks adds exactly its pairs to what was marked before. |
| Boards.BoardOf | fire-breaker/src/main/java/edu/kit/informatik/firebreaker/game/board/Board.java:35-46 | Fails if and only if two stations share an owner. Each station is collected at its cell, and each engine standing in a forest is indexed at that forest's cell. |
| Boards.BoardOfConsistent | fire-breaker/src/main/java/edu/kit/informatik/firebreaker/game/board/Board.java:35-46 | A board built from forests that file engines under their ids is consistent. |
| Boards.GetField | fire-breaker/src/main/java/edu/kit/informatik/firebreaker/game/board/Board.java:54-56 | A field is found if and only if the cell has one, and it is that cell's field. |
| Boards.GetPosition | fire-breaker/src/main/java/edu/kit/informatik/firebreaker/game/board/Board.java:64-66 | A position is found if and only if the engine is indexed, and it is that index entry. |
| Boards.Remove | fire-breaker/src/main/java/edu/kit/informatik/firebreaker/game/board/Board.java:83-91 | An indexed engine on a forest leaves both the index and that forest, and nothing else changes. An unknown engine changes nothing. A non-forest cell fails the cast. |
| Boards.Place | fire-breaker/src/main/java/edu/kit/informatik/firebreaker/game/board/Board.java:100-107 | Succeeds if and only if the destination is a forest; the engine is then indexed there and added to that forest alone. |
| Boards.IndexMatchesForests | fire-breaker/src/main/java/edu/kit/informatik/firebreaker/game/board/Board.java:35-107 | On a consistent board, an engine is indexed at a cell if and only if the forest there holds it. |
| Boards.RemoveKeepsConsistent | fire-breaker/src/main/java/edu/kit/informatik/firebreaker/game/board/Board.java:83-91 | Removing succeeds, keeps the board consistent, and leaves the engine on neither view. |
| Boards.PlaceKeepsConsistent | fire-breaker/src/main/java/edu/kit/informatik/firebreaker/game/board/Board.java:100-107 | Placing a new engine on a forest succeeds, keeps the board consistent, and puts it on both views. |
| Boards.PathToWalk | fire-breaker/src/main/java/edu/kit/informatik/firebreaker/game/board/Board.java:132-142 | A successful search yields a walk with exactly that many steps. |
| Boards.WalkToPath | fire-breaker/src/main/java/edu/kit/informatik/firebreaker/game/board/Board.java:132-142 | Every walk with exactly n steps is found by the search. |
| Boards.PathExistsIffWalk | fire-breaker/src/main/java/edu/kit/informatik/firebreaker/game/board/Board.java:132-142 | The search succeeds if and only if a walk with exactly n steps exists; with zero steps, if and only if the two cells coincide. |
| Boards.CanMove | fire-breaker/src/main/java/edu/kit/informatik/firebreaker/game/board/Board.java:119-130 | Fails if and only if the engine is not on the board. The answer is true if and only if the destination is a different, in-bound, non-burning forest reached by a walk of exactly that many steps. |
| Boards.ForestCells | fire-breaker/src/main/java/edu/kit/informatik/firebreaker/game/board/Board.java:151-155 | The cells returned are exactly the forests. |
| Games.NewGame | fire-breaker/src/main/java/edu/kit/informatik/firebreaker/game/Game.java:43-57 | Fails if and only if there are no players. Otherwise the order, the roster and the round robin follow the players, everyone has 0 reputation, and the first player's turn begins. |
| Games.NewGameValid | fire-breaker/src/main/java/edu/kit/informatik/firebreaker/game/Game.java:43-57 | A game set up on a consistent board whose engines are exactly the players' engines is valid. |
| Games.Reputation | fire-breaker/src/main/java/edu/kit/informatik/firebreaker/game/Game.java:192-194 | The lookup succeeds if and only if the player is known. |
| Games.UpdateReputation | fire-breaker/src/main/java/edu/kit/informatik/firebreaker/game/Game.java:202-204 | Only a known player's reputation changes, by delta; nothing else changes. |
| Games.UpdatesAdd | fire-breaker/src/main/java/edu/kit/informatik/firebreaker/game/Game.java:202-204 | Two updates of one player's reputation add up. |
| Games.NextTurn | fire-breaker/src/main/java/edu/kit/informatik/firebreaker/game/Game.java:152-157 | The round robin advances, the new turn belongs to the player now current, and fire is due if and only if the cursor is back at 0. |
| Games.NextTurnKeepsValid | fire-breaker/src/main/java/edu/kit/informatik/firebreaker/game/Game.java:152-157 | In a valid game the next turn always begins, and the game stays valid. |
| Games.DownwindIff | fire-breaker/src/main/java/edu/kit/informatik/firebreaker/game/Game.java:79-84 | A cell is downwind if and only if it is on the board and some wind direction blows into it from a strong fire. |
| Games.Escalate | fire-breaker/src/main/java/edu/kit/informatik/firebreaker/game/Game.java:89-95 | Escalation changes only fields, and the board keeps all its cells. |
| Games.EscalateField | fire-breaker/src/main/java/edu/kit/informatik/firebreaker/game/Game.java:76-96 | With wind, a forest rises one step if it burns lightly or a strong fire blows into it, and otherwise stays. Without wind nothing changes, and occupants never move. |
| Games.EscalateKeepsConsistent | fire-breaker/src/main/java/edu/kit/informatik/firebreaker/game/Game.java:89-95 | Spreading fire keeps a consistent board consistent. |
| Games.Burnt | fire-breaker/src/main/java/edu/kit/informatik/firebreaker/game/Game.java:101-106 | The burnt engines are exactly those standing in strong fires. |
| Games.ClearBurnt | fire-breaker/src/main/java/edu/kit/informatik/firebreaker/game/Game.java:100-111 | Exactly the burnt engines leave the index. Every field keeps its kind and every forest its state; strong fires lose their occupants, and every other field is unchanged. |
| Games.EliminateBurnt | fire-breaker/src/main/java/edu/kit/informatik/firebreaker/game/Game.java:100-120 | Burnt engines leave the board and their owners, and the reputation is kept. The turn passes exactly when the player in turn is in the order and was left without engines; otherwise the purged game is the result. |
| Games.Forfeit | fire-breaker/src/main/java/edu/kit/informatik/firebreaker/game/Game.java:107-110 | Each owner gives up exactly the burnt engines' numbers, and keeps its counter. |
| Games.Purge | fire-breaker/src/main/java/edu/kit/informatik/firebreaker/game/Game.java:100-116 | Burnt engines leave the board and their owners. Exactly the players left without engines are marked, and only unmarked players remain in the order. |
| Games.ClearBurntKeepsValid | fire-breaker/src/main/java/edu/kit/informatik/firebreaker/game/Game.java:100-111 | Clearing burnt engines keeps the board consistent and in step with the players, with nobody left in a strong fire. |
| Games.BurntIffIndexedInFire | fire-breaker/src/main/java/edu/kit/informatik/firebreaker/game/Game.java:101-108 | An engine is burnt if and only if it is indexed at a strongly burning cell. |
| Games.SpreadFireKeepsValid | fire-breaker/src/main/java/edu/kit/informatik/firebreaker/game/Game.java:76-98 | Spreading fire keeps the game valid, and leaves nobody in a strong fire and nobody in the order without an engine. |
| Games.PurgeKeepsValid | fire-breaker/src/main/java/edu/kit/informatik/firebreaker/game/Game.java:100-116 | Purging keeps the game valid, and leaves nobody in a strong fire or without an engine. |
| Games.EliminateBurntKeepsValid | fire-breaker/src/main/java/edu/kit/informatik/firebreaker/game/Game.java:100-120 | Eliminating burnt engines always succeeds on a valid game, keeps it valid, and leaves the reputation alone. |
| Games.SpreadFireBurns | fire-breaker/src/main/java/edu/kit/informatik/firebreaker/game/Game.java:76-98 | No field changes kind. With wind, a forest moves to the next state exactly when it burns lightly or a strong fire blows into it on the board; otherwise it keeps its state. |
| Games.WonStaysWon | fire-breaker/src/main/java/edu/kit/informatik/firebreaker/game/Game.java:145-147 | A game in which no forest burns stays won when fire spreads, and every forest keeps its state. |
| Games.LostIffNoneEquipped | fire-breaker/src/main/java/edu/kit/informatik/firebreaker/game/Game.java:112-138 | After burnt engines are eliminated, the game is lost, with no player left in the order, exactly when every player in the order was left without an engine. |
| Actions.Quench | fire-breaker/src/main/java/edu/kit/informatik/firebreaker/game/action/ExtinguishAction.java:23-26 | A strong fire becomes a light one, and anything else that is not wet becomes wet. |
| Actions.Specific | fire-breaker/src/main/java/edu/kit/informatik/firebreaker/game/action/EngineAction.java:43-57 | The kind-specific part never touches the turn's points or pins. |
| Actions.Perform | fire-breaker/src/main/java/edu/kit/informatik/firebreaker/game/action/EngineAction.java:36-48 | An engine off the board is Illegal, an untracked engine is a Fault, and one with no points left is Illegal. Success spends exactly one point and pins the engine exactly for extinguish and refill. |
| Actions.MoveEffect | fire-breaker/src/main/java/edu/kit/informatik/firebreaker/game/action/MoveAction.java:31-41 | A successful move had an unpinned engine and a non-burning forest reached in one or two steps. It re-indexes only that engine and leaves the players and reputation alone. |
| Actions.MoveOutcome | fire-breaker/src/main/java/edu/kit/informatik/firebreaker/game/action/MoveAction.java:31-41 | A move passes its checks and changes only the board, where the engine's index entry becomes the destination. |
| Actions.MoveBoard | fire-breaker/src/main/java/edu/kit/informatik/firebreaker/game/action/MoveAction.java:39-40 | The board after a move is the board with the engine removed and then placed on the destination. |
| Actions.ExtinguishEffect | fire-breaker/src/main/java/edu/kit/informatik/firebreaker/game/action/ExtinguishAction.java:41-64 | A successful extinguishing targeted an adjacent, not-yet-extinguished forest that is not wet. It is quenched by one step, one stone of water is used, the cell is marked, and reputation rises exactly when a fire was put out. |
| Actions.ExtinguishOutcome | fire-breaker/src/main/java/edu/kit/informatik/firebreaker/game/action/ExtinguishAction.java:42-64 | The checks passed, and the game is built from exactly the quenched board, the marked turn, the used water and the reputation rule. |
| Actions.RefillEffect | fire-breaker/src/main/java/edu/kit/informatik/firebreaker/game/action/RefillAction.java:30-43 | A successful refill had a tank that was not full next to water; the tank becomes full and the engine is pinned. |
| Actions.BuyEffect | fire-breaker/src/main/java/edu/kit/informatik/firebreaker/game/action/BuyFireEngineAction.java:33-57 | A successful purchase costs 5 of the player's reputation. The new engine has the next number, a full tank and 3 points, and stands near the station. |
| Actions.BuyOutcome | fire-breaker/src/main/java/edu/kit/informatik/firebreaker/game/action/BuyFireEngineAction.java:33-49 | The checks passed, and the game is built from the player with the new engine, the turn with its points and the board with it placed. |
| Actions.EngineAccepted | fire-breaker/src/main/java/edu/kit/informatik/firebreaker/game/action/EngineAction.java:36-48 | An engine action is accepted exactly when the engine is on the board with a point left and the particular part succeeds; once the engine is ready, a refusal is the particular part's own. |
| Actions.MoveAccepted | fire-breaker/src/main/java/edu/kit/informatik/firebreaker/game/action/MoveAction.java:32-41 | On a valid game, a move is accepted exactly when the engine is on the board with a point left, was not pinned, and reaches a non-burning forest in one or two steps. A ready engine that fails is refused as a rule violation. |
| Actions.MoveChecks | fire-breaker/src/main/java/edu/kit/informatik/firebreaker/game/action/MoveAction.java:32-41 | On a consistent board, the move itself succeeds exactly when the engine was not pinned and reaches the destination, and otherwise fails as a rule violation. |
| Actions.ExtinguishAccepted | fire-breaker/src/main/java/edu/kit/informatik/firebreaker/game/action/ExtinguishAction.java:42-64 | On a valid game, extinguishing is accepted exactly when the engine is ready, the target is a forest that is not wet, orthogonally adjacent and not yet extinguished by it, and the tank holds water. A ready engine that fails is refused as a rule violation. |
| Actions.RefillAccepted | fire-breaker/src/main/java/edu/kit/informatik/firebreaker/game/action/RefillAction.java:31-43 | On a valid game, a refill is accepted exactly when the engine is ready, its tank is not full, and a pond or station is among the eight cells around it. A ready engine that fails is refused as a rule violation. |
| Actions.RefillChecks | fire-breaker/src/main/java/edu/kit/informatik/firebreaker/game/action/RefillAction.java:31-43 | For a held engine, the refill itself succeeds exactly when the tank is not full and water is near, and otherwise fails as a rule violation. |
| Actions.BuyAccepted | fire-breaker/src/main/java/edu/kit/informatik/firebreaker/game/action/BuyFireEngineAction.java:34-49 | On a valid game, a purchase is accepted exactly when the player in turn has 5 reputation and the spawn cell is a non-burning forest around their station. Too little reputation, then a wrong cell, are refused as rule violations; a player without reputation is a fault. |
| Actions.MoveKeepsValid | fire-breaker/src/main/java/edu/kit/informatik/firebreaker/game/action/MoveAction.java:39-40 | A move keeps the game valid. |
| Actions.ExtinguishKeepsValid | fire-breaker/src/main/java/edu/kit/informatik/firebreaker/game/action/ExtinguishAction.java:57-63 | Extinguishing keeps the game valid. |
| Actions.RefillKeepsValid | fire-breaker/src/main/java/edu/kit/informatik/firebreaker/game/action/RefillAction.java:42 | Refilling keeps the game valid. |
| Actions.BuyKeepsValid | fire-breaker/src/main/java/edu/kit/informatik/firebreaker/game/action/BuyFireEngineAction.java:45-48 | Buying keeps the game valid. |
| Actions.NewEngineIsFresh | fire-breaker/src/main/java/edu/kit/informatik/firebreaker/game/action/BuyFireEngineAction.java:45-47 | The number handed out is on no engine of the board. |
| Actions.PerformUnfolds | fire-breaker/src/main/java/edu/kit/informatik/firebreaker/game/action/EngineAction.java:36-48 | A successful engine action is its specific part followed by spending a point, and a pin for extinguish and refill. |
| Actions.SpendKeepsValid | fire-breaker/src/main/java/edu/kit/informatik/firebreaker/game/action/EngineAction.java:44-47 | Spending a point that the engine had keeps the game valid. |
| Actions.PerformKeepsValid | fire-breaker/src/main/java/edu/kit/informatik/firebreaker/game/action/EngineAction.java:36-48 | Every successful action keeps a valid game valid. |
| Commands.ResolveEngine | fire-breaker/src/main/java/edu/kit/informatik/firebreaker/program/mapping/FireEngineMapper.java:22-34 | A malformed id, or one of another player, is an argument error. An id resolves exactly when it is well formed, names the player in turn, and that player holds an engine with its number; the engine has that id. |
| Commands.ResolveId | fire-breaker/src/main/java/edu/kit/informatik/firebreaker/program/mapping/FireEngineMapper.java:22-34 | The id of an engine held by the player in turn resolves to that engine. |
| Commands.ResolvedIsOnBoard | fire-breaker/src/main/java/edu/kit/informatik/firebreaker/program/mapping/FireEngineMapper.java:27-33 | In a valid game, a resolved engine stands on the board. |
| Commands.ActionOf | fire-breaker/src/main/java/edu/kit/informatik/firebreaker/program/mapping/Mapping.java:42-84 | A buy request is accepted exactly when its coordinates are on the board. Any other request is accepted exactly when its engine id resolves and, for move and extinguish, its coordinates are on the board. The action is of the request's kind, with the resolved engine and the given coordinates. |
| Commands.Surface | fire-breaker/src/main/java/edu/kit/informatik/firebreaker/program/commands/ActionCommand.java:29-33 | A failure surfaces as a semantic error if and only if the action was refused by the rules. |
| Commands.Gate | fire-breaker/src/main/java/edu/kit/informatik/firebreaker/program/commands/ActionCommand.java:26-28 | A command is gated if and only if the game is over or fire is due, and it then fails with a semantic error. |
| Commands.RunAction | fire-breaker/src/main/java/edu/kit/informatik/firebreaker/program/commands/ActionCommand.java:24-35 | Succeeds if and only if the gates pass, the arguments read and the action succeeds; the result is the action's game. |
| Commands.RunTurn | fire-breaker/src/main/java/edu/kit/informatik/firebreaker/program/commands/TurnCommand.java:17-23 | Behind the gates the next turn begins and announces its player; it goes through whenever the next turn can begin. |
| Commands.WindFromDiceRoll | fire-breaker/src/main/java/edu/kit/informatik/firebreaker/program/commands/FireToRollCommand.java:56-64 | A 1 gives wind from all four sides, 2 to 5 give North, East, South and West in turn, and 6 gives no wind. |
| Commands.WindInjective | fire-breaker/src/main/java/edu/kit/informatik/firebreaker/program/commands/FireToRollCommand.java:56-64 | Different rolls bring different winds. |
| Commands.Outcome | fire-breaker/src/main/java/edu/kit/informatik/firebreaker/program/commands/FireToRollCommand.java:42-53 | The reply is "lose" if and only if nobody is left, plain success if and only if nobody dropped out, and otherwise the player in turn. |
| Commands.RunFireToRoll | fire-breaker/src/main/java/edu/kit/informatik/firebreaker/program/commands/FireToRollCommand.java:31-54 | Allowed only when fire is due; a roll outside 1 to 6 is an argument error. Otherwise the command succeeds exactly when the fire spreads with that roll's wind, and a failed spread is a crash. |
| Commands.Step | fire-breaker/src/main/java/edu/kit/informatik/firebreaker/program/commands/ActionCommand.java:24-35 | A refused command leaves the game unchanged. A finished game refuses everything, and only the fire roll is allowed while fire is due. |
| Commands.StepKeepsValid | fire-breaker/src/main/java/edu/kit/informatik/firebreaker/program/commands/FireToRollCommand.java:31-54 | Every command keeps a valid game valid, and ending a turn or spreading fire never fails unexpectedly. |
| Layouts.NewPlayers | fire-breaker/src/main/java/edu/kit/informatik/firebreaker/program/GameEnvironment.java:83-85 | The players are exactly A to D, each new. |
| Layouts.CellInjective | fire-breaker/src/main/java/edu/kit/informatik/firebreaker/program/args/IntermediateBoardMapper.java:51-57 | Different tokens describe different cells. |
| Layouts.CellOf | fire-breaker/src/main/java/edu/kit/informatik/firebreaker/program/args/IntermediateBoardMapper.java:51-57 | The cell in row x and column y is described by token x * width + y. |
| Layouts.ParseField | fire-breaker/src/main/java/edu/kit/informatik/firebreaker/program/args/IntermediateBoardMapper.java:61-79 | Reading a token keeps the set of players, and only an engine token changes them. |
| Layouts.Place | fire-breaker/src/main/java/edu/kit/informatik/firebreaker/program/args/IntermediateBoardMapper.java:50-57 | The first k tokens fill exactly their k cells. |
| Layouts.ParseReads | fire-breaker/src/main/java/edu/kit/informatik/firebreaker/program/args/IntermediateBoardMapper.java:61-79 | A token gives the field it describes. |
| Layouts.PlaceReads | fire-breaker/src/main/java/edu/kit/informatik/firebreaker/program/args/IntermediateBoardMapper.java:50-57 | Each cell holds the field its token describes, and no later token overwrites it. |
| Layouts.PlaceKeeps | fire-breaker/src/main/java/edu/kit/informatik/firebreaker/program/args/IntermediateBoardMapper.java:50-79 | Reading tokens keeps the players valid, files every engine under its id once, and puts every held engine on the board. |
| Layouts.StationsAtCorners | fire-breaker/src/main/java/edu/kit/informatik/firebreaker/program/args/ValidFireStationsPredicate.java:22-48 | The stations are valid if and only if they occupy exactly the four corners, A, B, C and D each at its own corner. |
| Layouts.PondsAtEdgeMiddles | fire-breaker/src/main/java/edu/kit/informatik/firebreaker/program/args/ValidPondsPredicate.java:23-36 | The ponds are valid if and only if they occupy exactly the middles of the four edges. |
| Layouts.ParseLayout | fire-breaker/src/main/java/edu/kit/informatik/firebreaker/program/args/IntermediateBoardMapper.java:31-59 | The text is malformed if and only if it fails the input pattern. After that, in order: a side under 5 is too small, an even side is refused, and a token count other than width times height is refused. A layout that passes all these gives exactly what assembling and validating its tokens gives, and only such a layout is accepted. |
| Layouts.FieldTokens | fire-breaker/src/main/java/edu/kit/informatik/firebreaker/program/GameEnvironment.java:36-37 | Every piece after the two sides of a well-formed layout is a cell token. |
| Layouts.Assemble | fire-breaker/src/main/java/edu/kit/informatik/firebreaker/program/GameEnvironment.java:49-55 | Accepted if and only if the four validators pass. The first that fails names the error, in the order stations, ponds, engines, forest state. An accepted board is consistent, and its engines are exactly the players' engines. |
| Layouts.AssembleCovers | fire-breaker/src/main/java/edu/kit/informatik/firebreaker/program/args/IntermediateBoardMapper.java:46-57 | An accepted board fills exactly its cells, each with the field its token describes. |
| Layouts.PlaceCoversBoard | fire-breaker/src/main/java/edu/kit/informatik/firebreaker/program/args/IntermediateBoardMapper.java:46-57 | The tokens for a whole board fill exactly its cells. |
| Layouts.InTurnOrder | fire-breaker/src/main/java/edu/kit/informatik/firebreaker/program/GameEnvironment.java:84-87 | The players are listed A, B, C, D, with distinct names. |
| Layouts.RosterInTurnOrder | fire-breaker/src/main/java/edu/kit/informatik/firebreaker/program/GameEnvironment.java:84-87 | Keying the listed players by name gives the players back. |
| Layouts.ParsedPlaced | fire-breaker/src/main/java/edu/kit/informatik/firebreaker/program/GameEnvironment.java:49-55 | An accepted layout's board is consistent, agrees with the players, and has both a strong and a light fire. |
| Layouts.NewGameFromLayout | fire-breaker/src/main/java/edu/kit/informatik/firebreaker/program/GameEnvironment.java:83-88 | A game starts if and only if the layout is accepted, on its board, with players A to D. |
| Layouts.StartValid | fire-breaker/src/main/java/edu/kit/informatik/firebreaker/program/GameEnvironment.java:83-88 | A game started on such a board is valid and not over. |
| Layouts.LayoutGameValid | fire-breaker/src/main/java/edu/kit/informatik/firebreaker/program/GameEnvironment.java:83-88 | A game started from an accepted layout is valid and not over. |

## Left out

- Console input and output are left out: the terminal session loops, both `Main` classes, the quit commands, and every line the commands print. The commands are modelled by the state they produce and a reply value.
- The presentation commands are left out, because they only format state the model already exposes. This covers the fire-breaker show-board, show-field and show-player commands, and the escape-networks list, print and flow commands with their sorting.
- The reset command is left out. `Layouts.NewGameFromLayout` models the game it starts.
- The generic argument parser and the mapping pipeline (`ArgumentParser`, `Parameter`, `Arguments`, `MappingStage`, `MappingConstraint`) are left out. They are glue driven by caller-supplied lambdas. The checks they perform are written directly: `Commands.ActionOf`, `Commands.ResolveEngine`, `Registry.Add` and `Layouts.ParseLayout`.
- `java.util.regex` and `Integer.valueOf` are not modelled as libraries. Each pattern is written as a predicate over characters (vertex and network names, digit runs, engine ids, cell tokens).
- Values outside the Java `int` and `long` ranges are not modelled. Capacities, flow values, reputation and engine numbers are unbounded integers, so overflow on huge digit strings or flows is absent.
- `String.split` drops trailing empty pieces; `Text.Split` keeps them. Where the model splits, the input is first checked not to end with the separator (`NetworkText.ParseNetwork`) or is matched against the full input pattern (`Layouts.ParseLayout`), so the two agree on every text that is accepted.
- The order in which hash sets and hash maps are walked is not modelled. Printing a network takes the edge order as a parameter (`order`), and `NetworkText.ParseShowNetwork` holds for every order. Displaying a forest lists its engines in the sorted display order the program uses.
- Stream laziness and the object identity of `Player`, `FireEngine` and `Field` instances are replaced by value semantics. This identity is what lets the Java `Forest` and `Board` objects share engines.
- `Forest.removeAllFireEngines` and `setState` are not modelled as separate operations. The board updates that use them, clearing burnt engines and quenching a forest, are modelled directly (`Games.ClearBurnt`, `Actions.QuenchAt`).
- `EscapeNetworkSystem.getRegisteredNetworks` and the plain getters (`getVertices`, `getGraph`, `getWidth` and so on) are field accesses of the datatypes. They have no members of their own.
- `Flows.Maximize`: termination is argued from the flow value, which rises by at least one per round and is bounded by the capacity into the sink. The model does not bound the number of rounds, which Edmonds–Karp does in O(V·E).
- `Games.Escalate`: its own contract states only what stays the same; what happens to each forest is stated separately by `Games.EscalateField`.
- `Actions.PerformMove`, `Actions.PerformExtinguish`, `Actions.PerformRefill` and `Actions.PerformBuy` carry no contract of their own. What they accept and what they build is stated by `Actions.MoveChecks`, `Actions.RefillChecks`, the `Accepted` lemmas and the `Outcome` lemmas.
