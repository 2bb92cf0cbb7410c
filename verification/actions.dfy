/** The four actions a player may take in a turn. Moving, extinguishing and
    refilling are engine actions: the engine must be on the board and have an
    action point left, and a successful action spends one point. Buying an
    engine costs reputation instead. A refused action leaves the game as it was:
    the model returns the failure and no game. */
module Actions {
  import opened Wrappers
  import opened Geometry
  import opened FireEngines
  import opened Forests
  import opened Boards
  import opened Failures
  import opened Games
  import P = Players
  import T = Turns

  const MaximumMoveDistance: nat := 2
  const ReputationGain: int := 1
  const ReputationCost: int := 5

  datatype Action =
    | MoveAction(engine: EngineRef, destination: Position)
    | ExtinguishAction(engine: EngineRef, target: Position)
    | RefillAction(engine: EngineRef)
    | BuyAction(spawn: Position)

  /** Extinguishing and refilling pin the engine for the rest of the turn. */
  predicate MarksStationary(a: Action) { a.ExtinguishAction? || a.RefillAction? }

  /** The water in `e`'s tank, if its owner still holds it. */
  function Water(g: Game, e: EngineRef): (r: Option<nat>)
    ensures r.Some? <==> e.owner in g.roster && e.number in g.roster[e.owner].engines
    ensures r.Some? ==> r.value == g.roster[e.owner].engines[e.number]
  {
    if e.owner in g.roster && e.number in g.roster[e.owner].engines
    then Some(g.roster[e.owner].engines[e.number]) else None
  }

  /** The tank of a held engine now holds `w`; nothing else changes. */
  function WithWater(g: Game, e: EngineRef, w: nat): (r: Game)
    requires Water(g, e).Some?
    ensures Water(r, e) == Some(w)
    ensures forall e' | e' != e :: Water(r, e') == Water(g, e')
    ensures r.roster.Keys == g.roster.Keys && r.(roster := g.roster) == g
  {
    g.(roster := g.roster[e.owner := P.SetWater(g.roster[e.owner], e.number, w)])
  }

  /** The state a forest is extinguished to: a strong fire becomes a light one,
      a light fire and a dry forest become wet. A wet forest cannot be extinguished. */
  function Quench(s: State): (r: State)
    requires s != Wet
    ensures Ordinal(r) < Ordinal(s)
    ensures r == LightBurn <==> s == StrongBurn
    ensures r == Wet <==> s != StrongBurn
  {
    match s
    case StrongBurn => LightBurn
    case LightBurn => Wet
    case Dry => Wet
  }

  /** The board with the forest at `at` quenched; its occupants stay. */
  function QuenchAt(b: Board, at: Point): (r: Board)
    requires IsForestAt(b.fields, at) && b.fields[at].forest.state != Wet
    ensures r.dims == b.dims && r.stations == b.stations && r.index == b.index
  {
    var f := b.fields[at].forest;
    b.(fields := b.fields[at := ForestField(f.(state := Quench(f.state)))])
  }

  /** Whether `target` is one of the four orthogonal neighbours of `position`. */
  predicate NextTo(position: Position, target: Position)
  {
    exists q | q in Adjacents(position, false) :: q.At() == target.At()
  }

  /** Whether one of the eight cells around `position` is a pond or a fire station. */
  predicate NearWater(b: Board, position: Position)
  {
    exists q | q in Adjacents(position, true) ::
      q.At() in b.fields && (b.fields[q.At()].PondField? || b.fields[q.At()].StationField?)
  }

  /** A forest that does not burn: where a bought engine may appear. */
  predicate Spawnable(b: Board, p: Point)
  {
    IsForestAt(b.fields, p) && !IsBurning(b.fields[p].forest.state)
  }

  /** Whether `spawn` is a spawnable cell among the eight around `station`. */
  predicate SpawnsNear(b: Board, station: Position, spawn: Position)
  {
    exists q | q in Adjacents(station, true) :: Spawnable(b, q.At()) && q.At() == spawn.At()
  }

  /** Moving `e`, standing at its indexed position, to `destination`: it must
      not have been pinned this turn and must reach the destination in one or
      two steps; then it leaves its forest and enters the destination. */
  function PerformMove(g: Game, e: EngineRef, destination: Position): (r: Result<Game, Failure>)
    requires e in g.board.index
  {
    if !T.CanMove(g.turn, e) then Err(Illegal)
    else if !(CanMove(g.board, e, destination, MaximumMoveDistance - 1).value
              || CanMove(g.board, e, destination, MaximumMoveDistance).value) then Err(Illegal)
    else
      var b :- Remove(g.board, e);
      var b' :- Place(b, e, destination);
      Ok(g.(board := b'))
  }

  /** Extinguishing `target` with `e`, standing at `position`: the target must be
      a forest that is not wet, orthogonally next to the engine, not yet
      extinguished by this engine this turn, and the tank must not be empty.
      Then the tank loses a stone, the forest is quenched, the cell is marked,
      and putting out a fire earns the player in turn reputation. */
  function PerformExtinguish(g: Game, e: EngineRef, target: Position, position: Position): (r: Result<Game, Failure>)
  {
    var at := target.At();
    if !(IsForestAt(g.board.fields, at) && g.board.fields[at].forest.state != Wet) then Err(Illegal)
    else if !NextTo(position, target) then Err(Illegal)
    else if T.HasExtinguished(g.turn, e, at) then Err(Illegal)
    else
      match Water(g, e)
      case None => Err(Fault)
      case Some(w) =>
        if IsEmpty(w) then Err(Illegal)
        else
          var g2 := Extinguished(g, e, at);
          Ok(if IsBurning(g.board.fields[at].forest.state) then UpdateReputation(g2, g2.turn.player, ReputationGain) else g2)
  }

  /** The game after `e` spends one unit of water on the forest at `at`: the
      tank loses a unit, the forest's fire weakens and the turn records the
      extinguishing. */
  function Extinguished(g: Game, e: EngineRef, at: Point): (r: Game)
    requires IsForestAt(g.board.fields, at) && g.board.fields[at].forest.state != Wet && Water(g, e).Some?
  {
    var g1 := WithWater(g, e, UseWater(Water(g, e).value));
    g1.(board := QuenchAt(g1.board, at), turn := T.MarkExtinguished(g1.turn, e, at))
  }

  /** Refilling `e`, standing at `position`: the tank must not be full and a
      pond or fire station must be among the eight cells around; then the tank is full. */
  function PerformRefill(g: Game, e: EngineRef, position: Position): (r: Result<Game, Failure>)
  {
    match Water(g, e)
    case None => Err(Fault)
    case Some(w) =>
      if IsFull(w) then Err(Illegal)
      else if !NearWater(g.board, position) then Err(Illegal)
      else Ok(WithWater(g, e, Refill(w)))
  }

  /** Buying an engine at `spawn` for the player in turn: the player needs five
      reputation and `spawn` must be a forest that does not burn among the eight
      cells around the player's station. The new engine joins the player, the
      turn and the board, and the reputation is paid. An unknown reputation or
      station is a fault. */
  function PerformBuy(g: Game, spawn: Position): (r: Result<Game, Failure>)
  {
    var name := g.turn.player;
    var rep :- Reputation(g, name);
    if rep < ReputationCost then Err(Illegal)
    else if name !in g.board.stations then Err(Fault)
    else if !SpawnsNear(g.board, g.board.stations[name], spawn) then Err(Illegal)
    else if name !in g.roster then Err(Fault)
    else
      var (player, e) := P.CreateEngine(g.roster[name]);
      var t :- T.AddEngine(g.turn, e);
      var b :- Place(g.board, e, spawn);
      Ok(UpdateReputation(g.(roster := g.roster[name := player], turn := t, board := b), name, -ReputationCost))
  }

  /** The part of an engine action particular to its kind. */
  function Specific(g: Game, a: Action, position: Position): (r: Result<Game, Failure>)
    requires !a.BuyAction? && a.engine in g.board.index
    ensures r.Ok? ==> r.value.turn.player == g.turn.player && r.value.turn.points == g.turn.points
    ensures r.Ok? ==> r.value.turn.stationary == g.turn.stationary
  {
    match a
    case MoveAction(e, destination) => PerformMove(g, e, destination)
    case ExtinguishAction(e, target) => PerformExtinguish(g, e, target, position)
    case RefillAction(e) => PerformRefill(g, e, position)
  }

  /** `Action.perform`. An engine action needs the engine on the board (else it
      is refused) and an action point (an engine the turn does not track is a
      fault, one without points is refused); a successful one spends a point
      and, for extinguishing and refilling, pins the engine. */
  function Perform(g: Game, a: Action): (r: Result<Game, Failure>)
    ensures !a.BuyAction? && a.engine !in g.board.index ==> r == Err(Illegal)
    ensures !a.BuyAction? && a.engine in g.board.index && a.engine !in g.turn.points ==> r == Err(Fault)
    ensures !a.BuyAction? && a.engine in g.turn.points && g.turn.points[a.engine] <= 0 ==> r == Err(Illegal)
    ensures !a.BuyAction? && r.Ok? ==>
      a.engine in g.turn.points && g.turn.points[a.engine] > 0
      && a.engine in r.value.turn.points && r.value.turn.points[a.engine] == g.turn.points[a.engine] - 1
      && (T.CanMove(r.value.turn, a.engine) <==> T.CanMove(g.turn, a.engine) && !MarksStationary(a))
  {
    match a
    case BuyAction(spawn) => PerformBuy(g, spawn)
    case _ =>
      var e := a.engine;
      if e !in g.board.index then Err(Illegal)
      else
        var points :- T.GetPoints(g.turn, e);
        if points <= 0 then Err(Illegal)
        else
          var g' :- Specific(g, a, g.board.index[e]);
          var t := T.UsePoint(g'.turn, e);
          Ok(g'.(turn := if MarksStationary(a) then T.MarkStationary(t, e) else t))
  }

  /** A move that succeeds puts the engine on the destination, a forest that
      does not burn, reached in one or two steps from where it stood; the
      engine had not been pinned and the player's holdings are untouched. */
  lemma MoveEffect(g: Game, e: EngineRef, destination: Position)
    requires Perform(g, MoveAction(e, destination)).Ok?
    ensures var r := Perform(g, MoveAction(e, destination)).value;
      && e in g.board.index && T.CanMove(g.turn, e)
      && r.board.index == g.board.index[e := destination]
      && IsForestAt(g.board.fields, destination.At()) && !IsBurning(g.board.fields[destination.At()].forest.state)
      && ((exists w :: WalkOf(g.board, g.board.index[e], destination, 1, w))
          || (exists w :: WalkOf(g.board, g.board.index[e], destination, 2, w)))
      && r.roster == g.roster && r.reputation == g.reputation && r.players == g.players
  {
    PerformUnfolds(g, MoveAction(e, destination));
    MoveOutcome(g, e, destination);
  }

  /** What a successful move checked, and that it changes the board alone:
      the engine's indexed position becomes the destination. */
  lemma MoveOutcome(g: Game, e: EngineRef, destination: Position)
    requires e in g.board.index && PerformMove(g, e, destination).Ok?
    ensures T.CanMove(g.turn, e)
    ensures IsForestAt(g.board.fields, destination.At()) && !IsBurning(g.board.fields[destination.At()].forest.state)
    ensures (exists w :: WalkOf(g.board, g.board.index[e], destination, 1, w))
         || (exists w :: WalkOf(g.board, g.board.index[e], destination, 2, w))
    ensures var r := PerformMove(g, e, destination).value;
      r == g.(board := r.board) && r.board.index == g.board.index[e := destination]
  {
    MoveChecked(g, e, destination);
    MoveBoard(g, e, destination);
    var b := Remove(g.board, e).value;
    assert b.index[e := destination] == g.board.index[e := destination];
  }

  /** The checks a successful move passed. */
  lemma MoveChecked(g: Game, e: EngineRef, destination: Position)
    requires e in g.board.index && PerformMove(g, e, destination).Ok?
    ensures T.CanMove(g.turn, e)
    ensures IsForestAt(g.board.fields, destination.At()) && !IsBurning(g.board.fields[destination.At()].forest.state)
    ensures (exists w :: WalkOf(g.board, g.board.index[e], destination, 1, w))
         || (exists w :: WalkOf(g.board, g.board.index[e], destination, 2, w))
  {
  }

  /** A successful move replaces the board by the one with the engine taken
      off its forest and put on the destination. */
  lemma MoveBoard(g: Game, e: EngineRef, destination: Position)
    requires e in g.board.index && PerformMove(g, e, destination).Ok?
    ensures Remove(g.board, e).Ok? && Place(Remove(g.board, e).value, e, destination).Ok?
    ensures PerformMove(g, e, destination).value == g.(board := Place(Remove(g.board, e).value, e, destination).value)
  {
  }

  /** A successful extinguishing quenches the target by one step, keeps its
      occupants, costs one stone of water, marks the cell for the engine and
      earns one reputation point exactly when a fire was put out. */
  lemma ExtinguishEffect(g: Game, e: EngineRef, target: Position)
    requires Perform(g, ExtinguishAction(e, target)).Ok?
    ensures var r := Perform(g, ExtinguishAction(e, target)).value;
      var at := target.At();
      && e in g.board.index && NextTo(g.board.index[e], target)
      && IsForestAt(g.board.fields, at) && g.board.fields[at].forest.state != Wet
      && IsForestAt(r.board.fields, at)
      && r.board.fields[at].forest == g.board.fields[at].forest.(state := Quench(g.board.fields[at].forest.state))
      && !T.HasExtinguished(g.turn, e, at) && T.HasExtinguished(r.turn, e, at) && !T.CanMove(r.turn, e)
      && Water(g, e).Some? && Water(g, e).value > 0 && Water(r, e) == Some(Water(g, e).value - 1)
      && r.reputation == (if IsBurning(g.board.fields[at].forest.state)
                          then UpdateReputation(g, g.turn.player, ReputationGain).reputation else g.reputation)
  {
    PerformUnfolds(g, ExtinguishAction(e, target));
    ExtinguishOutcome(g, e, target, g.board.index[e]);
  }

  /** What a successful extinguishing checked, and the game it builds before
      the turn's point is spent. */
  lemma ExtinguishOutcome(g: Game, e: EngineRef, target: Position, position: Position)
    requires PerformExtinguish(g, e, target, position).Ok?
    ensures var r := PerformExtinguish(g, e, target, position).value;
      var at := target.At();
      && NextTo(position, target)
      && IsForestAt(g.board.fields, at) && g.board.fields[at].forest.state != Wet
      && !T.HasExtinguished(g.turn, e, at)
      && Water(g, e).Some? && Water(g, e).value > 0 && Water(r, e) == Some(Water(g, e).value - 1)
      && r.board == QuenchAt(g.board, at) && r.turn == T.MarkExtinguished(g.turn, e, at)
      && r.reputation == (if IsBurning(g.board.fields[at].forest.state)
                          then UpdateReputation(g, g.turn.player, ReputationGain).reputation else g.reputation)
  {
    var at := target.At();
    var g2 := Extinguished(g, e, at);
    assert g2.reputation == g.reputation;
  }

  /** A successful refill fills a tank that was not full, next to water. */
  lemma RefillEffect(g: Game, e: EngineRef)
    requires Perform(g, RefillAction(e)).Ok?
    ensures var r := Perform(g, RefillAction(e)).value;
      && e in g.board.index && NearWater(g.board, g.board.index[e])
      && Water(g, e).Some? && !IsFull(Water(g, e).value)
      && Water(r, e) == Some(TankCapacity) && !T.CanMove(r.turn, e)
      && r.board == g.board && r.reputation == g.reputation
  {
  }

  /** A successful purchase costs five reputation the player had, and places a
      new engine with a full tank and three action points, numbered by the
      player's counter, on a forest that does not burn next to their station. */
  lemma BuyEffect(g: Game, spawn: Position)
    requires Perform(g, BuyAction(spawn)).Ok?
    ensures var r := Perform(g, BuyAction(spawn)).value;
      var name := g.turn.player;
      && name in g.roster && name in g.reputation && g.reputation[name] >= ReputationCost
      && r.reputation == g.reputation[name := g.reputation[name] - ReputationCost]
      && name in g.board.stations && SpawnsNear(g.board, g.board.stations[name], spawn)
      && var e := EngineRef(name, g.roster[name].next);
         r.board.index == g.board.index[e := spawn] && Water(r, e) == Some(TankCapacity)
         && r.turn.points == g.turn.points[e := T.InitialActionPoints]
  {
    var g1 := BuyOutcome(g, spawn);
  }

  /** What a successful purchase checked, and the game it builds before the
      reputation is paid: the player with the new engine, the turn with its
      points and the board with it on the spawn cell. */
  lemma BuyOutcome(g: Game, spawn: Position) returns (g1: Game)
    requires PerformBuy(g, spawn).Ok?
    ensures var name := g.turn.player;
      && name in g.roster && name in g.reputation && g.reputation[name] >= ReputationCost
      && name in g.board.stations && SpawnsNear(g.board, g.board.stations[name], spawn)
      && IsForestAt(g.board.fields, spawn.At())
      && var (player, e) := P.CreateEngine(g.roster[name]);
         && e.owner == name
         && g1 == g.(roster := g.roster[name := player], turn := T.AddEngine(g.turn, e).value,
                     board := Place(g.board, e, spawn).value)
         && PerformBuy(g, spawn).value == UpdateReputation(g1, name, -ReputationCost)
  {
    var name := g.turn.player;
    var (player, e) := P.CreateEngine(g.roster[name]);
    g1 := g.(roster := g.roster[name := player], turn := T.AddEngine(g.turn, e).value,
             board := Place(g.board, e, spawn).value);
  }

  /** The checks `EngineAction.perform` makes before the part particular to
      the action: the engine is on the board and has an action point left. */
  predicate Ready(g: Game, e: EngineRef)
  {
    e in g.board.index && e in g.turn.points && g.turn.points[e] > 0
  }

  /** Whether an engine at `from` reaches `to` in one or two steps: `to` is
      another cell in bounds, a forest that does not burn, at the end of a walk. */
  ghost predicate Reaches(b: Board, from: Position, to: Position)
  {
    from.At() != to.At() && PositionInBounds(b.dims, from) && PositionInBounds(b.dims, to)
    && IsForestAt(b.fields, to.At()) && !IsBurning(b.fields[to.At()].forest.state)
    && ((exists w :: WalkOf(b, from, to, 1, w)) || (exists w :: WalkOf(b, from, to, 2, w)))
  }

  /** An engine action is accepted exactly when the engine is ready and its
      particular part succeeds; once the engine is ready, a refusal is the
      particular part's own. */
  lemma EngineAccepted(g: Game, a: Action)
    requires !a.BuyAction?
    ensures Perform(g, a).Ok? <==> Ready(g, a.engine) && Specific(g, a, g.board.index[a.engine]).Ok?
    ensures Ready(g, a.engine) && Perform(g, a).Err? ==>
      Perform(g, a).error == Specific(g, a, g.board.index[a.engine]).error
  {
  }

  /** On a valid game a move is accepted exactly when the engine is ready, has
      not been pinned this turn and reaches the destination; a ready engine
      that fails the move's own checks is refused as a rule violation. */
  lemma MoveAccepted(g: Game, e: EngineRef, destination: Position)
    requires Valid(g)
    ensures Perform(g, MoveAction(e, destination)).Ok?
      <==> Ready(g, e) && T.CanMove(g.turn, e) && Reaches(g.board, g.board.index[e], destination)
    ensures Ready(g, e) && Perform(g, MoveAction(e, destination)).Err? ==>
      Perform(g, MoveAction(e, destination)) == Err(Illegal)
  {
    EngineAccepted(g, MoveAction(e, destination));
    if e in g.board.index {
      MoveChecks(g, e, destination);
    }
  }

  /** The move's own checks: on a consistent board, moving an indexed engine
      succeeds exactly when it was not pinned and reaches the destination,
      and fails otherwise as a rule violation. */
  lemma MoveChecks(g: Game, e: EngineRef, destination: Position)
    requires Consistent(g.board) && e in g.board.index
    ensures PerformMove(g, e, destination).Ok? <==> T.CanMove(g.turn, e) && Reaches(g.board, g.board.index[e], destination)
    ensures PerformMove(g, e, destination).Err? ==> PerformMove(g, e, destination) == Err(Illegal)
  {
    var from := g.board.index[e];
    assert Hosts(g.board.fields, from.At(), e);
    var one := CanMove(g.board, e, destination, MaximumMoveDistance - 1);
    var two := CanMove(g.board, e, destination, MaximumMoveDistance);
    assert one == Ok(true) || two == Ok(true) <==> Reaches(g.board, from, destination);
    if T.CanMove(g.turn, e) && Reaches(g.board, from, destination) {
      var b := Remove(g.board, e).value;
      assert b.fields[destination.At()] == g.board.fields[destination.At()];
      assert Place(b, e, destination).Ok?;
    }
  }

  /** On a valid game an extinguishing is accepted exactly when the engine is
      ready, the target is a forest that is not wet, orthogonally next to the
      engine and not yet extinguished by it this turn, and the tank holds water;
      a ready engine that fails one of these is refused as a rule violation. */
  lemma ExtinguishAccepted(g: Game, e: EngineRef, target: Position)
    requires Valid(g)
    ensures var at := target.At();
      Perform(g, ExtinguishAction(e, target)).Ok?
      <==> Ready(g, e) && IsForestAt(g.board.fields, at) && g.board.fields[at].forest.state != Wet
           && NextTo(g.board.index[e], target) && !T.HasExtinguished(g.turn, e, at)
           && Water(g, e).Some? && !IsEmpty(Water(g, e).value)
    ensures Ready(g, e) && Perform(g, ExtinguishAction(e, target)).Err? ==>
      Perform(g, ExtinguishAction(e, target)) == Err(Illegal)
  {
    EngineAccepted(g, ExtinguishAction(e, target));
    if e in g.board.index {
      assert Water(g, e).Some?;
    }
  }

  /** On a valid game a refill is accepted exactly when the engine is ready,
      its tank is not full and water is among the eight cells around it; a
      ready engine that fails one of these is refused as a rule violation. */
  lemma RefillAccepted(g: Game, e: EngineRef)
    requires Valid(g)
    ensures Perform(g, RefillAction(e)).Ok?
      <==> Ready(g, e) && Water(g, e).Some? && !IsFull(Water(g, e).value)
           && NearWater(g.board, g.board.index[e])
    ensures Ready(g, e) && Perform(g, RefillAction(e)).Err? ==>
      Perform(g, RefillAction(e)) == Err(Illegal)
  {
    EngineAccepted(g, RefillAction(e));
    if e in g.board.index {
      assert Water(g, e).Some?;
      RefillChecks(g, e, g.board.index[e]);
    }
  }

  /** The refill's own checks: for a held engine, refilling succeeds exactly
      when the tank is not full and water is near, and fails otherwise as a
      rule violation. */
  lemma RefillChecks(g: Game, e: EngineRef, position: Position)
    requires Water(g, e).Some?
    ensures PerformRefill(g, e, position).Ok? <==> !IsFull(Water(g, e).value) && NearWater(g.board, position)
    ensures PerformRefill(g, e, position).Err? ==> PerformRefill(g, e, position) == Err(Illegal)
  {
  }

  /** On a valid game a purchase is accepted exactly when the player in turn
      has five reputation and `spawn` is a spawnable cell around their station.
      Too little reputation, then a wrong spawn cell, are refused as rule
      violations; a player without reputation or station is a fault. */
  lemma BuyAccepted(g: Game, spawn: Position)
    requires Valid(g)
    ensures var name := g.turn.player;
      Perform(g, BuyAction(spawn)).Ok?
      <==> name in g.reputation && g.reputation[name] >= ReputationCost
           && name in g.board.stations && SpawnsNear(g.board, g.board.stations[name], spawn)
    ensures var name := g.turn.player;
      name in g.reputation && g.reputation[name] < ReputationCost ==> Perform(g, BuyAction(spawn)) == Err(Illegal)
    ensures var name := g.turn.player;
      (name in g.reputation && g.reputation[name] >= ReputationCost && name in g.board.stations
       && !SpawnsNear(g.board, g.board.stations[name], spawn)) ==> Perform(g, BuyAction(spawn)) == Err(Illegal)
    ensures g.turn.player !in g.reputation ==> Perform(g, BuyAction(spawn)) == Err(Fault)
  {
    var name := g.turn.player;
    assert name in g.roster by {
      assert g.turns.elements[g.turns.position] == name;
    }
    if name in g.board.stations && SpawnsNear(g.board, g.board.stations[name], spawn) {
      assert Spawnable(g.board, spawn.At());
    }
  }

  /** Quenching a forest leaves a consistent board consistent. */
  lemma QuenchKeepsConsistent(b: Board, at: Point)
    requires Consistent(b) && IsForestAt(b.fields, at) && b.fields[at].forest.state != Wet
    ensures Consistent(QuenchAt(b, at))
  {
    var b' := QuenchAt(b, at);
    forall p, e | Hosts(b'.fields, p, e)
      ensures Hosts(b.fields, p, e)
    {
    }
    forall e | e in b'.index
      ensures Hosts(b'.fields, b'.index[e].At(), e)
    {
      assert Hosts(b.fields, b.index[e].At(), e);
    }
  }

  lemma WithWaterKeepsValid(g: Game, e: EngineRef, w: nat)
    requires Valid(g) && Water(g, e).Some? && w <= TankCapacity
    ensures Valid(WithWater(g, e, w))
  {
    var o := e.owner;
    var p' := P.SetWater(g.roster[o], e.number, w);
    ReplacePlayerKeepsValid(g, o, p');
  }

  /** Replacing a player by one with the same name and the same engine
      numbers keeps the game valid, as long as the new player is valid. */
  lemma ReplacePlayerKeepsValid(g: Game, o: string, p': P.Player)
    requires Valid(g) && o in g.roster && p'.name == o && P.Valid(p')
    requires p'.engines.Keys == g.roster[o].engines.Keys
    ensures Valid(g.(roster := g.roster[o := p']))
  {
    var r := g.roster[o := p'];
    forall e | e in g.board.index
      ensures e.owner in r && e.number in r[e.owner].engines
    {
    }
    forall o', n | o' in r && n in r[o'].engines
      ensures EngineRef(o', n) in g.board.index
    {
      assert n in g.roster[o'].engines;
    }
  }

  lemma QuenchAtKeepsValid(g: Game, at: Point)
    requires Valid(g) && IsForestAt(g.board.fields, at) && g.board.fields[at].forest.state != Wet
    ensures Valid(g.(board := QuenchAt(g.board, at)))
  {
    QuenchKeepsConsistent(g.board, at);
  }

  /** A new turn value for the same player with points in range keeps the game valid. */
  lemma TurnKeepsValid(g: Game, t: T.Turn)
    requires Valid(g) && t.player == g.turn.player
    requires forall e | e in t.points :: 0 <= t.points[e] <= T.InitialActionPoints
    ensures Valid(g.(turn := t))
  {
  }

  lemma MoveKeepsValid(g: Game, e: EngineRef, destination: Position)
    requires Valid(g) && e in g.board.index && PerformMove(g, e, destination).Ok?
    ensures Valid(PerformMove(g, e, destination).value)
  {
    MoveBoard(g, e, destination);
    MovedConsistent(g.board, e, destination);
    BoardKeepsValid(g, Place(Remove(g.board, e).value, e, destination).value);
  }

  /** Taking an indexed engine off its forest and putting it on another
      keeps a consistent board consistent, with the same engines indexed. */
  lemma MovedConsistent(b: Board, e: EngineRef, destination: Position)
    requires Consistent(b) && e in b.index
    requires Remove(b, e).Ok? && Place(Remove(b, e).value, e, destination).Ok?
    ensures var b' := Place(Remove(b, e).value, e, destination).value;
      Consistent(b') && b'.index.Keys == b.index.Keys
  {
    var b1 := Remove(b, e).value;
    RemoveKeepsConsistent(b, e);
    PlaceKeepsConsistent(b1, e, destination);
  }

  /** A consistent board that indexes the same engines keeps a valid game valid. */
  lemma BoardKeepsValid(g: Game, b': Board)
    requires Valid(g) && Consistent(b') && b'.index.Keys == g.board.index.Keys
    ensures Valid(g.(board := b'))
  {
  }

  lemma ExtinguishKeepsValid(g: Game, e: EngineRef, target: Position, position: Position)
    requires Valid(g) && PerformExtinguish(g, e, target, position).Ok?
    ensures Valid(PerformExtinguish(g, e, target, position).value)
  {
    var at := target.At();
    var g2 := Extinguished(g, e, at);
    ExtinguishedValid(g, e, at);
    ValidIgnoresReputation(g2, UpdateReputation(g2, g2.turn.player, ReputationGain).reputation);
  }

  lemma ExtinguishedValid(g: Game, e: EngineRef, at: Point)
    requires Valid(g) && IsForestAt(g.board.fields, at) && g.board.fields[at].forest.state != Wet && Water(g, e).Some?
    ensures Valid(Extinguished(g, e, at))
  {
    var w := Water(g, e).value;
    var g1 := WithWater(g, e, UseWater(w));
    WithWaterKeepsValid(g, e, UseWater(w));
    QuenchAtKeepsValid(g1, at);
    TurnKeepsValid(g1.(board := QuenchAt(g1.board, at)), T.MarkExtinguished(g1.turn, e, at));
  }

  lemma RefillKeepsValid(g: Game, e: EngineRef, position: Position)
    requires Valid(g) && PerformRefill(g, e, position).Ok?
    ensures Valid(PerformRefill(g, e, position).value)
  {
    WithWaterKeepsValid(g, e, TankCapacity);
  }

  lemma BuyKeepsValid(g: Game, spawn: Position)
    requires Valid(g) && PerformBuy(g, spawn).Ok?
    ensures Valid(PerformBuy(g, spawn).value)
  {
    var name := g.turn.player;
    var g1 := BuyOutcome(g, spawn);
    BuyKeepsHoldings(g, spawn);
    var (player, e) := P.CreateEngine(g.roster[name]);
    JoinKeepsValid(g, player, e, g1);
    ValidIgnoresReputation(g1, UpdateReputation(g1, name, -ReputationCost).reputation);
  }

  /** The player in turn, their new engine, its points and its place on the
      board, joined together, keep a valid game valid. */
  lemma JoinKeepsValid(g: Game, player: P.Player, e: EngineRef, g1: Game)
    requires Valid(g) && player.name == g.turn.player && player.name in g.roster && P.Valid(player)
    requires g1.roster == g.roster[player.name := player] && g1.turn.player == g.turn.player
    requires g1.turn.points == g.turn.points[e := T.InitialActionPoints]
    requires Consistent(g1.board) && HoldingsAgree(g1.board, g1.roster)
    requires g1.players == g.players && g1.turns == g.turns
    ensures Valid(g1)
  {
    assert g1.roster.Keys == g.roster.Keys;
    forall o | o in g1.roster
      ensures g1.roster[o].name == o && DigitFree(o) && P.Valid(g1.roster[o])
    {
      if o != player.name {
        assert g1.roster[o] == g.roster[o];
      }
    }
    forall f | f in g1.turn.points
      ensures 0 <= g1.turn.points[f] <= T.InitialActionPoints
    {
      if f != e {
        assert g1.turn.points[f] == g.turn.points[f];
      }
    }
  }

  /** The engine bought joins the board and its owner together. */
  lemma BuyKeepsHoldings(g: Game, spawn: Position)
    requires Valid(g) && PerformBuy(g, spawn).Ok?
    ensures var name := g.turn.player;
      var (player, e) := P.CreateEngine(g.roster[name]);
      var b := Place(g.board, e, spawn).value;
      Consistent(b) && HoldingsAgree(b, g.roster[name := player])
  {
    var name := g.turn.player;
    assert SpawnsNear(g.board, g.board.stations[name], spawn);
    NewEngineKeepsHoldings(g.board, g.roster, name, spawn);
  }

  lemma NewEngineKeepsHoldings(b: Board, roster: map<string, P.Player>, name: string, spawn: Position)
    requires Consistent(b) && HoldingsAgree(b, roster)
    requires name in roster && roster[name].name == name && P.Valid(roster[name]) && DigitFree(name)
    requires IsForestAt(b.fields, spawn.At())
    ensures var (player, e) := P.CreateEngine(roster[name]);
      var b' := Place(b, e, spawn).value;
      Consistent(b') && HoldingsAgree(b', roster[name := player])
  {
    var (player, e) := P.CreateEngine(roster[name]);
    NewEngineIsFresh(b, roster, name);
    PlaceKeepsConsistent(b, e, spawn);
    var b' := Place(b, e, spawn).value;
    HoldingsGrow(b, roster, name, player, e, spawn);
  }

  /** The number a player's counter hands out is on no engine of the board. */
  lemma NewEngineIsFresh(b: Board, roster: map<string, P.Player>, name: string)
    requires HoldingsAgree(b, roster) && name in roster && P.Valid(roster[name])
    ensures EngineRef(name, roster[name].next) !in b.index
  {
  }

  /** An engine placed on the board and handed to its owner keeps them in step. */
  lemma HoldingsGrow(b: Board, roster: map<string, P.Player>, name: string, player: P.Player, e: EngineRef, spawn: Position)
    requires HoldingsAgree(b, roster) && name in roster && IsForestAt(b.fields, spawn.At())
    requires e.owner == name && player.engines.Keys == roster[name].engines.Keys + {e.number}
    ensures HoldingsAgree(Place(b, e, spawn).value, roster[name := player])
  {
    var b' := Place(b, e, spawn).value;
    var roster' := roster[name := player];
    assert b'.index.Keys == b.index.Keys + {e};
    forall e' | e' in b'.index
      ensures e'.owner in roster' && e'.number in roster'[e'.owner].engines
    {
    }
    forall o', n | o' in roster' && n in roster'[o'].engines
      ensures EngineRef(o', n) in b'.index
    {
      if o' != name || n != e.number {
        assert n in roster[o'].engines;
      }
    }
  }

  /** The part particular to an engine action keeps a valid game valid. */
  lemma SpecificKeepsValid(g: Game, a: Action)
    requires Valid(g) && !a.BuyAction? && a.engine in g.board.index
    requires Specific(g, a, g.board.index[a.engine]).Ok?
    ensures Valid(Specific(g, a, g.board.index[a.engine]).value)
  {
    var e := a.engine;
    match a
    case MoveAction(_, destination) => MoveKeepsValid(g, e, destination);
    case ExtinguishAction(_, target) => ExtinguishKeepsValid(g, e, target, g.board.index[e]);
    case RefillAction(_) => RefillKeepsValid(g, e, g.board.index[e]);
  }

  /** A successful engine action is its particular part followed by spending a point. */
  lemma PerformUnfolds(g: Game, a: Action)
    requires !a.BuyAction? && Perform(g, a).Ok?
    ensures a.engine in g.board.index && a.engine in g.turn.points && g.turn.points[a.engine] > 0
    ensures Specific(g, a, g.board.index[a.engine]).Ok?
    ensures var g' := Specific(g, a, g.board.index[a.engine]).value;
      var t := T.UsePoint(g'.turn, a.engine);
      Perform(g, a).value == g'.(turn := if MarksStationary(a) then T.MarkStationary(t, a.engine) else t)
  {
  }

  /** Spending a point of an engine that had one keeps a valid game valid. */
  lemma SpendKeepsValid(g: Game, e: EngineRef, pin: bool)
    requires Valid(g) && e in g.turn.points && g.turn.points[e] > 0
    ensures var t := T.UsePoint(g.turn, e);
      Valid(g.(turn := if pin then T.MarkStationary(t, e) else t))
  {
    var t := T.UsePoint(g.turn, e);
    TurnKeepsValid(g, if pin then T.MarkStationary(t, e) else t);
  }

  /** Every action that succeeds on a valid game leaves it valid: the board
      and the rosters still agree, tanks stay within capacity and action
      points stay between zero and three. */
  lemma PerformKeepsValid(g: Game, a: Action)
    requires Valid(g) && Perform(g, a).Ok?
    ensures Valid(Perform(g, a).value)
  {
    if a.BuyAction? {
      BuyKeepsValid(g, a.spawn);
    } else {
      PerformUnfolds(g, a);
      SpecificKeepsValid(g, a);
      SpendKeepsValid(Specific(g, a, g.board.index[a.engine]).value, a.engine, MarksStationary(a));
    }
  }
}
