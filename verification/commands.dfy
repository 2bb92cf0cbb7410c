/** The game commands of the fire-breaker shell, without their console
    output: the gates every action command passes first, the reading of
    engine ids and coordinates, ending a turn and rolling the dice for the
    fire. A command that is refused leaves the game as it was. */
module Commands {
  import opened Wrappers
  import opened Geometry
  import opened FireEngines
  import opened Failures
  import opened Games
  import opened Actions
  import D = Decimal
  import P = Players

  /** Why a command is refused: the state of the game or its rules forbid it
      (a `SemanticException`), its arguments do not read (a parsing or
      mapping error), or a runtime error the program does not expect. */
  datatype Rejection = SemanticError | ArgumentError | Crash

  /** What a command that goes through reports: plain success, "lose", or the
      name of the player now in turn. */
  datatype Reply = Done | Lose | Announce(name: string)

  /** The action commands as typed: engine ids and coordinates still unread. */
  datatype Request =
    | MoveRequest(engine: string, x: int, y: int)
    | ExtinguishRequest(engine: string, x: int, y: int)
    | RefillRequest(engine: string)
    | BuyRequest(x: int, y: int)

  datatype Command = ActionCommand(request: Request) | TurnCommand | FireToRollCommand(roll: int)

  /** `FireEngineMapper`: the engine an id names. The id must have the right
      shape, its letter must be the name of the player in turn, and that
      player must still hold an engine with that number. */
  function ResolveEngine(g: Game, id: string): (r: Result<EngineRef, Rejection>)
    ensures !IsEngineId(id) ==> r == Err(ArgumentError)
    ensures IsEngineId(id) && id[..1] != g.turn.player ==> r == Err(ArgumentError)
    ensures r.Ok? ==> IsEngineId(id) && Id(r.value) == id
    ensures r.Ok? ==> r.value.owner == g.turn.player && g.turn.player in g.roster
    ensures r.Ok? ==> r.value.number in g.roster[g.turn.player].engines
    ensures r.Ok? <==> IsEngineId(id) && id[..1] == g.turn.player && g.turn.player in g.roster
                       && D.Value(id[1..]) in g.roster[g.turn.player].engines
  {
    if !IsEngineId(id) then Err(ArgumentError)
    else if id[..1] != g.turn.player then Err(ArgumentError)
    else if g.turn.player !in g.roster then Err(Crash)
    else
      var n := D.Value(id[1..]);
      match P.GetEngine(g.roster[g.turn.player], n)
      case None => Err(ArgumentError)
      case Some(_) =>
        D.ShowOfValue(id[1..]);
        assert id == id[..1] + id[1..];
        Ok(EngineRef(g.turn.player, n))
  }

  /** The id of every engine that the player in turn holds, under a
      one-letter name A to D, reads back as that engine. */
  lemma ResolveId(g: Game, e: EngineRef)
    requires e.owner == g.turn.player && |e.owner| == 1 && IsPlayerLetter(e.owner[0])
    requires e.owner in g.roster && e.number in g.roster[e.owner].engines
    ensures ResolveEngine(g, Id(e)) == Ok(e)
  {
    var id := Id(e);
    assert id[1..] == D.Show(e.number);
    D.ValueOfShow(e.number);
  }

  /** In a valid game an engine an id resolves to is one the player in turn
      holds, and it stands on the board. */
  lemma ResolvedIsOnBoard(g: Game, id: string)
    requires Valid(g) && ResolveEngine(g, id).Ok?
    ensures var e := ResolveEngine(g, id).value;
      e in P.Engines(g.roster[g.turn.player]) && e in g.board.index
  {
  }

  /** Both coordinate arguments lie on the board: x is checked against the
      height and y against the width, each on its own. */
  predicate OnBoard(g: Game, x: int, y: int)
  {
    InBounds(g.board.dims, x, 0) && InBounds(g.board.dims, 0, y)
  }

  /** The action a request asks for. Its engine is always one the player in
      turn holds, and its coordinates are on the board. */
  function ActionOf(g: Game, q: Request): (r: Result<Action, Rejection>)
    ensures r.Ok? && !r.value.BuyAction? ==>
      r.value.engine.owner == g.turn.player && g.turn.player in g.roster
      && r.value.engine.number in g.roster[g.turn.player].engines
    ensures r.Ok? && r.value.MoveAction? ==>
      q.MoveRequest? && OnBoard(g, q.x, q.y) && r.value.destination == Unbounded(q.x, q.y)
    ensures r.Ok? && r.value.ExtinguishAction? ==>
      q.ExtinguishRequest? && OnBoard(g, q.x, q.y) && r.value.target == Unbounded(q.x, q.y)
    ensures r.Ok? && r.value.BuyAction? ==>
      q.BuyRequest? && OnBoard(g, q.x, q.y) && r.value.spawn == Unbounded(q.x, q.y)
    ensures r.Ok? && r.value.RefillAction? ==> q.RefillRequest?
    ensures !q.RefillRequest? && !OnBoard(g, q.x, q.y) ==> r.Err?
    ensures q.BuyRequest? ==> (r.Ok? <==> OnBoard(g, q.x, q.y))
    ensures !q.BuyRequest? ==>
      (r.Ok? <==> ResolveEngine(g, q.engine).Ok? && (q.RefillRequest? || OnBoard(g, q.x, q.y)))
    ensures r.Ok? && !q.BuyRequest? ==> r.value.engine == ResolveEngine(g, q.engine).value
  {
    match q
    case MoveRequest(id, x, y) =>
      var e :- ResolveEngine(g, id);
      if OnBoard(g, x, y) then Ok(MoveAction(e, Unbounded(x, y))) else Err(ArgumentError)
    case ExtinguishRequest(id, x, y) =>
      var e :- ResolveEngine(g, id);
      if OnBoard(g, x, y) then Ok(ExtinguishAction(e, Unbounded(x, y))) else Err(ArgumentError)
    case RefillRequest(id) =>
      var e :- ResolveEngine(g, id);
      Ok(RefillAction(e))
    case BuyRequest(x, y) =>
      if OnBoard(g, x, y) then Ok(BuyAction(Unbounded(x, y))) else Err(ArgumentError)
  }

  /** The exception an action failure surfaces as: a refused action is a
      semantic error, anything else is unexpected. */
  function Surface(f: Failure): (r: Rejection)
    ensures r == SemanticError <==> f == Illegal
  {
    match f
    case Illegal => SemanticError
    case Fault => Crash
  }

  /** The gates of every action command, in order: not once the game is
      over, and not while the fire is due to spread. */
  function Gate(g: Game): (r: Option<Rejection>)
    ensures r.Some? <==> IsOver(g) || g.pending
    ensures r.Some? ==> r.value == SemanticError
  {
    if IsOver(g) then Some(SemanticError)
    else if g.pending then Some(SemanticError)
    else None
  }

  /** An action command: the gates, then reading the arguments, then the action. */
  function RunAction(g: Game, q: Request): (r: Result<Game, Rejection>)
    ensures IsOver(g) || g.pending ==> r == Err(SemanticError)
    ensures r.Ok? <==> !IsOver(g) && !g.pending && ActionOf(g, q).Ok? && Perform(g, ActionOf(g, q).value).Ok?
    ensures r.Ok? ==> r.value == Perform(g, ActionOf(g, q).value).value
    ensures !IsOver(g) && !g.pending && ActionOf(g, q).Ok? && Perform(g, ActionOf(g, q).value) == Err(Illegal)
      ==> r == Err(SemanticError)
  {
    if Gate(g).Some? then Err(Gate(g).value)
    else
      var a :- ActionOf(g, q);
      match Perform(g, a)
      case Ok(g') => Ok(g')
      case Err(f) => Err(Surface(f))
  }

  /** `turn`: behind the same gates, the next player's turn begins, and that
      player is announced. */
  function RunTurn(g: Game): (r: Result<(Game, Reply), Rejection>)
    ensures IsOver(g) || g.pending ==> r == Err(SemanticError)
    ensures r.Ok? ==> NextTurn(g).Ok? && r.value.0 == NextTurn(g).value
    ensures r.Ok? ==> r.value.1 == Announce(r.value.0.turn.player)
    ensures !IsOver(g) && !g.pending && NextTurn(g).Ok? ==> r.Ok?
  {
    if Gate(g).Some? then Err(Gate(g).value)
    else
      match NextTurn(g)
      case Ok(g') => Ok((g', Announce(g'.turn.player)))
      case Err(_) => Err(Crash)
  }

  /** The wind a roll of the die brings: one gives wind from every side, six
      none, and two to five one orientation each, in the order North, East,
      South, West. */
  function WindFromDiceRoll(roll: int): (r: set<Orientation>)
    requires 1 <= roll <= 6
    ensures roll == 1 ==> North in r && East in r && South in r && West in r
    ensures roll == 6 <==> r == {}
    ensures roll == 2 ==> r == {North}
    ensures roll == 3 ==> r == {East}
    ensures roll == 4 ==> r == {South}
    ensures roll == 5 ==> r == {West}
  {
    if roll == 1 then
      {North, East, South, West}
    else if roll == 6 then {}
    else {AllOrientations()[roll - 2]}
  }

  /** Different rolls bring different winds. */
  lemma WindInjective(a: int, b: int)
    requires 1 <= a <= 6 && 1 <= b <= 6
    ensures WindFromDiceRoll(a) == WindFromDiceRoll(b) ==> a == b
  {
    if WindFromDiceRoll(a) == WindFromDiceRoll(b) {
      var w := WindFromDiceRoll(a);
      if a == 1 || b == 1 {
        assert North in w && East in w;
      } else if a != 6 && b != 6 {
        assert AllOrientations()[a - 2] in WindFromDiceRoll(b);
      }
    }
  }

  /** How a fire spread is reported: "lose" when nobody is left, success when
      nobody dropped out, and otherwise the player now in turn. */
  function Outcome(before: Game, after: Game): (r: Reply)
    ensures r == Lose <==> IsLost(after)
    ensures r == Done <==> !IsLost(after) && |after.players| == |before.players|
    ensures r.Announce? ==> r.name == after.turn.player && |after.players| != |before.players|
  {
    if IsLost(after) then Lose
    else if |before.players| == |after.players| then Done
    else Announce(after.turn.player)
  }

  /** `fire-to-roll`: only once the game is not over and fire is due; the roll
      must be one to six; then the fire spreads with the wind it brings. */
  function RunFireToRoll(g: Game, roll: int): (r: Result<(Game, Reply), Rejection>)
    ensures IsOver(g) || !g.pending ==> r == Err(SemanticError)
    ensures !IsOver(g) && g.pending && !(1 <= roll < 7) ==> r == Err(ArgumentError)
    ensures r.Ok? ==> 1 <= roll <= 6 && SpreadFire(g, WindFromDiceRoll(roll)).Ok?
    ensures r.Ok? ==> r.value.0 == SpreadFire(g, WindFromDiceRoll(roll)).value
    ensures r.Ok? ==> r.value.1 == Outcome(g, r.value.0)
    ensures !IsOver(g) && g.pending && 1 <= roll <= 6 ==>
      (r.Ok? <==> SpreadFire(g, WindFromDiceRoll(roll)).Ok?)
      && (SpreadFire(g, WindFromDiceRoll(roll)).Err? ==> r == Err(Crash))
  {
    if IsOver(g) then Err(SemanticError)
    else if !g.pending then Err(SemanticError)
    else if !(1 <= roll < 7) then Err(ArgumentError)
    else
      match SpreadFire(g, WindFromDiceRoll(roll))
      case Ok(g') => Ok((g', Outcome(g, g')))
      case Err(_) => Err(Crash)
  }

  /** One command against the game: the game afterwards and the reply. */
  function Step(g: Game, c: Command): (r: (Game, Result<Reply, Rejection>))
    ensures r.1.Err? ==> r.0 == g
    ensures IsOver(g) ==> r.1 == Err(SemanticError)
    ensures g.pending && !c.FireToRollCommand? ==> r.1 == Err(SemanticError)
    ensures !g.pending && c.FireToRollCommand? ==> r.1 == Err(SemanticError)
  {
    match c
    case ActionCommand(q) =>
      (match RunAction(g, q)
       case Ok(g') => (g', Ok(Done))
       case Err(x) => (g, Err(x)))
    case TurnCommand =>
      (match RunTurn(g)
       case Ok((g', reply)) => (g', Ok(reply))
       case Err(x) => (g, Err(x)))
    case FireToRollCommand(roll) =>
      (match RunFireToRoll(g, roll)
       case Ok((g', reply)) => (g', Ok(reply))
       case Err(x) => (g, Err(x)))
  }

  /** Every command keeps a valid game valid, and in a valid game ending the
      turn and spreading the fire never fail unexpectedly. */
  lemma StepKeepsValid(g: Game, c: Command)
    requires Valid(g)
    ensures Valid(Step(g, c).0)
    ensures c.TurnCommand? || c.FireToRollCommand? ==> Step(g, c).1 != Err(Crash)
  {
    match c
    case ActionCommand(q) =>
      if RunAction(g, q).Ok? {
        PerformKeepsValid(g, ActionOf(g, q).value);
      }
    case TurnCommand =>
      NextTurnKeepsValid(g);
    case FireToRollCommand(roll) =>
      if 1 <= roll <= 6 {
        SpreadFireKeepsValid(g, WindFromDiceRoll(roll));
      }
  }
}
