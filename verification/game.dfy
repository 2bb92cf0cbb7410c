/** A game of fire-breaker: the board, the players still in the game in turn
    order, the round robin of turns, every player's engine roster and
    reputation, the current turn and whether fire is due to spread.
    Players are identified by name; the roster maps each name to the player. */
module Games {
  import opened Wrappers
  import opened Geometry
  import opened FireEngines
  import opened Forests
  import opened Boards
  import opened Failures
  import P = Players
  import T = Turns
  import C = Cycles

  /** After each round the turn order is rotated one place to the left. */
  const TurnRotation: int := -1

  datatype Game = Game(
    board: Board,
    players: seq<string>,
    turns: C.Cycle<string>,
    roster: map<string, P.Player>,
    reputation: map<string, int>,
    turn: T.Turn,
    pending: bool)

  function Names(ps: seq<P.Player>): (r: seq<string>)
    ensures |r| == |ps| && forall i | 0 <= i < |ps| :: r[i] == ps[i].name
  {
    seq(|ps|, i requires 0 <= i < |ps| => ps[i].name)
  }

  predicate DistinctNames(ps: seq<P.Player>)
  {
    forall i, j | 0 <= i < j < |ps| :: ps[i].name != ps[j].name
  }

  /** Every player under their own name. */
  function RosterOf(ps: seq<P.Player>): (r: map<string, P.Player>)
    requires DistinctNames(ps)
    ensures forall i | 0 <= i < |ps| :: ps[i].name in r && r[ps[i].name] == ps[i]
    ensures forall n | n in r :: r[n].name == n && n in Names(ps)
  {
    map i | 0 <= i < |ps| :: ps[i].name := ps[i]
  }

  /** The board and the rosters agree on which engines exist: every engine on
      the board is held by its owner, and every held engine is on the board. */
  ghost predicate HoldingsAgree(b: Board, roster: map<string, P.Player>)
  {
    (forall e | e in b.index :: e.owner in roster && e.number in roster[e.owner].engines)
    && (forall o, n | o in roster && n in roster[o].engines :: EngineRef(o, n) in b.index)
  }

  /** What every game keeps true between commands. */
  ghost predicate Valid(g: Game)
  {
    Consistent(g.board)
    && HoldingsAgree(g.board, g.roster)
    && (forall o | o in g.roster :: g.roster[o].name == o && DigitFree(o) && P.Valid(g.roster[o]))
    && (forall e | e in g.turn.points :: 0 <= g.turn.points[e] <= T.InitialActionPoints)
    && (forall i | 0 <= i < |g.players| :: g.players[i] in g.roster)
    && (forall i | 0 <= i < |g.turns.elements| :: g.turns.elements[i] in g.roster)
    && C.Current(g.turns) == Some(g.turn.player)
  }

  /** A game over `ps` in this order on `board`: nobody has reputation yet and
      the first player is in turn. Without players there is nobody to start,
      and the game cannot be set up. */
  function NewGame(ps: seq<P.Player>, board: Board): (r: Result<Game, Failure>)
    requires DistinctNames(ps)
    ensures r.Err? <==> ps == []
    ensures r.Ok? ==> r.value.board == board && r.value.players == Names(ps) && !r.value.pending
    ensures r.Ok? ==> r.value.turns == C.Of(Names(ps), TurnRotation)
    ensures r.Ok? ==> r.value.turn == T.NewTurn(ps[0]) && r.value.roster == RosterOf(ps)
    ensures r.Ok? ==> forall i | 0 <= i < |ps| :: Reputation(r.value, ps[i].name) == Ok(0)
  {
    if ps == [] then Err(Fault)
    else
      var names := Names(ps);
      Ok(Game(board, names, C.Of(names, TurnRotation), RosterOf(ps), map n | n in names :: 0, T.NewTurn(ps[0]), false))
  }

  /** A game set up on a consistent board whose engines are exactly the
      players' engines is valid. */
  lemma NewGameValid(ps: seq<P.Player>, board: Board)
    requires DistinctNames(ps) && ps != []
    requires Consistent(board) && HoldingsAgree(board, RosterOf(ps))
    requires forall i | 0 <= i < |ps| :: DigitFree(ps[i].name) && P.Valid(ps[i])
    ensures Valid(NewGame(ps, board).value)
  {
    var g := NewGame(ps, board).value;
    assert C.Current(g.turns) == Some(ps[0].name);
  }

  /** Validity does not look at reputation. */
  lemma ValidIgnoresReputation(g: Game, reputation: map<string, int>)
    requires Valid(g)
    ensures Valid(g.(reputation := reputation))
  {
  }

  /** `getReputation`: unboxing the reputation of an unknown player fails. */
  function Reputation(g: Game, name: string): (r: Result<int, Failure>)
    ensures r.Ok? <==> name in g.reputation
    ensures r.Ok? ==> r.value == g.reputation[name]
  {
    if name in g.reputation then Ok(g.reputation[name]) else Err(Fault)
  }

  /** `computeIfPresent`: add `delta` to a known player's reputation; an
      unknown player gains nothing and stays unknown. */
  function UpdateReputation(g: Game, name: string, delta: int): (r: Game)
    ensures r.reputation.Keys == g.reputation.Keys
    ensures name in g.reputation ==> r.reputation[name] == g.reputation[name] + delta
    ensures forall n | n in g.reputation && n != name :: r.reputation[n] == g.reputation[n]
    ensures r.(reputation := g.reputation) == g
  {
    if name in g.reputation then g.(reputation := g.reputation[name := g.reputation[name] + delta]) else g
  }

  /** Two updates of one player's reputation add up. */
  lemma UpdatesAdd(g: Game, name: string, a: int, b: int)
    ensures UpdateReputation(UpdateReputation(g, name, a), name, b) == UpdateReputation(g, name, a + b)
  {
  }

  /** End the current turn: the round robin moves on and the next player's turn
      begins with the engines that player holds now. Fire is due exactly when
      the cursor is back at the start of the order. */
  function NextTurn(g: Game): (r: Result<Game, Failure>)
    ensures r.Err? <==> C.Current(C.Advance(g.turns)).None? || C.Current(C.Advance(g.turns)).value !in g.roster
    ensures r.Ok? ==> r.value.turns == C.Advance(g.turns)
    ensures r.Ok? ==> (r.value.pending <==> r.value.turns.position == 0)
    ensures r.Ok? ==> r.value.turn == T.NewTurn(g.roster[C.Current(r.value.turns).value])
    ensures r.Ok? ==> r.value.board == g.board && r.value.players == g.players
    ensures r.Ok? ==> r.value.roster == g.roster && r.value.reputation == g.reputation
  {
    var turns := C.Advance(g.turns);
    match C.Current(turns)
    case None => Err(Fault)
    case Some(name) =>
      if name in g.roster then Ok(g.(turns := turns, turn := T.NewTurn(g.roster[name]), pending := turns.position == 0))
      else Err(Fault)
  }

  /** In a valid game the next turn always begins, and the game stays valid. */
  lemma NextTurnKeepsValid(g: Game)
    requires Valid(g)
    ensures NextTurn(g).Ok? && Valid(NextTurn(g).value)
  {
    C.AdvanceWithin(g.turns, g.roster.Keys);
  }

  /** Fire sits at `p` and burns strongly. */
  predicate StrongAt(fields: map<Point, Field>, p: Point)
  {
    IsForestAt(fields, p) && fields[p].forest.state == StrongBurn
  }

  /** The cells the wind carries fire into from strongly burning forests:
      each neighbour, in a wind direction, of a strong fire's position. */
  function Downwind(b: Board, wind: set<Orientation>): set<Point>
  {
    set p, o | p in b.fields && o in wind && StrongAt(b.fields, p) && Adjacent(o, FieldPosition(b.dims, p)).Some?
      :: Adjacent(o, FieldPosition(b.dims, p)).value.At()
  }

  /** The cell one step against the wind `o` from `q`. */
  function Upwind(q: Point, o: Orientation): Point
  {
    Point(q.x - Vector(o).0, q.y - Vector(o).1)
  }

  /** A cell is downwind exactly when it lies on the board and one of the wind
      directions blows into it from a strong fire. */
  lemma DownwindIff(b: Board, wind: set<Orientation>, q: Point)
    ensures q in Downwind(b, wind) <==>
      InBounds(b.dims, q.x, q.y) && exists o :: o in wind && StrongAt(b.fields, Upwind(q, o))
  {
    if q in Downwind(b, wind) {
      var p, o :| p in b.fields && o in wind && StrongAt(b.fields, p) && Adjacent(o, FieldPosition(b.dims, p)).Some?
        && Adjacent(o, FieldPosition(b.dims, p)).value.At() == q;
      StepBack(o, b.dims, p, q);
    }
    if InBounds(b.dims, q.x, q.y) && exists o :: o in wind && StrongAt(b.fields, Upwind(q, o)) {
      var o :| o in wind && StrongAt(b.fields, Upwind(q, o));
      DownwindFrom(b, wind, q, o);
    }
  }

  /** The wind carries fire from `p` into `q` only from one step upwind of
      `q`, and only onto the board. */
  lemma StepBack(o: Orientation, dims: Dimensions, p: Point, q: Point)
    requires Adjacent(o, FieldPosition(dims, p)).Some? && Adjacent(o, FieldPosition(dims, p)).value.At() == q
    ensures Upwind(q, o) == p && InBounds(dims, q.x, q.y)
  {
  }

  /** A cell on the board one step downwind of a strong fire is downwind. */
  lemma DownwindFrom(b: Board, wind: set<Orientation>, q: Point, o: Orientation)
    requires InBounds(b.dims, q.x, q.y) && o in wind && StrongAt(b.fields, Upwind(q, o))
    ensures q in Downwind(b, wind)
  {
    var p := Upwind(q, o);
    assert Adjacent(o, FieldPosition(b.dims, p)) == Some(Position(Some(b.dims), q.x, q.y));
  }

  /** The cells whose forests burn one step more: with wind, every light fire
      and every cell downwind of a strong fire; without wind, none. */
  function Targets(b: Board, wind: set<Orientation>): set<Point>
  {
    if wind == {} then {}
    else Downwind(b, wind) + set p | p in b.fields && IsForestAt(b.fields, p) && b.fields[p].forest.state == LightBurn
  }

  /** Every forest on a target cell burns one step more, once; every other
      field is left as it was. Targets are chosen before anything changes. */
  function Escalate(b: Board, targets: set<Point>): (r: Board)
    ensures r.dims == b.dims && r.stations == b.stations && r.index == b.index
    ensures r.fields.Keys == b.fields.Keys
  {
    b.(fields := map p | p in b.fields ::
      if p in targets && b.fields[p].ForestField? then ForestField(IncreaseBurning(b.fields[p].forest)) else b.fields[p])
  }

  /** Whether spreading fire with `wind` makes the forest at `p` burn one
      step more: there is wind, and the forest burns lightly or a wind
      direction blows into it, on the board, from a strong fire. */
  ghost predicate Rises(b: Board, wind: set<Orientation>, p: Point)
    requires IsForestAt(b.fields, p)
  {
    wind != {}
    && (b.fields[p].forest.state == LightBurn
        || (InBounds(b.dims, p.x, p.y) && exists o :: o in wind && StrongAt(b.fields, Upwind(p, o))))
  }

  /** What spreading fire does to one forest: with wind, it rises one step if
      it burns lightly or a wind direction blows into it from a strong fire,
      and otherwise stays; without wind nothing changes. Its occupants stay,
      and fields other than forests are never touched. */
  lemma EscalateField(b: Board, wind: set<Orientation>, p: Point)
    requires p in b.fields
    ensures var r := Escalate(b, Targets(b, wind));
      && (!b.fields[p].ForestField? ==> r.fields[p] == b.fields[p])
      && (b.fields[p].ForestField? ==>
            var f := b.fields[p].forest;
            r.fields[p].ForestField? && r.fields[p].forest.engines == f.engines
            && (if Rises(b, wind, p)
                then r.fields[p].forest.state == Successor(f.state)
                else r.fields[p].forest.state == f.state))
  {
    DownwindIff(b, wind, p);
  }

  /** Spreading fire leaves a consistent board consistent: nobody moves. */
  lemma EscalateKeepsConsistent(b: Board, targets: set<Point>)
    requires Consistent(b)
    ensures Consistent(Escalate(b, targets))
  {
    var r := Escalate(b, targets);
    forall p, e | Hosts(r.fields, p, e)
      ensures Hosts(b.fields, p, e)
    {
    }
    forall e | e in r.index
      ensures Hosts(r.fields, r.index[e].At(), e)
    {
      assert Hosts(b.fields, b.index[e].At(), e);
    }
  }

  /** The engines standing in strongly burning forests. */
  function Burnt(b: Board): (s: set<EngineRef>)
    ensures forall p, e | StrongAt(b.fields, p) && e in b.fields[p].forest.engines.Values :: e in s
    ensures forall e | e in s :: exists p :: StrongAt(b.fields, p) && e in b.fields[p].forest.engines.Values
  {
    set p, e | p in b.fields && StrongAt(b.fields, p) && e in b.fields[p].forest.engines.Values :: e
  }

  /** The board once every burnt engine has left it: strong fires are empty
      and the index no longer knows the burnt engines. */
  function ClearBurnt(b: Board): (r: Board)
    ensures r.dims == b.dims && r.stations == b.stations && r.fields.Keys == b.fields.Keys
    ensures r.index == b.index - Burnt(b)
    ensures forall p | p in b.fields ::
      && r.fields[p].ForestField? == b.fields[p].ForestField?
      && (IsForestAt(b.fields, p) ==> r.fields[p].forest.state == b.fields[p].forest.state)
      && (StrongAt(b.fields, p) ==> r.fields[p].forest.engines == map[])
      && (!StrongAt(b.fields, p) ==> r.fields[p] == b.fields[p])
  {
    b.(index := b.index - Burnt(b),
       fields := map p | p in b.fields ::
         if StrongAt(b.fields, p) then ForestField(b.fields[p].forest.(engines := map[])) else b.fields[p])
  }

  /** Every owner gives up the numbers of their burnt engines. */
  function Forfeit(roster: map<string, P.Player>, burnt: set<EngineRef>): (r: map<string, P.Player>)
    ensures r.Keys == roster.Keys
    ensures forall o | o in roster :: r[o].name == roster[o].name && r[o].next == roster[o].next
    ensures forall o, n | o in roster :: n in r[o].engines <==> n in roster[o].engines && EngineRef(o, n) !in burnt
    ensures forall o, n | o in roster && n in r[o].engines :: r[o].engines[n] == roster[o].engines[n]
  {
    map o | o in roster ::
      roster[o].(engines := roster[o].engines - (set e | e in burnt && e.owner == o :: e.number))
  }

  /** The game once burnt engines have left the board and their owners, and
      the players left without engines have dropped out of the order and are
      marked in the round robin. */
  function Purge(g: Game): (r: Game)
    ensures r.board == ClearBurnt(g.board) && r.roster == Forfeit(g.roster, Burnt(g.board))
    ensures r.turns.elements == g.turns.elements && r.turns.position == g.turns.position
    ensures r.reputation == g.reputation && r.turn == g.turn && r.pending == g.pending
    ensures forall n :: n in r.turns.eliminations <==> n in g.players && n in r.roster && |r.roster[n].engines| == 0
    ensures forall i | 0 <= i < |r.players| :: r.players[i] in g.players && r.players[i] !in r.turns.eliminations
  {
    var roster := Forfeit(g.roster, Burnt(g.board));
    var out := set n | n in g.players && n in roster && |roster[n].engines| == 0;
    g.(board := ClearBurnt(g.board), roster := roster,
       players := C.RemoveAll(g.players, out), turns := C.Eliminate(g.turns, out))
  }

  /** `eliminateBurntFireEngines`: purge the game; if the player in turn
      dropped out, the next turn begins. */
  function EliminateBurnt(g: Game): (r: Result<Game, Failure>)
    ensures r.Ok? ==> r.value.board == ClearBurnt(g.board) && r.value.roster == Forfeit(g.roster, Burnt(g.board))
    ensures r.Ok? ==> r.value.reputation == g.reputation && r.value.players == Purge(g).players
    ensures var roster := Forfeit(g.roster, Burnt(g.board)); var p := g.turn.player;
      if p in g.players && p in roster && |roster[p].engines| == 0 then r == NextTurn(Purge(g)) else r == Ok(Purge(g))
  {
    var g' := Purge(g);
    if g.turn.player in g'.turns.eliminations then NextTurn(g') else Ok(g')
  }

  /** `spreadFire`: fire is no longer due; with wind the fire escalates, then
      burnt engines are eliminated. */
  function SpreadFire(g: Game, wind: set<Orientation>): Result<Game, Failure>
  {
    EliminateBurnt(g.(pending := false, board := Escalate(g.board, Targets(g.board, wind))))
  }

  /** No engine stands in a strong fire. */
  ghost predicate NoneBurning(b: Board)
  {
    forall e | e in b.index :: !StrongAt(b.fields, b.index[e].At())
  }

  /** Every player still in the game holds an engine. */
  predicate AllEquipped(g: Game)
  {
    forall i | 0 <= i < |g.players| :: g.players[i] in g.roster && |g.roster[g.players[i]].engines| > 0
  }

  /** Clearing burnt engines keeps the board consistent and in step with the
      rosters, and leaves no engine in a strong fire. */
  lemma ClearBurntKeepsValid(b: Board, roster: map<string, P.Player>)
    requires Consistent(b) && HoldingsAgree(b, roster)
    ensures var b' := ClearBurnt(b);
      Consistent(b') && HoldingsAgree(b', Forfeit(roster, Burnt(b))) && NoneBurning(b')
  {
    ClearBurntConsistent(b);
    ClearBurntHoldings(b, roster);
  }

  /** On a consistent board the burnt engines are exactly the indexed engines
      whose cell burns strongly. */
  lemma BurntIffIndexedInFire(b: Board, e: EngineRef)
    requires Consistent(b)
    ensures e in Burnt(b) <==> e in b.index && StrongAt(b.fields, b.index[e].At())
  {
    if e in Burnt(b) {
      var q :| StrongAt(b.fields, q) && e in b.fields[q].forest.engines.Values;
      var id :| id in b.fields[q].forest.engines && b.fields[q].forest.engines[id] == e;
      assert Hosts(b.fields, q, e);
    }
    if e in b.index && StrongAt(b.fields, b.index[e].At()) {
      var at := b.index[e].At();
      assert Hosts(b.fields, at, e);
      assert b.fields[at].forest.engines[Id(e)] == e;
    }
  }

  lemma ClearBurntConsistent(b: Board)
    requires Consistent(b)
    ensures Consistent(ClearBurnt(b)) && NoneBurning(ClearBurnt(b))
  {
    var b' := ClearBurnt(b);
    forall p, e | Hosts(b'.fields, p, e)
      ensures e in b'.index && b'.index[e].At() == p
    {
      assert Hosts(b.fields, p, e);
      BurntIffIndexedInFire(b, e);
    }
    forall e | e in b'.index
      ensures Hosts(b'.fields, b'.index[e].At(), e) && !StrongAt(b'.fields, b'.index[e].At())
    {
      BurntIffIndexedInFire(b, e);
      assert Hosts(b.fields, b.index[e].At(), e);
    }
  }

  lemma ClearBurntHoldings(b: Board, roster: map<string, P.Player>)
    requires HoldingsAgree(b, roster)
    ensures HoldingsAgree(ClearBurnt(b), Forfeit(roster, Burnt(b)))
  {
  }

  /** Spreading fire keeps a valid game valid; afterwards no engine is left in
      a strong fire and every player still in the game holds an engine. */
  lemma SpreadFireKeepsValid(g: Game, wind: set<Orientation>)
    requires Valid(g)
    ensures SpreadFire(g, wind).Ok?
    ensures var r := SpreadFire(g, wind).value;
      Valid(r) && NoneBurning(r.board) && AllEquipped(r) && r.reputation == g.reputation
  {
    var b := Escalate(g.board, Targets(g.board, wind));
    EscalateKeepsConsistent(g.board, Targets(g.board, wind));
    var g1 := g.(pending := false, board := b);
    assert Valid(g1);
    EliminateBurntKeepsValid(g1);
  }

  /** Purging keeps a valid game valid, leaves nobody in a strong fire and
      nobody in the order without an engine. */
  lemma PurgeKeepsValid(g: Game)
    requires Valid(g)
    ensures var r := Purge(g); Valid(r) && NoneBurning(r.board) && AllEquipped(r)
  {
    var r := Purge(g);
    ClearBurntKeepsValid(g.board, g.roster);
    ForfeitKeepsPlayers(g.roster, Burnt(g.board));
    assert C.Current(r.turns) == C.Current(g.turns);
    forall i | 0 <= i < |r.players|
      ensures r.players[i] in r.roster && |r.roster[r.players[i]].engines| > 0
    {
      assert r.players[i] in g.players && r.players[i] !in r.turns.eliminations;
    }
  }

  /** Losing engines keeps every player valid and under their own name. */
  lemma ForfeitKeepsPlayers(roster: map<string, P.Player>, burnt: set<EngineRef>)
    requires forall o | o in roster :: roster[o].name == o && DigitFree(o) && P.Valid(roster[o])
    ensures var r := Forfeit(roster, burnt);
      forall o | o in r :: r[o].name == o && DigitFree(o) && P.Valid(r[o])
  {
    var r := Forfeit(roster, burnt);
    forall o | o in r
      ensures r[o].name == o && DigitFree(o) && P.Valid(r[o])
    {
      assert forall n | n in r[o].engines :: n in roster[o].engines;
    }
  }

  lemma EliminateBurntKeepsValid(g: Game)
    requires Valid(g)
    ensures EliminateBurnt(g).Ok?
    ensures var r := EliminateBurnt(g).value;
      Valid(r) && NoneBurning(r.board) && AllEquipped(r) && r.reputation == g.reputation
  {
    PurgeKeepsValid(g);
    if g.turn.player in Purge(g).turns.eliminations {
      NextTurnKeepsValid(Purge(g));
    }
  }

  /** All players are out: every engine has burnt. */
  predicate IsLost(g: Game) { g.players == [] }

  /** No forest burns any more. */
  predicate IsWon(g: Game)
  {
    forall p | p in g.board.fields && IsForestAt(g.board.fields, p) :: !IsBurning(g.board.fields[p].forest.state)
  }

  predicate IsOver(g: Game) { IsLost(g) || IsWon(g) }

  /** Spreading fire changes no field's kind, and turns each forest's state
      into the next one exactly when the forest rises; burnt engines leave
      but the fire stays. */
  lemma SpreadFireBurns(g: Game, wind: set<Orientation>)
    requires SpreadFire(g, wind).Ok?
    ensures var r := SpreadFire(g, wind).value;
      && r.board.fields.Keys == g.board.fields.Keys && r.reputation == g.reputation
      && forall p | p in g.board.fields ::
           && r.board.fields[p].ForestField? == g.board.fields[p].ForestField?
           && (IsForestAt(g.board.fields, p) ==>
                 r.board.fields[p].forest.state ==
                   if Rises(g.board, wind, p) then Successor(g.board.fields[p].forest.state)
                   else g.board.fields[p].forest.state)
  {
    var b := Escalate(g.board, Targets(g.board, wind));
    var r := SpreadFire(g, wind).value;
    assert r.board == ClearBurnt(b);
    forall p | p in g.board.fields
      ensures r.board.fields[p].ForestField? == g.board.fields[p].ForestField?
      ensures IsForestAt(g.board.fields, p) ==>
        r.board.fields[p].forest.state ==
          if Rises(g.board, wind, p) then Successor(g.board.fields[p].forest.state)
          else g.board.fields[p].forest.state
    {
      EscalateField(g.board, wind, p);
    }
  }

  /** A won game stays won when fire spreads: nothing burns, so nothing rises. */
  lemma WonStaysWon(g: Game, wind: set<Orientation>)
    requires IsWon(g) && SpreadFire(g, wind).Ok?
    ensures IsWon(SpreadFire(g, wind).value)
    ensures forall p | IsForestAt(g.board.fields, p) ::
      SpreadFire(g, wind).value.board.fields[p].forest.state == g.board.fields[p].forest.state
  {
    SpreadFireBurns(g, wind);
    var r := SpreadFire(g, wind).value;
    forall p | IsForestAt(g.board.fields, p)
      ensures !Rises(g.board, wind, p)
    {
      forall o | o in wind
        ensures !StrongAt(g.board.fields, Upwind(p, o))
      {
      }
    }
    forall p | IsForestAt(r.board.fields, p)
      ensures !IsBurning(r.board.fields[p].forest.state)
    {
      assert IsForestAt(g.board.fields, p);
    }
  }

  /** After purging, the game is lost exactly when every player in the order
      was left without an engine. */
  lemma LostIffNoneEquipped(g: Game)
    ensures var roster := Forfeit(g.roster, Burnt(g.board));
      IsLost(Purge(g)) <==>
        forall i | 0 <= i < |g.players| :: g.players[i] in roster && |roster[g.players[i]].engines| == 0
  {
    var roster := Forfeit(g.roster, Burnt(g.board));
    var out := set n | n in g.players && n in roster && |roster[n].engines| == 0;
    var left := Purge(g).players;
    assert left == C.RemoveAll(g.players, out);
    if left != [] {
      assert left[0] in g.players && left[0] !in out;
    }
  }
}

