/** Reading the board layout a game starts from: "height,width," followed by
    one token per cell, row by row, all separated by commas. The four players
    A to D are created new for each reading, and every engine token gives its
    player a new engine. A layout is only accepted when the fire stations sit
    in the corners, the ponds in the middle of the edges, the engines next to
    their stations, and some forest burns strongly and some lightly. */
module Layouts {
  import opened Wrappers
  import opened Geometry
  import opened FireEngines
  import opened Forests
  import opened Boards
  import opened Text
  import D = Decimal
  import P = Players
  import C = Cycles
  import G = Games

  /** How many players a game has. */
  const PlayerCount: nat := 4

  /** The least width and height a board may have. */
  const MinimumSide: int := 5

  /** The names of the players, in turn order. */
  function PlayerNames(): seq<string> { ["A", "B", "C", "D"] }

  /** The players a layout is read with: A to D, each new. */
  function NewPlayers(): (r: map<string, P.Player>)
    ensures r.Keys == {"A", "B", "C", "D"}
    ensures forall o | o in r :: r[o] == P.NewPlayer(o)
  {
    map o | o in {"A", "B", "C", "D"} :: P.NewPlayer(o)
  }

  /** A token for one cell, as the input pattern allows it: a player's engine
      (a letter A to D and a zero), a player's station (the letter alone), a
      pond (L), or a forest by its state indicator (w, d, + or *). */
  predicate IsFieldToken(t: string)
  {
    (|t| == 2 && IsPlayerLetter(t[0]) && t[1] == '0')
    || (|t| == 1 && (IsPlayerLetter(t[0]) || t[0] in "Lwd+*"))
  }

  /** The input pattern, read on the comma-separated pieces: two non-empty
      digit runs, then at least one cell token. */
  predicate WellFormed(pieces: seq<string>)
  {
    |pieces| >= 3
    && |pieces[0]| > 0 && D.AllDigits(pieces[0])
    && |pieces[1]| > 0 && D.AllDigits(pieces[1])
    && forall i | 2 <= i < |pieces| :: IsFieldToken(pieces[i])
  }

  /** Why a layout is refused. */
  datatype LayoutError =
    | Malformed
    | TooSmall
    | EvenSide
    | FieldCount(expected: nat)
    | MisplacedStations
    | MisplacedPonds
    | MisplacedEngines
    | InvalidForestState

  /** The cell the i-th token describes on a board `width` cells wide. */
  function Cell(i: int, width: int): Point
    requires width > 0
  {
    Point(i / width, i % width)
  }

  /** Different tokens describe different cells. */
  lemma CellInjective(i: int, j: int, width: int)
    requires width > 0 && i != j
    ensures Cell(i, width) != Cell(j, width)
  {
    C.ModUnique(i, width, i / width, i % width);
    C.ModUnique(j, width, j / width, j % width);
  }

  /** The cell in row x and column y is described by token x * width + y. */
  lemma CellOf(x: int, y: int, width: int)
    requires 0 <= y < width
    ensures Cell(x * width + y, width) == Point(x, y)
  {
    C.ModUnique(x * width + y, width, x, y);
  }

  /** Whether the token is one of an engine. */
  predicate IsEngineToken(t: string) { IsEngineId(t) }

  /** `parseField`: the field a token stands for. An engine token creates a
      new engine for its player, in a dry forest of its own. */
  function ParseField(roster: map<string, P.Player>, t: string): (r: (Field, map<string, P.Player>))
    requires IsFieldToken(t)
    requires forall o | o in NewPlayers() :: o in roster
    ensures r.1.Keys == roster.Keys
    ensures !IsEngineToken(t) ==> r.1 == roster
  {
    if t == "L" then (PondField, roster)
    else if |t| == 1 && IsPlayerLetter(t[0]) then (StationField(t), roster)
    else if IsEngineToken(t) then
      var owner := t[..1];
      LetterIsPlayer(t);
      var (player, e) := P.CreateEngine(roster[owner]);
      (ForestField(AddEngine(NewForest(Dry), e)), roster[owner := player])
    else
      (ForestField(NewForest(ByIndicator(t[0]).value)), roster)
  }

  /** The fields the first k tokens make, and the players after them. */
  function Place(tokens: seq<string>, width: int, k: nat, roster: map<string, P.Player>): (r: (map<Point, Field>, map<string, P.Player>))
    requires width > 0 && k <= |tokens|
    requires forall i | 0 <= i < |tokens| :: IsFieldToken(tokens[i])
    requires forall o | o in NewPlayers() :: o in roster
    ensures r.0.Keys == set i | 0 <= i < k :: Cell(i, width)
    ensures r.1.Keys == roster.Keys
    decreases k
  {
    if k == 0 then (map[], roster)
    else
      var (fields, players) := Place(tokens, width, k - 1, roster);
      var (field, players') := ParseField(players, tokens[k - 1]);
      (fields[Cell(k - 1, width) := field], players')
  }

  /** The field a cell holds matches its token: a pond for L, the player's
      station for a letter, a dry forest with one engine of the player for an
      engine, and an empty forest in the indicated state otherwise. */
  predicate Reads(t: string, f: Field)
    requires IsFieldToken(t)
  {
    if |t| == 2 then
      f.ForestField? && f.forest.state == Dry && |f.forest.engines| == 1
      && forall id | id in f.forest.engines :: f.forest.engines[id].owner == [t[0]]
    else if t[0] == 'L' then f == PondField
    else if IsPlayerLetter(t[0]) then f == StationField(t)
    else ByIndicator(t[0]).Some? && f == ForestField(NewForest(ByIndicator(t[0]).value))
  }

  /** A token read by players under their own names gives the field it describes. */
  lemma ParseReads(roster: map<string, P.Player>, t: string)
    requires IsFieldToken(t)
    requires forall o | o in NewPlayers() :: o in roster && roster[o].name == o
    ensures Reads(t, ParseField(roster, t).0)
  {
    if |t| == 2 {
      assert IsEngineToken(t) by {
        assert t[1..] == "0";
      }
      LetterIsPlayer(t);
      var e := P.CreateEngine(roster[t[..1]]).1;
      assert ParseField(roster, t).0 == ForestField(Forest(Dry, map[Id(e) := e]));
      assert map[Id(e) := e].Keys == {Id(e)};
    } else {
      assert !IsEngineToken(t);
      assert t == "L" <==> t[0] == 'L';
    }
  }

  /** Token i lands on cell i, and later tokens never overwrite it. */
  lemma {:induction false} PlaceReads(tokens: seq<string>, width: int, k: nat, roster: map<string, P.Player>, i: int)
    requires width > 0 && k <= |tokens|
    requires forall j | 0 <= j < |tokens| :: IsFieldToken(tokens[j])
    requires forall o | o in NewPlayers() :: o in roster && roster[o].name == o
    requires 0 <= i < k
    ensures Reads(tokens[i], Place(tokens, width, k, roster).0[Cell(i, width)])
    decreases k
  {
    var j: nat := k - 1;
    var prior := Place(tokens, width, j, roster);
    PlaceNames(tokens, width, j, roster);
    PlaceLast(tokens, width, k, j, roster);
    if i < j {
      PlaceReads(tokens, width, j, roster, i);
      CellInjective(i, j, width);
    } else {
      assert i == j;
      ParseReads(prior.1, tokens[j]);
    }
  }

  /** Players keep their names while the layout is read. */
  lemma {:induction false} PlaceNames(tokens: seq<string>, width: int, k: nat, roster: map<string, P.Player>)
    requires width > 0 && k <= |tokens|
    requires forall j | 0 <= j < |tokens| :: IsFieldToken(tokens[j])
    requires forall o | o in NewPlayers() :: o in roster
    ensures forall o | o in roster :: Place(tokens, width, k, roster).1[o].name == roster[o].name
    decreases k
  {
    if k > 0 {
      var j: nat := k - 1;
      PlaceNames(tokens, width, j, roster);
      PlaceLast(tokens, width, k, j, roster);
      var prior := Place(tokens, width, j, roster);
      ParseNames(prior.1, tokens[j]);
    }
  }

  /** Reading a token keeps every player's name. */
  lemma ParseNames(players: map<string, P.Player>, t: string)
    requires IsFieldToken(t) && forall o | o in NewPlayers() :: o in players
    ensures forall o | o in players :: ParseField(players, t).1[o].name == players[o].name
  {
    if IsEngineToken(t) {
      EngineField(players, t);
    }
  }

  /** What holds of the fields and players while a layout is read by new
      players: every player is valid and under its own name; forests file
      their engines under their ids; every engine standing somewhere is held
      by its player, whose name has no digit; no engine stands twice; and
      every held engine stands somewhere. */
  ghost predicate Placed(fields: map<Point, Field>, roster: map<string, P.Player>)
  {
    roster.Keys == NewPlayers().Keys
    && (forall o | o in roster :: roster[o].name == o && P.Valid(roster[o]))
    && KeyedById(fields)
    && (forall p, e | Stands(fields, p, e) ::
          e.owner in roster && e.number in roster[e.owner].engines && DigitFree(e.owner))
    && EnginesPlacedOnce(fields)
    && (forall o, n | o in roster && n in roster[o].engines :: exists p :: Stands(fields, p, EngineRef(o, n)))
  }

  /** Token j, read onto its cell by the players the first j tokens left,
      completes the first k = j + 1 tokens. */
  lemma PlaceLast(tokens: seq<string>, width: int, k: nat, j: nat, roster: map<string, P.Player>)
    requires width > 0 && k <= |tokens| && j + 1 == k
    requires forall i | 0 <= i < |tokens| :: IsFieldToken(tokens[i])
    requires forall o | o in NewPlayers() :: o in roster
    ensures var prior := Place(tokens, width, j, roster);
      var now := ParseField(prior.1, tokens[j]);
      Place(tokens, width, k, roster) == (prior.0[Cell(j, width) := now.0], now.1)
  {
  }

  /** The cell of token k is not among those of the first k tokens. */
  lemma NextCellFree(tokens: seq<string>, width: int, k: nat, roster: map<string, P.Player>)
    requires width > 0 && k < |tokens|
    requires forall i | 0 <= i < |tokens| :: IsFieldToken(tokens[i])
    requires forall o | o in NewPlayers() :: o in roster
    ensures Cell(k, width) !in Place(tokens, width, k, roster).0
  {
    forall i | 0 <= i < k
      ensures Cell(i, width) != Cell(k, width)
    {
      CellInjective(i, k, width);
    }
  }

  /** Reading by new players keeps `Placed`. */
  lemma {:induction false} PlaceKeeps(tokens: seq<string>, width: int, k: nat)
    requires width > 0 && k <= |tokens|
    requires forall i | 0 <= i < |tokens| :: IsFieldToken(tokens[i])
    ensures var r := Place(tokens, width, k, NewPlayers()); Placed(r.0, r.1)
    decreases k
  {
    if k > 0 {
      var j: nat := k - 1;
      PlaceKeeps(tokens, width, j);
      var prior := Place(tokens, width, j, NewPlayers());
      PlaceLast(tokens, width, k, j, NewPlayers());
      NextCellFree(tokens, width, j, NewPlayers());
      var c, t := Cell(j, width), tokens[j];
      PlaceStep(prior.0, prior.1, c, t);
    }
  }

  /** The letter of a player's token names one of the new players. */
  lemma LetterIsPlayer(t: string)
    requires |t| >= 1 && IsPlayerLetter(t[0])
    ensures t[..1] in NewPlayers() && t[..1] == [t[0]]
  {
    assert t[..1] == [t[0]];
    if t[0] == 'A' {
      assert [t[0]] == "A";
    } else if t[0] == 'B' {
      assert [t[0]] == "B";
    } else if t[0] == 'C' {
      assert [t[0]] == "C";
    } else {
      assert t[0] == 'D';
      assert [t[0]] == "D";
    }
  }

  /** One token read onto a cell not yet filled keeps `Placed`. */
  lemma PlaceStep(fields: map<Point, Field>, players: map<string, P.Player>, c: Point, t: string)
    requires Placed(fields, players) && c !in fields && IsFieldToken(t)
    ensures Placed(fields[c := ParseField(players, t).0], ParseField(players, t).1)
  {
    if IsEngineToken(t) {
      LetterIsPlayer(t);
      var o := t[..1];
      EngineField(players, t);
      assert fields[c := ParseField(players, t).0] == WithNewEngine(fields, players, c, o);
      NewEngineKeeps(fields, players, c, o);
    } else {
      PlainKeeps(fields, players, c, ParseField(players, t).0);
    }
  }

  /** An engine token puts a new engine of its player alone in a dry forest. */
  lemma EngineField(players: map<string, P.Player>, t: string)
    requires IsFieldToken(t) && IsEngineToken(t) && forall o | o in NewPlayers() :: o in players
    ensures t[..1] in players
    ensures var e := P.CreateEngine(players[t[..1]]).1;
      ParseField(players, t) == (ForestField(Forest(Dry, map[Id(e) := e])), WithCreated(players, t[..1]))
  {
    LetterIsPlayer(t);
  }

  /** A field without engines on a new cell keeps `Placed`. */
  lemma PlainKeeps(fields: map<Point, Field>, players: map<string, P.Player>, c: Point, f: Field)
    requires Placed(fields, players) && c !in fields
    requires !f.ForestField? || f.forest.engines == map[]
    ensures Placed(fields[c := f], players)
  {
    var fields' := fields[c := f];
    forall p, e
      ensures Stands(fields', p, e) <==> Stands(fields, p, e)
    {
    }
  }

  /** A new engine of `o` in a new dry forest keeps `Placed`. */
  lemma NewEngineKeeps(fields: map<Point, Field>, players: map<string, P.Player>, c: Point, o: string)
    requires Placed(fields, players) && o in players && c !in fields && DigitFree(o)
    ensures Placed(WithNewEngine(fields, players, c, o), WithCreated(players, o))
  {
    NewEngineRoster(fields, players, c, o);
    NewEngineHeld(fields, players, c, o);
    NewEngineOnce(fields, players, c, o);
    NewEngineStands(fields, players, c, o);
  }

  /** Creating the engine keeps the players valid and under their names,
      and the new forest files it under its id. */
  lemma NewEngineRoster(fields: map<Point, Field>, players: map<string, P.Player>, c: Point, o: string)
    requires Placed(fields, players) && o in players && c !in fields
    ensures var fields' := WithNewEngine(fields, players, c, o); var players' := WithCreated(players, o);
      && players'.Keys == NewPlayers().Keys
      && (forall o' | o' in players' :: players'[o'].name == o' && P.Valid(players'[o']))
      && KeyedById(fields')
  {
    var players' := WithCreated(players, o);
    forall o' | o' in players'
      ensures players'[o'].name == o' && P.Valid(players'[o'])
    {
      if o' != o {
        assert players'[o'] == players[o'];
      }
    }
  }

  /** The board after a new engine of `o` is put in a new dry forest at `c`. */
  function WithNewEngine(fields: map<Point, Field>, players: map<string, P.Player>, c: Point, o: string): map<Point, Field>
    requires o in players
  {
    var e := P.CreateEngine(players[o]).1;
    fields[c := ForestField(Forest(Dry, map[Id(e) := e]))]
  }

  /** The players after `o` created a new engine. */
  function WithCreated(players: map<string, P.Player>, o: string): map<string, P.Player>
    requires o in players
  {
    players[o := P.CreateEngine(players[o]).0]
  }

  /** Standing after a new engine is placed at a new cell. */
  lemma StandsAfterNew(fields: map<Point, Field>, players: map<string, P.Player>, c: Point, o: string, p: Point, e: EngineRef)
    requires o in players && c !in fields
    ensures Stands(WithNewEngine(fields, players, c, o), p, e) <==>
      (p == c && e == P.CreateEngine(players[o]).1) || (p != c && Stands(fields, p, e))
  {
    var e0 := P.CreateEngine(players[o]).1;
    SingletonValues(Id(e0), e0);
  }

  lemma SingletonValues(k: string, v: EngineRef)
    ensures map[k := v].Values == {v}
  {
    var m := map[k := v];
    assert m[k] == v;
    forall w | w in m.Values
      ensures w == v
    {
      var k' :| k' in m && m[k'] == w;
    }
  }

  lemma NewEngineHeld(fields: map<Point, Field>, players: map<string, P.Player>, c: Point, o: string)
    requires Placed(fields, players) && o in players && c !in fields && DigitFree(o)
    ensures var fields' := WithNewEngine(fields, players, c, o); var players' := WithCreated(players, o);
      forall p, e | Stands(fields', p, e) ::
        e.owner in players' && e.number in players'[e.owner].engines && DigitFree(e.owner)
  {
    var fields' := WithNewEngine(fields, players, c, o);
    forall p, e | Stands(fields', p, e)
      ensures e.owner in WithCreated(players, o) && e.number in WithCreated(players, o)[e.owner].engines
    {
      StandsAfterNew(fields, players, c, o, p, e);
    }
  }

  lemma NewEngineOnce(fields: map<Point, Field>, players: map<string, P.Player>, c: Point, o: string)
    requires Placed(fields, players) && o in players && c !in fields
    ensures EnginesPlacedOnce(WithNewEngine(fields, players, c, o))
  {
    var fields' := WithNewEngine(fields, players, c, o);
    var e := P.CreateEngine(players[o]).1;
    assert players[o].next !in players[o].engines;
    forall p, q, e' | Stands(fields', p, e') && Stands(fields', q, e')
      ensures p == q
    {
      StandsAfterNew(fields, players, c, o, p, e');
      StandsAfterNew(fields, players, c, o, q, e');
    }
  }

  lemma NewEngineStands(fields: map<Point, Field>, players: map<string, P.Player>, c: Point, o: string)
    requires Placed(fields, players) && o in players && c !in fields
    ensures var fields' := WithNewEngine(fields, players, c, o); var players' := WithCreated(players, o);
      forall o', n | o' in players' && n in players'[o'].engines :: exists p :: Stands(fields', p, EngineRef(o', n))
  {
    var fields' := WithNewEngine(fields, players, c, o);
    var players' := WithCreated(players, o);
    var e := P.CreateEngine(players[o]).1;
    forall o', n | o' in players' && n in players'[o'].engines
      ensures exists p :: Stands(fields', p, EngineRef(o', n))
    {
      if EngineRef(o', n) == e {
        StandsAfterNew(fields, players, c, o, c, e);
      } else {
        var p :| Stands(fields, p, EngineRef(o', n));
        StandsAfterNew(fields, players, c, o, p, EngineRef(o', n));
      }
    }
  }

  /** The cells holding a fire station, a pond, or an occupied forest. */
  function StationCells(fields: map<Point, Field>): set<Point>
  {
    set p | p in fields && fields[p].StationField?
  }

  function PondCells(fields: map<Point, Field>): set<Point>
  {
    set p | p in fields && fields[p].PondField?
  }

  function OccupiedCells(fields: map<Point, Field>): set<Point>
  {
    set p | p in fields && fields[p].ForestField? && IsOccupied(fields[p].forest)
  }

  predicate StationAt(fields: map<Point, Field>, p: Point, owner: string)
  {
    p in fields && fields[p] == StationField(owner)
  }

  predicate PondAt(fields: map<Point, Field>, p: Point)
  {
    p in fields && fields[p] == PondField
  }

  /** The forest at `p` holds every engine of `owner`. */
  predicate EnginesAt(fields: map<Point, Field>, p: Point, roster: map<string, P.Player>, owner: string)
  {
    IsForestAt(fields, p) && owner in roster && P.Engines(roster[owner]) <= fields[p].forest.engines.Values
  }

  /** The four corners: where the stations of A, B, C and D belong. */
  function Corners(d: Dimensions): set<Point>
  {
    {Point(0, 0), Point(d.height - 1, d.width - 1), Point(d.height - 1, 0), Point(0, d.width - 1)}
  }

  /** The middle of each edge: where the ponds belong. */
  function EdgeMiddles(d: Dimensions): set<Point>
  {
    {Point(0, d.width / 2), Point(d.height / 2, 0), Point(d.height - 1, d.width / 2), Point(d.height / 2, d.width - 1)}
  }

  /** `ValidFireStationsPredicate`: exactly four stations, and each corner
      holds the station of its player. */
  predicate ValidStations(d: Dimensions, fields: map<Point, Field>)
  {
    |StationCells(fields)| == PlayerCount
    && StationAt(fields, Point(0, 0), "A")
    && StationAt(fields, Point(d.height - 1, d.width - 1), "B")
    && StationAt(fields, Point(d.height - 1, 0), "C")
    && StationAt(fields, Point(0, d.width - 1), "D")
  }

  /** `ValidPondsPredicate`: exactly four ponds, one in the middle of each
      edge; the players play no part. */
  predicate ValidPonds(d: Dimensions, fields: map<Point, Field>)
  {
    |PondCells(fields)| == PlayerCount
    && PondAt(fields, Point(0, d.width / 2))
    && PondAt(fields, Point(d.height / 2, 0))
    && PondAt(fields, Point(d.height - 1, d.width / 2))
    && PondAt(fields, Point(d.height / 2, d.width - 1))
  }

  /** `ValidFireEnginesPredicate`: exactly four occupied forests, and the
      forest diagonally inside each player's corner holds all of that
      player's engines. */
  predicate ValidEngines(d: Dimensions, fields: map<Point, Field>, roster: map<string, P.Player>)
  {
    |OccupiedCells(fields)| == PlayerCount
    && EnginesAt(fields, Point(1, 1), roster, "A")
    && EnginesAt(fields, Point(d.height - 2, d.width - 2), roster, "B")
    && EnginesAt(fields, Point(d.height - 2, 1), roster, "C")
    && EnginesAt(fields, Point(1, d.width - 2), roster, "D")
  }

  /** `ValidForestStatePredicate`: some forest burns strongly and some lightly;
      only forests are looked at. */
  predicate ValidForestState(fields: map<Point, Field>)
  {
    (exists p | p in fields :: fields[p].ForestField? && fields[p].forest.state == StrongBurn)
    && (exists p | p in fields :: fields[p].ForestField? && fields[p].forest.state == LightBurn)
  }

  /** A subset as large as its superset is the whole of it. */
  lemma SubsetSameSize(a: set<Point>, b: set<Point>)
    requires a <= b && |a| == |b|
    ensures a == b
  {
    var rest := b - a;
    assert b == a + rest;
    assert a * rest == {};
    assert |b| == |a| + |rest|;
  }

  /** On a board at least two wide and high, the stations are valid exactly
      when they occupy the four corners and nothing else, each with its
      player; so no two stations share an owner. */
  lemma StationsAtCorners(d: Dimensions, fields: map<Point, Field>)
    requires d.width >= 2 && d.height >= 2
    ensures ValidStations(d, fields) <==>
      StationCells(fields) == Corners(d)
      && StationAt(fields, Point(0, 0), "A")
      && StationAt(fields, Point(d.height - 1, d.width - 1), "B")
      && StationAt(fields, Point(d.height - 1, 0), "C")
      && StationAt(fields, Point(0, d.width - 1), "D")
    ensures ValidStations(d, fields) ==> StationOwnersDistinct(fields)
  {
    assert |Corners(d)| == PlayerCount;
    if ValidStations(d, fields) {
      assert Corners(d) <= StationCells(fields);
      SubsetSameSize(Corners(d), StationCells(fields));
      forall p, q | p in fields && q in fields && fields[p].StationField? && fields[q].StationField?
        ensures fields[p].owner == fields[q].owner ==> p == q
      {
        assert p in StationCells(fields) && q in StationCells(fields);
      }
    }
  }

  /** On a board at least five wide and high, the ponds are valid exactly when
      they are the middles of the four edges and nothing else. */
  lemma PondsAtEdgeMiddles(d: Dimensions, fields: map<Point, Field>)
    requires d.width >= MinimumSide && d.height >= MinimumSide
    ensures ValidPonds(d, fields) <==> PondCells(fields) == EdgeMiddles(d)
  {
    assert |EdgeMiddles(d)| == PlayerCount;
    if ValidPonds(d, fields) {
      assert EdgeMiddles(d) <= PondCells(fields);
      SubsetSameSize(EdgeMiddles(d), PondCells(fields));
    }
  }

  /** `IntermediateBoardMapper` followed by the four validators and the board
      they make: the pattern must match, height (read first) and width must be
      at least five and odd, there must be a token for every cell, and the
      stations, ponds, engines and fires must be placed as the validators
      demand. The result is the board and the players with their new engines. */
  function ParseLayout(input: string): (r: Result<(Board, map<string, P.Player>), LayoutError>)
    ensures !WellFormed(Split(input, ',')) <==> r == Err(Malformed)
    ensures r.Ok? ==> var pieces := Split(input, ',');
      var height := D.Value(pieces[0]);
      var width := D.Value(pieces[1]);
      width >= MinimumSide && height >= MinimumSide && width % 2 == 1 && height % 2 == 1
      && |pieces| - 2 == width * height && (FieldTokens(pieces); r == Assemble(pieces[2..], width, height))
    ensures WellFormed(Split(input, ',')) ==> var pieces := Split(input, ',');
      var height := D.Value(pieces[0]);
      var width := D.Value(pieces[1]);
      && (!(width >= MinimumSide && height >= MinimumSide) ==> r == Err(TooSmall))
      && (width >= MinimumSide && height >= MinimumSide && !(width % 2 == 1 && height % 2 == 1) ==> r == Err(EvenSide))
      && ((width >= MinimumSide && height >= MinimumSide && width % 2 == 1 && height % 2 == 1
           && |pieces| - 2 != width * height) ==> r == Err(FieldCount(width * height)))
    ensures WellFormed(Split(input, ',')) ==> var pieces := Split(input, ',');
      var height := D.Value(pieces[0]);
      var width := D.Value(pieces[1]);
      (width >= MinimumSide && height >= MinimumSide && width % 2 == 1 && height % 2 == 1
       && |pieces| - 2 == width * height) ==> (FieldTokens(pieces); r == Assemble(pieces[2..], width, height))
  {
    var pieces := Split(input, ',');
    if !WellFormed(pieces) then Err(Malformed)
    else
      var height := D.Value(pieces[0]);
      var width := D.Value(pieces[1]);
      if !(width >= MinimumSide && height >= MinimumSide) then Err(TooSmall)
      else if !(width % 2 == 1 && height % 2 == 1) then Err(EvenSide)
      else
        var tokens := pieces[2..];
        if |tokens| != width * height then Err(FieldCount(width * height))
        else
          FieldTokens(pieces);
          Assemble(tokens, width, height)
  }

  /** Every piece after the two sides of a well-formed layout is a field token. */
  lemma FieldTokens(pieces: seq<string>)
    requires WellFormed(pieces)
    ensures forall i | 0 <= i < |pieces[2..]| :: IsFieldToken(pieces[2..][i])
  {
    var tokens := pieces[2..];
    forall i | 0 <= i < |tokens| ensures IsFieldToken(tokens[i]) {
      assert tokens[i] == pieces[i + 2];
    }
  }

  /** Reading the tokens of a board of the given size, then validating. The
      board accepted is consistent, and its engines are exactly the engines
      the players hold. */
  function Assemble(tokens: seq<string>, width: int, height: int): (r: Result<(Board, map<string, P.Player>), LayoutError>)
    requires width >= MinimumSide && height >= MinimumSide && |tokens| == width * height
    requires forall i | 0 <= i < |tokens| :: IsFieldToken(tokens[i])
    ensures r.Ok? ==> r.value.0.dims == Dimensions(width, height)
    ensures r.Ok? ==> var d := r.value.0.dims; var fields := r.value.0.fields;
      ValidStations(d, fields) && ValidPonds(d, fields) && ValidEngines(d, fields, r.value.1) && ValidForestState(fields)
    ensures r.Ok? ==> (r.value.0.fields, r.value.1) == Place(tokens, width, |tokens|, NewPlayers())
    ensures r.Ok? ==> Consistent(r.value.0) && G.HoldingsAgree(r.value.0, r.value.1) && Placed(r.value.0.fields, r.value.1)
    ensures var d := Dimensions(width, height);
      var read := Place(tokens, width, |tokens|, NewPlayers());
      var fields := read.0;
      && (r.Ok? <==> ValidStations(d, fields) && ValidPonds(d, fields) && ValidEngines(d, fields, read.1) && ValidForestState(fields))
      && (!ValidStations(d, fields) ==> r == Err(MisplacedStations))
      && (ValidStations(d, fields) && !ValidPonds(d, fields) ==> r == Err(MisplacedPonds))
      && (ValidStations(d, fields) && ValidPonds(d, fields) && !ValidEngines(d, fields, read.1) ==> r == Err(MisplacedEngines))
      && (ValidStations(d, fields) && ValidPonds(d, fields) && ValidEngines(d, fields, read.1) && !ValidForestState(fields)
          ==> r == Err(InvalidForestState))
    ensures r.Err? ==> r.error in {MisplacedStations, MisplacedPonds, MisplacedEngines, InvalidForestState}
  {
    var dims := Dimensions(width, height);
    var (fields, players) := Place(tokens, width, |tokens|, NewPlayers());
    if !ValidStations(dims, fields) then Err(MisplacedStations)
    else if !ValidPonds(dims, fields) then Err(MisplacedPonds)
    else if !ValidEngines(dims, fields, players) then Err(MisplacedEngines)
    else if !ValidForestState(fields) then Err(InvalidForestState)
    else
      AssembledBoard(tokens, width, height, fields, players);
      Ok((BoardOf(dims, fields).value, players))
  }

  /** The fields and players a layout with valid stations reads make a
      consistent board that agrees with the players. */
  lemma AssembledBoard(tokens: seq<string>, width: int, height: int, fields: map<Point, Field>, players: map<string, P.Player>)
    requires width >= MinimumSide && height >= MinimumSide && |tokens| == width * height
    requires forall i | 0 <= i < |tokens| :: IsFieldToken(tokens[i])
    requires (fields, players) == Place(tokens, width, |tokens|, NewPlayers())
    requires ValidStations(Dimensions(width, height), fields)
    ensures Placed(fields, players) && EnginesPlacedOnce(fields)
    ensures var b := BoardOf(Dimensions(width, height), fields);
      b.Ok? && b.value.dims == Dimensions(width, height) && b.value.fields == fields
      && Consistent(b.value) && G.HoldingsAgree(b.value, players)
  {
    var dims := Dimensions(width, height);
    PlaceKeeps(tokens, width, |tokens|);
    StationsAtCorners(dims, fields);
    BoardAgrees(dims, fields, players);
  }

  /** An accepted layout fills every cell of the board and nothing else, and
      each cell holds the field its token describes. */
  lemma AssembleCovers(tokens: seq<string>, width: int, height: int)
    requires width >= MinimumSide && height >= MinimumSide && |tokens| == width * height
    requires forall i | 0 <= i < |tokens| :: IsFieldToken(tokens[i])
    requires Assemble(tokens, width, height).Ok?
    ensures var b := Assemble(tokens, width, height).value.0;
      (forall p :: p in b.fields <==> InBounds(b.dims, p.x, p.y))
      && forall i | 0 <= i < width * height :: Reads(tokens[i], b.fields[Cell(i, width)])
  {
    PlaceCoversBoard(tokens, width, height);
    forall i | 0 <= i < width * height
      ensures Reads(tokens[i], Place(tokens, width, |tokens|, NewPlayers()).0[Cell(i, width)])
    {
      PlaceReads(tokens, width, |tokens|, NewPlayers(), i);
    }
  }

  /** The tokens for a whole board fill exactly its cells. */
  lemma PlaceCoversBoard(tokens: seq<string>, width: int, height: int)
    requires width > 0 && height > 0 && |tokens| == width * height
    requires forall i | 0 <= i < |tokens| :: IsFieldToken(tokens[i])
    ensures forall p :: p in Place(tokens, width, |tokens|, NewPlayers()).0 <==> InBounds(Dimensions(width, height), p.x, p.y)
  {
    var fields := Place(tokens, width, |tokens|, NewPlayers()).0;
    var d := Dimensions(width, height);
    forall p
      ensures p in fields <==> InBounds(d, p.x, p.y)
    {
      if p in fields {
        var i :| 0 <= i < |tokens| && Cell(i, width) == p;
        CellInBounds(i, width, height);
      }
      if InBounds(d, p.x, p.y) {
        CellOf(p.x, p.y, width);
        CellIndexInRange(p.x, p.y, width, height);
      }
    }
  }

  lemma CellInBounds(i: int, width: int, height: int)
    requires width > 0 && 0 <= i < width * height
    ensures InBounds(Dimensions(width, height), Cell(i, width).x, Cell(i, width).y)
  {
    C.ModUnique(i, width, i / width, i % width);
    var q := i / width;
    if q >= height {
      MultiplyMonotone(width, height, q);
    }
  }

  lemma MultiplyMonotone(w: int, a: int, b: int)
    requires w > 0 && a <= b
    ensures w * a <= w * b
  {
  }

  lemma CellIndexInRange(x: int, y: int, width: int, height: int)
    requires 0 <= x < height && 0 <= y < width
    ensures 0 <= x * width + y < width * height
  {
    MultiplyMonotone(width, x, height - 1);
    MultiplyMonotone(width, 0, x);
  }

  /** The board built from placed fields is consistent and agrees with the players. */
  lemma BoardAgrees(dims: Dimensions, fields: map<Point, Field>, players: map<string, P.Player>)
    requires Placed(fields, players) && StationOwnersDistinct(fields)
    ensures Consistent(BoardOf(dims, fields).value)
    ensures G.HoldingsAgree(BoardOf(dims, fields).value, players)
  {
    BoardOfConsistent(dims, fields);
    var b := BoardOf(dims, fields).value;
    forall o, n | o in players && n in players[o].engines
      ensures EngineRef(o, n) in b.index
    {
      var p :| Stands(fields, p, EngineRef(o, n));
    }
  }

  /** The players of a layout in turn order A, B, C, D. */
  function InTurnOrder(players: map<string, P.Player>): (ps: seq<P.Player>)
    requires players.Keys == NewPlayers().Keys
    requires forall o | o in players :: players[o].name == o
    ensures G.DistinctNames(ps) && G.Names(ps) == PlayerNames()
  {
    [players["A"], players["B"], players["C"], players["D"]]
  }

  /** Keying the players in turn order by name gives back the players. */
  lemma RosterInTurnOrder(players: map<string, P.Player>)
    requires players.Keys == NewPlayers().Keys
    requires forall o | o in players :: players[o].name == o
    ensures G.RosterOf(InTurnOrder(players)) == players
  {
    var ps := InTurnOrder(players);
    var r := G.RosterOf(ps);
    forall o | o in players ensures o in r && r[o] == players[o] {
      if o == "A" { assert ps[0] == players[o]; }
      else if o == "B" { assert ps[1] == players[o]; }
      else if o == "C" { assert ps[2] == players[o]; }
      else { assert ps[3] == players[o]; }
    }
    forall o | o in r ensures o in players {
      assert o in PlayerNames();
    }
  }

  /** What an accepted layout promises about its board and players. */
  lemma ParsedPlaced(input: string)
    requires ParseLayout(input).Ok?
    ensures var (b, players) := ParseLayout(input).value;
      Placed(b.fields, players) && Consistent(b) && G.HoldingsAgree(b, players) && ValidForestState(b.fields)
  {
  }

  /** `GameEnvironment.reset`: read the layout with new players A to D and
      start a game over them, in that order, on the board it gives. */
  function NewGameFromLayout(input: string): (r: Result<G.Game, LayoutError>)
    ensures r.Err? <==> ParseLayout(input).Err?
    ensures r.Err? ==> r.error == ParseLayout(input).error
    ensures r.Ok? ==> r.value.board == ParseLayout(input).value.0 && r.value.players == PlayerNames()
  {
    var (b, players) :- ParseLayout(input);
    ParsedPlaced(input);
    var ps := InTurnOrder(players);
    Ok(G.NewGame(ps, b).value)
  }

  /** The players in turn order have digit-free names and are valid. */
  lemma TurnOrderValid(players: map<string, P.Player>)
    requires players.Keys == NewPlayers().Keys
    requires forall o | o in players :: players[o].name == o && P.Valid(players[o])
    ensures var ps := InTurnOrder(players); forall i | 0 <= i < |ps| :: DigitFree(ps[i].name) && P.Valid(ps[i])
  {
    var ps := InTurnOrder(players);
    forall i | 0 <= i < |ps| ensures DigitFree(ps[i].name) && P.Valid(ps[i]) {
      var n := PlayerNames()[i];
      assert ps[i] == players[n];
      assert |n| == 1 && IsPlayerLetter(n[0]);
    }
  }

  /** A game started over players A to D and a board that agrees with them
      is valid and not over: four players are in it, and some forest burns. */
  lemma StartValid(b: Board, players: map<string, P.Player>)
    requires players.Keys == NewPlayers().Keys
    requires forall o | o in players :: players[o].name == o && P.Valid(players[o])
    requires Consistent(b) && G.HoldingsAgree(b, players) && ValidForestState(b.fields)
    ensures var g := G.NewGame(InTurnOrder(players), b).value; G.Valid(g) && !G.IsOver(g)
  {
    var ps := InTurnOrder(players);
    RosterInTurnOrder(players);
    TurnOrderValid(players);
    G.NewGameValid(ps, b);
    StartNotOver(b, ps);
  }

  /** A new game with players on a board where some forest burns is not over. */
  lemma StartNotOver(b: Board, ps: seq<P.Player>)
    requires G.DistinctNames(ps) && ps != [] && ValidForestState(b.fields)
    ensures !G.IsOver(G.NewGame(ps, b).value)
  {
    var g := G.NewGame(ps, b).value;
    var p :| p in b.fields && b.fields[p].ForestField? && b.fields[p].forest.state == StrongBurn;
    assert IsForestAt(g.board.fields, p);
  }

  /** A game started from an accepted layout is valid and not over. */
  lemma LayoutGameValid(input: string)
    requires NewGameFromLayout(input).Ok?
    ensures G.Valid(NewGameFromLayout(input).value)
    ensures !G.IsOver(NewGameFromLayout(input).value)
  {
    ParsedPlaced(input);
    var (b, players) := ParseLayout(input).value;
    StartValid(b, players);
  }
}
