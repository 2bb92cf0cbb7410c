/** The board: the field at every cell, each player's fire station, and the
    index that says where each engine stands; plus the reachability test that
    decides whether an engine may move. Cells are keyed by their coordinates
    only, as `Position.equals` ignores the bound. The field at cell `p` sits at
    the position `p` bounded by the board's dimensions. */
module Boards {
  import opened Wrappers
  import opened Geometry
  import opened FireEngines
  import opened Forests
  import opened Failures

  /** The three kinds of field. */
  datatype Field = PondField | StationField(owner: string) | ForestField(forest: Forest)

  datatype Board = Board(
    dims: Dimensions,
    fields: map<Point, Field>,
    stations: map<string, Position>,
    index: map<EngineRef, Position>)

  /** The position a field at cell `p` carries. */
  function FieldPosition(dims: Dimensions, p: Point): (pos: Position)
    ensures pos.At() == p && pos.bound == Some(dims)
  {
    Position(Some(dims), p.x, p.y)
  }

  predicate IsForestAt(fields: map<Point, Field>, p: Point)
  {
    p in fields && fields[p].ForestField?
  }

  /** `e` stands in the forest at `p`, under its own id. */
  predicate Hosts(fields: map<Point, Field>, p: Point, e: EngineRef)
  {
    IsForestAt(fields, p) && Id(e) in fields[p].forest.engines && fields[p].forest.engines[Id(e)] == e
  }

  /** `e` is among the occupants of the forest at `p`, whatever key it is filed under. */
  predicate Stands(fields: map<Point, Field>, p: Point, e: EngineRef)
  {
    IsForestAt(fields, p) && e in fields[p].forest.engines.Values
  }

  /** Every engine standing in some forest. */
  function Occupants(fields: map<Point, Field>): (s: set<EngineRef>)
    ensures forall p, e | Stands(fields, p, e) :: e in s
  {
    set p, e | p in fields && fields[p].ForestField? && e in fields[p].forest.engines.Values :: e
  }

  /** No two fire stations share an owner, which `Collectors.toMap` demands. */
  predicate StationOwnersDistinct(fields: map<Point, Field>)
  {
    forall p, q | p in fields && q in fields && fields[p].StationField? && fields[q].StationField? ::
      fields[p].owner == fields[q].owner ==> p == q
  }

  /** No engine stands in two forests. */
  ghost predicate EnginesPlacedOnce(fields: map<Point, Field>)
  {
    forall p, q, e | Stands(fields, p, e) && Stands(fields, q, e) :: p == q
  }

  /** Each forest files each occupant under that occupant's own id. */
  ghost predicate KeyedById(fields: map<Point, Field>)
  {
    forall p, id | IsForestAt(fields, p) && id in fields[p].forest.engines ::
      Id(fields[p].forest.engines[id]) == id
  }

  /** The board's two views of the engines agree: an engine is indexed at a
      cell exactly when the forest there holds it; owners have digit-free names. */
  ghost predicate Consistent(b: Board)
  {
    KeyedById(b.fields)
    && (forall e | e in b.index :: Hosts(b.fields, b.index[e].At(), e) && DigitFree(e.owner))
    && (forall p, e | Hosts(b.fields, p, e) :: e in b.index && b.index[e].At() == p)
  }

  /** Build a board: the station of every owner and the index of every engine
      found in a forest are collected from the fields. Two stations of one
      owner make the collection fail. */
  function BoardOf(dims: Dimensions, fields: map<Point, Field>): (r: Result<Board, Failure>)
    requires EnginesPlacedOnce(fields)
    ensures r.Err? <==> !StationOwnersDistinct(fields)
    ensures r.Ok? ==> r.value.dims == dims && r.value.fields == fields
    ensures r.Ok? ==> forall p | p in fields && fields[p].StationField? ::
      fields[p].owner in r.value.stations && r.value.stations[fields[p].owner] == FieldPosition(dims, p)
    ensures r.Ok? ==> forall o | o in r.value.stations ::
      exists p :: p in fields && fields[p] == StationField(o) && r.value.stations[o] == FieldPosition(dims, p)
    ensures r.Ok? ==> forall e :: e in r.value.index <==> exists p :: Stands(fields, p, e)
    ensures r.Ok? ==> forall p, e | Stands(fields, p, e) :: r.value.index[e] == FieldPosition(dims, p)
  {
    if !StationOwnersDistinct(fields) then Err(Fault)
    else
      var stations := map p | p in fields && fields[p].StationField? :: fields[p].owner := FieldPosition(dims, p);
      var index := map p, e | p in fields && e in Occupants(fields) && Stands(fields, p, e)
                              :: e := FieldPosition(dims, p);
      Ok(Board(dims, fields, stations, index))
  }

  /** A board built from fields that file engines under their ids, with
      digit-free owner names, is consistent. */
  lemma BoardOfConsistent(dims: Dimensions, fields: map<Point, Field>)
    requires EnginesPlacedOnce(fields) && StationOwnersDistinct(fields) && KeyedById(fields)
    requires forall p, e | Stands(fields, p, e) :: DigitFree(e.owner)
    ensures Consistent(BoardOf(dims, fields).value)
  {
    var b := BoardOf(dims, fields).value;
    forall e | e in b.index
      ensures Hosts(b.fields, b.index[e].At(), e) && DigitFree(e.owner)
    {
      var p :| Stands(fields, p, e);
      assert b.index[e] == FieldPosition(dims, p);
      HostsIffStands(fields, p, e);
    }
    forall p, e | Hosts(b.fields, p, e)
      ensures e in b.index && b.index[e].At() == p
    {
      HostsIffStands(fields, p, e);
    }
  }

  /** When forests file engines under their ids, standing and being hosted agree. */
  lemma HostsIffStands(fields: map<Point, Field>, p: Point, e: EngineRef)
    requires KeyedById(fields)
    ensures Hosts(fields, p, e) <==> Stands(fields, p, e)
  {
    if Stands(fields, p, e) {
      var id :| id in fields[p].forest.engines && fields[p].forest.engines[id] == e;
    }
  }

  /** The field at a position, looked up by its coordinates. */
  function GetField(b: Board, pos: Position): (r: Option<Field>)
    ensures r.None? <==> pos.At() !in b.fields
    ensures r.Some? ==> r.value == b.fields[pos.At()]
  {
    if pos.At() in b.fields then Some(b.fields[pos.At()]) else None
  }

  /** Where an engine stands, if it is on the board. */
  function GetPosition(b: Board, e: EngineRef): (r: Option<Position>)
    ensures r.None? <==> e !in b.index
    ensures r.Some? ==> r.value == b.index[e]
  {
    if e in b.index then Some(b.index[e]) else None
  }

  /** An engine leaves the board: it leaves the index and the forest it stands
      in. An engine the index does not know is left alone, and so is one
      indexed at a cell without a field; one indexed at a cell that is not a
      forest makes the cast fail. */
  function Remove(b: Board, e: EngineRef): (r: Result<Board, Failure>)
    ensures e !in b.index ==> r == Ok(b)
    ensures e in b.index && b.index[e].At() !in b.fields ==> r == Ok(b)
    ensures e in b.index && IsForestAt(b.fields, b.index[e].At()) ==> (r.Ok? &&
      var at := b.index[e].At();
      r.value.index == b.index - {e} && r.value.dims == b.dims && r.value.stations == b.stations &&
      r.value.fields.Keys == b.fields.Keys &&
      (forall p | p in b.fields && p != at :: r.value.fields[p] == b.fields[p]) &&
      r.value.fields[at] == ForestField(RemoveEngine(b.fields[at].forest, Id(e))))
    ensures r.Err? <==> e in b.index && b.index[e].At() in b.fields && !b.fields[b.index[e].At()].ForestField?
  {
    if e !in b.index then Ok(b)
    else
      var at := b.index[e].At();
      if at !in b.fields then Ok(b)
      else
        match b.fields[at]
        case ForestField(f) =>
          Ok(b.(index := b.index - {e}, fields := b.fields[at := ForestField(RemoveEngine(f, Id(e)))]))
        case _ => Err(Fault)
  }

  /** An engine is placed on a forest: the index records the given position and
      the forest holds the engine. Any other destination is refused. */
  function Place(b: Board, e: EngineRef, pos: Position): (r: Result<Board, Failure>)
    ensures r.Ok? <==> IsForestAt(b.fields, pos.At())
    ensures r.Ok? ==>
      var at := pos.At();
      r.value.index == b.index[e := pos] && r.value.dims == b.dims && r.value.stations == b.stations &&
      r.value.fields.Keys == b.fields.Keys &&
      (forall p | p in b.fields && p != at :: r.value.fields[p] == b.fields[p]) &&
      r.value.fields[at] == ForestField(AddEngine(b.fields[at].forest, e))
  {
    if IsForestAt(b.fields, pos.At()) then
      var at := pos.At();
      Ok(b.(index := b.index[e := pos], fields := b.fields[at := ForestField(AddEngine(b.fields[at].forest, e))]))
    else Err(Fault)
  }

  /** On a consistent board the index and the forests say the same thing. */
  lemma IndexMatchesForests(b: Board, e: EngineRef, p: Point)
    requires Consistent(b)
    ensures (e in b.index && b.index[e].At() == p) <==> Hosts(b.fields, p, e)
  {
  }

  /** On a consistent board removing an indexed engine succeeds and keeps the
      board consistent, with the engine gone from both views. */
  lemma RemoveKeepsConsistent(b: Board, e: EngineRef)
    requires Consistent(b)
    ensures Remove(b, e).Ok?
    ensures var b' := Remove(b, e).value;
      Consistent(b') && e !in b'.index && (forall p :: !Hosts(b'.fields, p, e))
  {
    if e in b.index {
      RemovedHosts(b, e);
      RemovedIndexed(b, e);
    }
  }

  /** After the removal every engine a forest holds is indexed there, and
      the removed one is held nowhere. */
  lemma RemovedHosts(b: Board, e: EngineRef)
    requires Consistent(b) && e in b.index
    ensures Remove(b, e).Ok?
    ensures var b' := Remove(b, e).value;
      KeyedById(b'.fields) && forall p, e' | Hosts(b'.fields, p, e') :: e' != e && e' in b'.index && b'.index[e'].At() == p
  {
    var at := b.index[e].At();
    var b' := Remove(b, e).value;
    var f := b.fields[at].forest;
    assert b'.fields[at].forest == RemoveEngine(f, Id(e));
    forall p, e' | Hosts(b'.fields, p, e')
      ensures e' != e && e' in b'.index && b'.index[e'].At() == p
    {
      if p == at {
        assert Id(e') in RemoveEngine(f, Id(e)).engines;
        assert Id(e') != Id(e);
        assert Hosts(b.fields, p, e');
      } else {
        assert Hosts(b.fields, p, e');
      }
    }
  }

  /** After the removal every engine still indexed is held where it is indexed. */
  lemma RemovedIndexed(b: Board, e: EngineRef)
    requires Consistent(b) && e in b.index
    ensures Remove(b, e).Ok?
    ensures var b' := Remove(b, e).value;
      forall e' | e' in b'.index :: Hosts(b'.fields, b'.index[e'].At(), e') && DigitFree(e'.owner)
  {
    var at := b.index[e].At();
    var b' := Remove(b, e).value;
    var f := b.fields[at].forest;
    assert b'.fields[at].forest == RemoveEngine(f, Id(e));
    forall e' | e' in b'.index
      ensures Hosts(b'.fields, b'.index[e'].At(), e') && DigitFree(e'.owner)
    {
      assert Hosts(b.fields, b.index[e'].At(), e');
      if b.index[e'].At() == at {
        assert Id(e') != Id(e);
      }
    }
  }

  /** On a consistent board an engine that is not on the board can be placed
      on any forest, and the board stays consistent. */
  lemma PlaceKeepsConsistent(b: Board, e: EngineRef, pos: Position)
    requires Consistent(b) && e !in b.index && DigitFree(e.owner)
    requires IsForestAt(b.fields, pos.At())
    ensures Place(b, e, pos).Ok?
    ensures var b' := Place(b, e, pos).value;
      Consistent(b') && e in b'.index && b'.index[e] == pos && Hosts(b'.fields, pos.At(), e)
  {
    var at := pos.At();
    var b' := Place(b, e, pos).value;
    var f := b.fields[at].forest;
    assert b'.fields[at].forest == AddEngine(f, e);
    forall p, e' | Hosts(b'.fields, p, e')
      ensures e' in b'.index && b'.index[e'].At() == p
    {
      if p != at {
        assert Hosts(b.fields, p, e');
      } else if e' != e {
        assert Id(e') != Id(e);
        assert f.engines[Id(e')] == e';
        assert Hosts(b.fields, p, e');
      }
    }
    forall e' | e' in b'.index && e' != e
      ensures Hosts(b'.fields, b'.index[e'].At(), e')
    {
      assert Hosts(b.fields, b.index[e'].At(), e');
      if b.index[e'].At() == at {
        IdInjective(e, e');
      }
    }
  }

  /** A forest an engine may pass through or stop in on its way: not strongly burning. */
  predicate Passable(b: Board, p: Point)
  {
    IsForestAt(b.fields, p) && b.fields[p].forest.state != StrongBurn
  }

  /** Whether `to` is reached from `from` in exactly `steps` orthogonal steps,
      each entering a passable forest. Neighbours are those of `streamAdjacents(false)`. */
  function PathExists(b: Board, from: Position, to: Position, steps: nat): bool
    decreases steps
  {
    if steps == 0 then from.At() == to.At()
    else
      var adj := Adjacents(from, false);
      exists i :: 0 <= i < |adj| && Passable(b, adj[i].At()) && PathExists(b, adj[i], to, steps - 1)
  }

  /** A walk through the cells `w`: orthogonal steps, each entered cell
      passable and inside `bound`. */
  predicate IsWalk(b: Board, bound: Option<Dimensions>, w: seq<Point>)
  {
    |w| >= 1
    && (forall i | 0 <= i < |w| - 1 :: OrthogonalStep(w[i], w[i + 1]))
    && (forall i | 1 <= i < |w| :: Passable(b, w[i]) && Admits(bound, w[i].x, w[i].y))
  }

  /** A walk of exactly `n` steps from `from` to `to`. */
  predicate WalkOf(b: Board, from: Position, to: Position, n: nat, w: seq<Point>)
  {
    IsWalk(b, from.bound, w) && |w| == n + 1 && w[0] == from.At() && w[n] == to.At()
  }

  /** A first step in front of a walk gives a walk one step longer. */
  lemma WalkCons(b: Board, from: Position, q: Position, to: Position, n: nat, rest: seq<Point>)
    requires WalkOf(b, q, to, n, rest) && q.bound == from.bound
    requires OrthogonalStep(from.At(), q.At()) && Passable(b, q.At()) && Admits(from.bound, q.x, q.y)
    ensures WalkOf(b, from, to, n + 1, [from.At()] + rest)
  {
    var w := [from.At()] + rest;
    assert forall k | 1 <= k < |w| :: w[k] == rest[k - 1];
    forall i | 0 <= i < |w| - 1
      ensures OrthogonalStep(w[i], w[i + 1])
    {
      if i > 0 {
        assert w[i] == rest[i - 1] && w[i + 1] == rest[i];
      }
    }
  }

  /** A successful search of `m + 1` steps starts with a step into a
      passable neighbour from which the search succeeds in `m` steps. */
  lemma FirstStep(b: Board, from: Position, to: Position, m: nat) returns (q: Position)
    requires PathExists(b, from, to, m + 1)
    ensures q.bound == from.bound && OrthogonalStep(from.At(), q.At()) && Admits(from.bound, q.x, q.y)
    ensures Passable(b, q.At()) && PathExists(b, q, to, m)
  {
    var adj := Adjacents(from, false);
    var i :| 0 <= i < |adj| && Passable(b, adj[i].At()) && PathExists(b, adj[i], to, m);
    q := adj[i];
    OrthogonalAdjacents(from, q);
  }

  /** A successful search yields a walk of exactly that many steps. */
  lemma {:induction false} PathToWalk(b: Board, from: Position, to: Position, n: nat) returns (w: seq<Point>)
    requires PathExists(b, from, to, n)
    ensures WalkOf(b, from, to, n, w)
    decreases n, 2
  {
    if n == 0 {
      w := WalkOfNone(b, from, to, n);
    } else {
      w := WalkOfSome(b, from, to, n);
    }
  }

  /** A successful search of at least one step yields a walk of that many
      steps. */
  lemma {:induction false} WalkOfSome(b: Board, from: Position, to: Position, n: nat) returns (w: seq<Point>)
    requires n > 0 && PathExists(b, from, to, n)
    ensures WalkOf(b, from, to, n, w)
    decreases n, 1
  {
    w := WalkThrough(b, from, to, n - 1);
  }

  /** A search of no steps succeeds with the walk that stays put. */
  lemma WalkOfNone(b: Board, from: Position, to: Position, n: nat) returns (w: seq<Point>)
    requires n == 0 && PathExists(b, from, to, n)
    ensures WalkOf(b, from, to, n, w) && w == [from.At()]
  {
    w := [from.At()];
  }

  /** A successful search of `m + 1` steps yields a walk of `m + 1` steps:
      its first step followed by the walk the rest of the search yields. */
  lemma {:induction false} WalkThrough(b: Board, from: Position, to: Position, m: nat) returns (w: seq<Point>)
    requires PathExists(b, from, to, m + 1)
    ensures WalkOf(b, from, to, m + 1, w)
    decreases m + 1, 0
  {
    var q := FirstStep(b, from, to, m);
    var rest := PathToWalk(b, q, to, m);
    WalkCons(b, from, q, to, m, rest);
    w := [from.At()] + rest;
  }

  /** Every walk of exactly `n` steps is found by the search. */
  lemma {:induction false} WalkToPath(b: Board, from: Position, to: Position, n: nat, w: seq<Point>)
    requires WalkOf(b, from, to, n, w)
    ensures PathExists(b, from, to, n)
    decreases n
  {
    if n > 0 {
      var q := Position(from.bound, w[1].x, w[1].y);
      OrthogonalAdjacents(from, q);
      var adj := Adjacents(from, false);
      var i :| 0 <= i < |adj| && adj[i] == q;
      var rest := w[1..];
      assert forall k | 0 <= k < |rest| :: rest[k] == w[k + 1];
      assert WalkOf(b, q, to, n - 1, rest);
      WalkToPath(b, q, to, n - 1, rest);
    }
  }

  /** The search succeeds exactly when a walk of exactly `n` steps exists; with
      no steps, exactly when the two cells coincide. */
  lemma PathExistsIffWalk(b: Board, from: Position, to: Position, n: nat)
    ensures PathExists(b, from, to, n) <==> exists w :: WalkOf(b, from, to, n, w)
    ensures n == 0 ==> (PathExists(b, from, to, n) <==> from.At() == to.At())
  {
    if PathExists(b, from, to, n) {
      var w := PathToWalk(b, from, to, n);
    }
    if w :| WalkOf(b, from, to, n, w) {
      WalkToPath(b, from, to, n, w);
    }
  }

  /** Whether `e` may move to `to` in exactly `steps` steps: never onto its own
      cell, off the board, onto a field other than a forest, or onto a fire.
      An engine that is not on the board makes the test fail. */
  function CanMove(b: Board, e: EngineRef, to: Position, steps: nat): (r: Result<bool, Failure>)
    ensures r.Err? <==> e !in b.index
    ensures r == Ok(true) ==>
      var from := b.index[e];
      from.At() != to.At() && PositionInBounds(b.dims, from) && PositionInBounds(b.dims, to) &&
      IsForestAt(b.fields, to.At()) && !IsBurning(b.fields[to.At()].forest.state) &&
      exists w :: WalkOf(b, from, to, steps, w)
    ensures (r.Ok? && PositionInBounds(b.dims, b.index[e]) && PositionInBounds(b.dims, to) &&
      b.index[e].At() != to.At() && IsForestAt(b.fields, to.At()) && !IsBurning(b.fields[to.At()].forest.state) &&
      exists w :: WalkOf(b, b.index[e], to, steps, w)) ==> r == Ok(true)
  {
    if e !in b.index then Err(Fault)
    else
      var from := b.index[e];
      PathExistsIffWalk(b, from, to, steps);
      if from.At() == to.At() || !PositionInBounds(b.dims, from) || !PositionInBounds(b.dims, to)
        || !IsForestAt(b.fields, to.At()) || IsBurning(b.fields[to.At()].forest.state)
      then Ok(false)
      else Ok(PathExists(b, from, to, steps))
  }

  /** The cells holding a forest. */
  function ForestCells(b: Board): (s: set<Point>)
    ensures forall p :: p in s <==> IsForestAt(b.fields, p)
  {
    set p | p in b.fields && b.fields[p].ForestField?
  }
}
