/** Board geometry: rectangular dimensions, positions that may carry a bound,
    the orthogonal and diagonal neighbourhoods of a position, and the four
    compass orientations. The x axis is vertical (rows), y is horizontal. */
module Geometry {
  import opened Wrappers

  /** Width and height of a board; `Of` only builds positive ones. */
  datatype Dimensions = Dimensions(width: int, height: int)

  /** Height first, then width, as the factory takes them. */
  function DimensionsOf(height: int, width: int): (r: Option<Dimensions>)
    ensures r.Some? <==> width > 0 && height > 0
    ensures r.Some? ==> r.value.width == width && r.value.height == height
  {
    if width > 0 && height > 0 then Some(Dimensions(width, height)) else None
  }

  /** (x, y) lies on a board of dimensions `d`: x counts rows, y columns. */
  predicate InBounds(d: Dimensions, x: int, y: int)
  {
    x >= 0 && y >= 0 && x < d.height && y < d.width
  }

  /** The identity of a position: its coordinates. */
  datatype Point = Point(x: int, y: int)

  /** A coordinate pair, optionally tied to the dimensions it must stay inside. */
  datatype Position = Position(bound: Option<Dimensions>, x: int, y: int) {
    /** What equality and hashing look at: the coordinates, never the bound. */
    function At(): Point { Point(x, y) }
  }

  /** The two positions are equal in the sense of `Position.equals`. */
  predicate SamePlace(p: Position, q: Position) { p.At() == q.At() }

  /** The bounds test applied to a position looks at its coordinates only. */
  predicate PositionInBounds(d: Dimensions, p: Position) { InBounds(d, p.x, p.y) }

  predicate Admits(bound: Option<Dimensions>, x: int, y: int)
  {
    bound.None? || InBounds(bound.value, x, y)
  }

  /** An unbounded position at (x, y); never fails. */
  function Unbounded(x: int, y: int): (p: Position)
    ensures p.bound.None? && p.At() == Point(x, y)
  {
    Position(None, x, y)
  }

  /** A position bound by `bound`, or nothing if (x, y) lies outside it. */
  function PositionOf(bound: Option<Dimensions>, x: int, y: int): (r: Option<Position>)
    ensures r.None? <==> bound.Some? && !InBounds(bound.value, x, y)
    ensures r.Some? ==> r.value == Position(bound, x, y)
  {
    if Admits(bound, x, y) then Some(Position(bound, x, y)) else None
  }

  /** `p` moved by (dx, dy), keeping its bound; nothing if it would leave it. */
  function Add(p: Position, dx: int, dy: int): (r: Option<Position>)
    ensures r.None? <==> p.bound.Some? && !InBounds(p.bound.value, p.x + dx, p.y + dy)
    ensures r.Some? ==> r.value.bound == p.bound && r.value.x == p.x + dx && r.value.y == p.y + dy
  {
    PositionOf(p.bound, p.x + dx, p.y + dy)
  }

  /** An unbounded position can always be moved. */
  lemma UnboundedAddSucceeds(p: Position, dx: int, dy: int)
    requires p.bound.None?
    ensures Add(p, dx, dy) == Some(Position(None, p.x + dx, p.y + dy))
  {
  }

  /** The offsets tried by `streamAdjacents`, in the order it tries them. */
  function OrthogonalOffsets(): seq<(int, int)>
  {
    [(1, 0), (-1, 0), (0, 1), (0, -1)]
  }

  function DiagonalOffsets(): seq<(int, int)>
  {
    [(1, -1), (-1, 1), (1, 1), (-1, -1)]
  }

  function Offsets(includeDiagonals: bool): seq<(int, int)>
  {
    if includeDiagonals then OrthogonalOffsets() + DiagonalOffsets() else OrthogonalOffsets()
  }

  /** The successful moves of `p` by each offset, in order. */
  function AddAll(p: Position, offsets: seq<(int, int)>): (r: seq<Position>)
    ensures |r| <= |offsets|
    ensures forall q :: q in r <==>
      (exists i :: 0 <= i < |offsets| && Add(p, offsets[i].0, offsets[i].1) == Some(q))
  {
    if offsets == [] then []
    else
      var rest := AddAll(p, offsets[1..]);
      assert forall i :: 1 <= i < |offsets| ==> offsets[i] == offsets[1..][i - 1];
      match Add(p, offsets[0].0, offsets[0].1)
      case Some(q) => [q] + rest
      case None => rest
  }

  /** The in-bound neighbours of `p`: four orthogonal ones, plus four diagonal ones if asked. */
  function Adjacents(p: Position, includeDiagonals: bool): seq<Position>
  {
    AddAll(p, Offsets(includeDiagonals))
  }

  /** `q` is one orthogonal step away from `p`. */
  predicate OrthogonalStep(p: Point, q: Point)
  {
    || ((q.x - p.x == 1 || q.x - p.x == -1) && q.y == p.y)
    || ((q.y - p.y == 1 || q.y - p.y == -1) && q.x == p.x)
  }

  /** `q` is one king's move away from `p` (orthogonal or diagonal). */
  predicate KingStep(p: Point, q: Point)
  {
    -1 <= q.x - p.x <= 1 && -1 <= q.y - p.y <= 1 && p != q
  }

  /** The orthogonal adjacents are exactly the in-bound orthogonal steps. */
  lemma OrthogonalAdjacents(p: Position, q: Position)
    ensures q in Adjacents(p, false) <==>
      q.bound == p.bound && OrthogonalStep(p.At(), q.At()) && Admits(p.bound, q.x, q.y)
  {
    var offs := OrthogonalOffsets();
    if q.bound == p.bound && OrthogonalStep(p.At(), q.At()) && Admits(p.bound, q.x, q.y) {
      var d := (q.x - p.x, q.y - p.y);
      var i := if d == offs[0] then 0 else if d == offs[1] then 1 else if d == offs[2] then 2 else 3;
      assert Add(p, offs[i].0, offs[i].1) == Some(q);
    }
  }

  /** With diagonals the adjacents are exactly the in-bound king's moves. */
  lemma AllAdjacents(p: Position, q: Position)
    ensures q in Adjacents(p, true) <==>
      q.bound == p.bound && KingStep(p.At(), q.At()) && Admits(p.bound, q.x, q.y)
  {
    var offs := Offsets(true);
    assert offs == [(1, 0), (-1, 0), (0, 1), (0, -1), (1, -1), (-1, 1), (1, 1), (-1, -1)];
    if q.bound == p.bound && KingStep(p.At(), q.At()) && Admits(p.bound, q.x, q.y) {
      var d := (q.x - p.x, q.y - p.y);
      var i := if d == offs[0] then 0 else if d == offs[1] then 1 else if d == offs[2] then 2
               else if d == offs[3] then 3 else if d == offs[4] then 4 else if d == offs[5] then 5
               else if d == offs[6] then 6 else 7;
      assert Add(p, offs[i].0, offs[i].1) == Some(q);
    }
  }

  /** At most eight neighbours, and a position is never its own neighbour. */
  lemma AdjacentsShape(p: Position, includeDiagonals: bool)
    ensures |Adjacents(p, includeDiagonals)| <= 8
    ensures forall q :: q in Adjacents(p, includeDiagonals) ==> !SamePlace(p, q)
  {
    forall q | q in Adjacents(p, includeDiagonals)
      ensures !SamePlace(p, q)
    {
      if includeDiagonals { AllAdjacents(p, q); } else { OrthogonalAdjacents(p, q); }
    }
  }

  /** Within one bound adjacency is symmetric. */
  lemma AdjacencySymmetric(p: Position, q: Position, includeDiagonals: bool)
    requires p.bound == q.bound
    requires Admits(p.bound, p.x, p.y) && Admits(q.bound, q.x, q.y)
    ensures q in Adjacents(p, includeDiagonals) <==> p in Adjacents(q, includeDiagonals)
  {
    AdjacentsIff(p, q, includeDiagonals);
    AdjacentsIff(q, p, includeDiagonals);
  }

  /** The neighbours of `p`, with or without diagonals, are the in-bound
      positions one king's move or one orthogonal step away. */
  lemma AdjacentsIff(p: Position, q: Position, includeDiagonals: bool)
    ensures q in Adjacents(p, includeDiagonals) <==>
      q.bound == p.bound && Admits(p.bound, q.x, q.y)
      && (if includeDiagonals then KingStep(p.At(), q.At()) else OrthogonalStep(p.At(), q.At()))
  {
    if includeDiagonals {
      AllAdjacents(p, q);
    } else {
      OrthogonalAdjacents(p, q);
    }
  }

  /** The four main orientations, in declaration order. */
  datatype Orientation = North | East | South | West

  function AllOrientations(): seq<Orientation> { [North, East, South, West] }

  /** The unit vector of an orientation, as (dx, dy). */
  function Vector(o: Orientation): (int, int)
  {
    match o
    case North => (-1, 0)
    case East => (0, 1)
    case South => (1, 0)
    case West => (0, -1)
  }

  function Opposite(o: Orientation): Orientation
  {
    match o
    case North => South
    case East => West
    case South => North
    case West => East
  }

  /** The neighbour of `p` in direction `o`, or nothing if it leaves the bound. */
  function Adjacent(o: Orientation, p: Position): (r: Option<Position>)
    ensures r.None? <==> p.bound.Some? && !InBounds(p.bound.value, p.x + Vector(o).0, p.y + Vector(o).1)
    ensures r.Some? ==> r.value.bound == p.bound && OrthogonalStep(p.At(), r.value.At())
    ensures r.Some? ==> r.value.x == p.x + Vector(o).0 && r.value.y == p.y + Vector(o).1
  {
    Add(p, Vector(o).0, Vector(o).1)
  }

  /** A step and a step back in the opposite direction return to the start. */
  lemma OppositeCancels(o: Orientation, p: Position)
    requires Admits(p.bound, p.x, p.y)
    requires Adjacent(o, p).Some?
    ensures Adjacent(Opposite(o), Adjacent(o, p).value) == Some(p)
  {
  }

  /** Stepping in each of the four orientations reaches exactly the orthogonal adjacents. */
  lemma OrientationsCoverAdjacents(p: Position, q: Position)
    ensures q in Adjacents(p, false) <==> exists o :: Adjacent(o, p) == Some(q)
  {
    OrthogonalAdjacents(p, q);
    if q in Adjacents(p, false) {
      var o := if q.x == p.x - 1 then North else if q.x == p.x + 1 then South
               else if q.y == p.y + 1 then East else West;
      assert Adjacent(o, p) == Some(q);
    }
  }
}
