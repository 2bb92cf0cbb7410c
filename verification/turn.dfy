/** One player's turn: the action points left to each engine, the cells each
    engine has already extinguished, and the engines that may no longer move. */
module Turns {
  import opened Wrappers
  import opened Geometry
  import opened FireEngines
  import opened Players
  import opened Failures

  /** What each engine may spend in a turn. */
  const InitialActionPoints: int := 3

  datatype Turn = Turn(
    player: string,
    points: map<EngineRef, int>,
    extinguished: map<EngineRef, set<Point>>,
    stationary: set<EngineRef>)

  /** Whether `e` has already extinguished the cell `p` in this turn. */
  predicate HasExtinguished(t: Turn, e: EngineRef, p: Point)
  {
    p in (if e in t.extinguished then t.extinguished[e] else {})
  }

  /** Whether `e` may still move in this turn. */
  predicate CanMove(t: Turn, e: EngineRef) { e !in t.stationary }

  /** A fresh turn for `p`: three points for every engine the player holds now,
      no cell extinguished, every engine free to move. */
  function NewTurn(p: Player): (t: Turn)
    ensures t.player == p.name
    ensures forall e :: e in t.points <==> e in Engines(p)
    ensures forall e | e in t.points :: t.points[e] == InitialActionPoints
    ensures forall e, q :: !HasExtinguished(t, e, q)
    ensures forall e :: CanMove(t, e)
  {
    Turn(p.name, map e | e in Engines(p) :: InitialActionPoints, map[], {})
  }

  /** The points `e` has left; an engine the turn does not track has none to
      report, and looking it up fails. */
  function GetPoints(t: Turn, e: EngineRef): (r: Result<int, Failure>)
    ensures r.Ok? <==> e in t.points
    ensures r.Ok? ==> r.value == t.points[e]
  {
    if e in t.points then Ok(t.points[e]) else Err(Fault)
  }

  /** One point fewer for a tracked engine; an untracked one is ignored. */
  function UsePoint(t: Turn, e: EngineRef): (r: Turn)
    ensures r.player == t.player && r.extinguished == t.extinguished && r.stationary == t.stationary
    ensures r.points.Keys == t.points.Keys
    ensures e in t.points ==> r.points[e] == t.points[e] - 1
    ensures forall e' | e' in t.points && e' != e :: r.points[e'] == t.points[e']
  {
    if e in t.points then t.(points := t.points[e := t.points[e] - 1]) else t
  }

  /** Record that `e` extinguished cell `p`; marks of other engines stay as they are. */
  function MarkExtinguished(t: Turn, e: EngineRef, p: Point): (r: Turn)
    ensures r.player == t.player && r.points == t.points && r.stationary == t.stationary
    ensures forall e', q :: HasExtinguished(r, e', q) <==> HasExtinguished(t, e', q) || (e' == e && q == p)
  {
    var marks := if e in t.extinguished then t.extinguished[e] else {};
    t.(extinguished := t.extinguished[e := marks + {p}])
  }

  /** `e` may not move again in this turn. */
  function MarkStationary(t: Turn, e: EngineRef): (r: Turn)
    ensures r.player == t.player && r.points == t.points && r.extinguished == t.extinguished
    ensures forall e' :: CanMove(r, e') <==> CanMove(t, e') && e' != e
  {
    t.(stationary := t.stationary + {e})
  }

  /** An engine of the turn's player gets three points; any other engine is refused. */
  function AddEngine(t: Turn, e: EngineRef): (r: Result<Turn, Failure>)
    ensures r.Err? <==> e.owner != t.player
    ensures r.Ok? ==> r.value.points == t.points[e := InitialActionPoints]
    ensures r.Ok? ==> r.value.player == t.player && r.value.extinguished == t.extinguished
    ensures r.Ok? ==> r.value.stationary == t.stationary
  {
    if e.owner == t.player then Ok(t.(points := t.points[e := InitialActionPoints])) else Err(Fault)
  }

  /** Marking an engine stationary twice is the same as marking it once. */
  lemma MarkStationaryIdempotent(t: Turn, e: EngineRef)
    ensures MarkStationary(MarkStationary(t, e), e) == MarkStationary(t, e)
  {
  }

  /** The marks left by a sequence of extinguishing actions. */
  function MarkAll(t: Turn, marks: seq<(EngineRef, Point)>): Turn
    decreases |marks|
  {
    if marks == [] then t else MarkAll(MarkExtinguished(t, marks[0].0, marks[0].1), marks[1..])
  }

  /** In a turn, `e` has extinguished `p` exactly when that pair was marked
      earlier in the turn: a fresh turn knows no marks, and marks are per engine. */
  lemma {:induction false} ExtinguishedIffMarked(p: Player, marks: seq<(EngineRef, Point)>, e: EngineRef, q: Point)
    ensures HasExtinguished(MarkAll(NewTurn(p), marks), e, q) <==> (e, q) in marks
  {
    MarkAllCollects(NewTurn(p), marks, e, q);
  }

  lemma {:induction false} MarkAllCollects(t: Turn, marks: seq<(EngineRef, Point)>, e: EngineRef, q: Point)
    ensures HasExtinguished(MarkAll(t, marks), e, q) <==> HasExtinguished(t, e, q) || (e, q) in marks
    decreases |marks|
  {
    if marks != [] {
      MarkAllCollects(MarkExtinguished(t, marks[0].0, marks[0].1), marks[1..], e, q);
      assert marks == [marks[0]] + marks[1..];
    }
  }
}
