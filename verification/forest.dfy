/** Forest fields: the four burn states with their capped successor chain and
    indicator characters, and a forest's occupants, keyed by engine id. */
module Forests {
  import opened Wrappers
  import opened FireEngines
  import T = Text

  /** The burn states, in declaration order. */
  datatype State = Wet | Dry | LightBurn | StrongBurn

  /** `State.values()`: all states in declaration order. */
  function Values(): seq<State> { [Wet, Dry, LightBurn, StrongBurn] }

  function Ordinal(s: State): (n: nat)
    ensures n < |Values()| && Values()[n] == s
  {
    match s
    case Wet => 0
    case Dry => 1
    case LightBurn => 2
    case StrongBurn => 3
  }

  /** The next state under fire: one further in declaration order, capped at the last. */
  function Successor(s: State): (r: State)
    ensures Ordinal(r) == if Ordinal(s) + 1 < |Values()| then Ordinal(s) + 1 else |Values()| - 1
  {
    var next := Ordinal(s) + 1;
    Values()[if next < |Values()| - 1 then next else |Values()| - 1]
  }

  /** Wet becomes dry, dry lightly burning, lightly burning strongly burning, which stays. */
  lemma SuccessorChain()
    ensures Successor(Wet) == Dry && Successor(Dry) == LightBurn
    ensures Successor(LightBurn) == StrongBurn && Successor(StrongBurn) == StrongBurn
  {
  }

  /** `n` applications of `Successor`. */
  function Iterate(s: State, n: nat): State
    decreases n
  {
    if n == 0 then s else Successor(Iterate(s, n - 1))
  }

  /** Fire only ever raises the state, one step at a time, and saturates at strong burn. */
  lemma {:induction false} IterateOrdinal(s: State, n: nat)
    ensures Ordinal(Iterate(s, n)) == if Ordinal(s) + n <= 3 then Ordinal(s) + n else 3
    ensures Ordinal(s) <= Ordinal(Iterate(s, n))
    decreases n
  {
    if n > 0 {
      IterateOrdinal(s, n - 1);
    }
  }

  /** The character a state is shown and read as. */
  function Indicator(s: State): char
  {
    match s
    case Wet => 'w'
    case Dry => 'd'
    case LightBurn => '+'
    case StrongBurn => '*'
  }

  /** The first of `states` whose indicator is `c`. */
  function FirstWithIndicator(states: seq<State>, c: char): (r: Option<State>)
    ensures r.Some? <==> exists i :: 0 <= i < |states| && Indicator(states[i]) == c
    ensures r.Some? ==> r.value in states && Indicator(r.value) == c
    decreases |states|
  {
    if states == [] then None
    else if Indicator(states[0]) == c then Some(states[0])
    else
      assert forall i :: 1 <= i < |states| ==> states[i] == states[1..][i - 1];
      FirstWithIndicator(states[1..], c)
  }

  /** The state with indicator `c`; only w, d, + and * are known. */
  function ByIndicator(c: char): (r: Option<State>)
    ensures r.Some? <==> c == 'w' || c == 'd' || c == '+' || c == '*'
    ensures r.Some? ==> Indicator(r.value) == c
  {
    assert Indicator(Values()[0]) == 'w' && Indicator(Values()[1]) == 'd';
    assert Indicator(Values()[2]) == '+' && Indicator(Values()[3]) == '*';
    FirstWithIndicator(Values(), c)
  }

  /** Reading back the indicator of a state gives the state. */
  lemma ByIndicatorOfIndicator(s: State)
    ensures ByIndicator(Indicator(s)) == Some(s)
  {
    var r := ByIndicator(Indicator(s));
    assert Indicator(r.value) == Indicator(s);
  }

  /** Light and strong burns are fires; wet and dry forests are not. */
  predicate IsBurning(s: State) { s == LightBurn || s == StrongBurn }

  /** A forest: its burn state and the engines standing in it, keyed by their ids. */
  datatype Forest = Forest(state: State, engines: map<string, EngineRef>)

  /** An unoccupied forest in state `s`. */
  function NewForest(s: State): (f: Forest)
    ensures f.state == s && !IsOccupied(f)
  {
    Forest(s, map[])
  }

  /** The state moves on to its successor; the occupants stay. */
  function IncreaseBurning(f: Forest): (r: Forest)
    ensures Ordinal(r.state) == Ordinal(Successor(f.state))
    ensures IsBurning(f.state) ==> IsBurning(r.state)
    ensures r.engines == f.engines
  {
    f.(state := Successor(f.state))
  }

  /** `e` stands in the forest, under its id, replacing any engine with that id. */
  function AddEngine(f: Forest, e: EngineRef): (r: Forest)
    ensures r.state == f.state
    ensures r.engines.Keys == f.engines.Keys + {Id(e)} && r.engines[Id(e)] == e
    ensures forall id | id in f.engines && id != Id(e) :: r.engines[id] == f.engines[id]
  {
    f.(engines := f.engines[Id(e) := e])
  }

  /** The engine with id `id` leaves the forest; nothing happens if none has it. */
  function RemoveEngine(f: Forest, id: string): (r: Forest)
    ensures r.state == f.state
    ensures r.engines.Keys == f.engines.Keys - {id}
    ensures forall k | k in r.engines :: r.engines[k] == f.engines[k]
  {
    f.(engines := f.engines - {id})
  }

  predicate IsOccupied(f: Forest) { |f.engines| > 0 }

  /** Adding an engine whose id is absent and removing it again restores the forest. */
  lemma AddThenRemove(f: Forest, e: EngineRef)
    requires Id(e) !in f.engines
    ensures RemoveEngine(AddEngine(f, e), Id(e)) == f
  {
    assert RemoveEngine(AddEngine(f, e), Id(e)).engines == f.engines;
  }

  /** Removing an id no engine has changes nothing. */
  lemma RemoveAbsent(f: Forest, id: string)
    requires id !in f.engines
    ensures RemoveEngine(f, id) == f
  {
    assert RemoveEngine(f, id).engines == f.engines;
  }

  /** A forest is occupied exactly when some engine stands in it. */
  lemma OccupiedIffSomeEngine(f: Forest)
    ensures IsOccupied(f) <==> exists id :: id in f.engines
  {
    if IsOccupied(f) {
      var id :| id in f.engines.Keys;
    }
  }

  /** `String.compareTo(a, b) < 0`: lexicographic on characters, a proper prefix first. */
  predicate StringBefore(a: string, b: string)
    decreases |a|
  {
    if a == [] then b != []
    else if b == [] then false
    else if a[0] != b[0] then a[0] < b[0]
    else StringBefore(a[1..], b[1..])
  }

  lemma {:induction false} StringBeforeIrreflexive(a: string)
    ensures !StringBefore(a, a)
    decreases |a|
  {
    if a != [] {
      StringBeforeIrreflexive(a[1..]);
    }
  }

  lemma {:induction false} StringBeforeTotal(a: string, b: string)
    ensures a == b || StringBefore(a, b) || StringBefore(b, a)
    decreases |a|
  {
    if a != [] && b != [] && a[0] == b[0] {
      StringBeforeTotal(a[1..], b[1..]);
      if a[1..] == b[1..] {
        assert a == [a[0]] + a[1..] && b == [b[0]] + b[1..];
      }
    }
  }

  lemma {:induction false} StringBeforeTransitive(a: string, b: string, c: string)
    requires StringBefore(a, b) && StringBefore(b, c)
    ensures StringBefore(a, c)
    decreases |a|
  {
    if a != [] && a[0] == b[0] && b[0] == c[0] {
      StringBeforeTransitive(a[1..], b[1..], c[1..]);
    }
  }

  /** The display order of engines: by owner name, then by number. */
  predicate EngineBefore(a: EngineRef, b: EngineRef)
  {
    StringBefore(a.owner, b.owner) || (a.owner == b.owner && a.number < b.number)
  }

  lemma EngineBeforeTotal(a: EngineRef, b: EngineRef)
    ensures a == b || EngineBefore(a, b) || EngineBefore(b, a)
  {
    StringBeforeTotal(a.owner, b.owner);
  }

  lemma EngineBeforeTransitive(a: EngineRef, b: EngineRef, c: EngineRef)
    requires EngineBefore(a, b) && EngineBefore(b, c)
    ensures EngineBefore(a, c)
  {
    if StringBefore(a.owner, b.owner) && StringBefore(b.owner, c.owner) {
      StringBeforeTransitive(a.owner, b.owner, c.owner);
    }
  }

  lemma EngineBeforeIrreflexive(a: EngineRef)
    ensures !EngineBefore(a, a)
  {
    StringBeforeIrreflexive(a.owner);
  }

  /** Every non-empty finite set of engines has a first one in display order. */
  lemma {:induction false} FirstExists(s: set<EngineRef>)
    requires s != {}
    ensures exists m :: m in s && forall x | x in s && x != m :: EngineBefore(m, x)
    decreases |s|
  {
    var y :| y in s;
    var rest := s - {y};
    if rest == {} {
      forall x | x in s
        ensures x == y
      {
        assert x in rest || x == y;
      }
    } else {
      FirstExists(rest);
      var m :| m in rest && forall x | x in rest && x != m :: EngineBefore(m, x);
      EngineBeforeTotal(m, y);
      if EngineBefore(y, m) {
        forall x | x in s && x != y
          ensures EngineBefore(y, x)
        {
          if x != m {
            EngineBeforeTransitive(y, m, x);
          }
        }
      } else {
        assert forall x | x in s && x != m :: EngineBefore(m, x);
      }
    }
  }

  /** The first engine of a non-empty set in display order. */
  ghost function First(s: set<EngineRef>): (m: EngineRef)
    requires s != {}
    ensures m in s && forall x | x in s && x != m :: EngineBefore(m, x)
  {
    FirstExists(s);
    var m :| m in s && forall x | x in s && x != m :: EngineBefore(m, x);
    m
  }

  /** The engines of `s` listed once each in display order. */
  ghost function Sorted(s: set<EngineRef>): (r: seq<EngineRef>)
    ensures |r| == |s|
    ensures forall e :: e in r <==> e in s
    ensures forall i, j | 0 <= i < j < |r| :: EngineBefore(r[i], r[j])
    decreases |s|
  {
    if s == {} then []
    else
      var m := First(s);
      var rest := Sorted(s - {m});
      assert forall i | 0 <= i < |rest| :: rest[i] in s - {m};
      assert forall i | 0 <= i < |rest| :: EngineBefore(m, rest[i]);
      var r := [m] + rest;
      assert forall i | 1 <= i < |r| :: r[i] == rest[i - 1];
      r
  }

  /** The ids of `es`, each preceded by a comma. */
  function CommaIds(es: seq<EngineRef>): (r: string)
    ensures es == [] <==> r == []
    decreases |es|
  {
    if es == [] then [] else "," + Id(es[0]) + CommaIds(es[1..])
  }

  /** The ids of `es`, in order. */
  function Ids(es: seq<EngineRef>): (r: seq<string>)
    ensures |r| == |es| && forall i | 0 <= i < |es| :: r[i] == Id(es[i])
  {
    seq(|es|, i requires 0 <= i < |es| => Id(es[i]))
  }

  /** Writing a comma before each id is joining the ids with commas after
      an empty first piece, as `Collectors.joining(",", ",", "")` does. */
  lemma {:induction false} CommaIdsJoin(es: seq<EngineRef>)
    ensures CommaIds(es) == T.Join([""] + Ids(es), ',')
    decreases |es|
  {
    if es != [] {
      var ids := Ids(es);
      var tail := Ids(es[1..]);
      CommaIdsJoin(es[1..]);
      assert tail == ids[1..];
      assert ([""] + ids)[1..] == ids;
      assert ([""] + tail)[1..] == tail;
      if |ids| == 1 {
        assert T.Join(ids, ',') == ids[0];
        assert T.Join([""] + tail, ',') == "";
      } else {
        assert T.Join(ids, ',') == ids[0] + [','] + T.Join(tail, ',');
      }
    }
  }

  /** The id of an engine whose owner's name has no comma has none either. */
  lemma IdCommaFree(e: EngineRef)
    requires ',' !in e.owner
    ensures ',' !in Id(e)
  {
    var id := Id(e);
    forall k | 0 <= k < |id| ensures id[k] != ',' {
      if k < |e.owner| {
        assert id[k] == id[..|e.owner|][k];
      } else {
        assert id[k] == id[|e.owner|..][k - |e.owner|];
      }
    }
  }

  /** The board cell text: the indicator, then ",id" for each occupant in
      display order. When no owner's name holds a comma, splitting the text
      after the indicator at the commas gives an empty piece followed by
      the occupants' ids in display order. */
  ghost function DisplayString(f: Forest): (r: string)
    ensures |r| >= 1 && ByIndicator(r[0]) == Some(f.state)
    ensures |r| == 1 <==> !IsOccupied(f)
    ensures (forall e | e in f.engines.Values :: ',' !in e.owner) ==>
      T.Split(r[1..], ',') == [""] + Ids(Sorted(f.engines.Values))
  {
    ByIndicatorOfIndicator(f.state);
    var listing := Sorted(f.engines.Values);
    DisplayListing(f, listing);
    if IsOccupied(f) then
      var id :| id in f.engines;
      assert f.engines[id] in f.engines.Values;
      [Indicator(f.state)] + CommaIds(listing)
    else [Indicator(f.state)]
  }

  /** Splitting the comma-led listing of engines whose owners' names hold
      no comma gives an empty piece and then their ids. */
  lemma DisplayListing(f: Forest, listing: seq<EngineRef>)
    requires listing == Sorted(f.engines.Values)
    ensures (forall e | e in f.engines.Values :: ',' !in e.owner) ==>
      T.Split(CommaIds(listing), ',') == [""] + Ids(listing)
    ensures !IsOccupied(f) ==> listing == []
  {
    if forall e | e in f.engines.Values :: ',' !in e.owner {
      var pieces := [""] + Ids(listing);
      forall i | 0 <= i < |pieces| ensures ',' !in pieces[i] {
        if i > 0 {
          assert listing[i - 1] in f.engines.Values;
          IdCommaFree(listing[i - 1]);
        }
      }
      CommaIdsJoin(listing);
      T.SplitJoin(pieces, ',');
    }
    if !IsOccupied(f) {
      assert f.engines.Values == {};
    }
  }
}
