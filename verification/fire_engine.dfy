/** Fire engines. An engine is identified by its owner's name and the number
    its owner gave it; the textual id shown to players is the two written
    together. The engine's water level is kept by its owner (see `Players`),
    and the tank operations below act on that level. */
module FireEngines {
  import opened Decimal

  /** How many water stones a full tank holds. */
  const TankCapacity: nat := 3

  /** Which engine: its owner's name and its number within that owner. */
  datatype EngineRef = EngineRef(owner: string, number: nat)

  /** A name in which no digit occurs, like the player names A to D. */
  predicate DigitFree(name: string)
  {
    forall i :: 0 <= i < |name| ==> !IsDigit(name[i])
  }

  /** The id of an engine: the owner's name followed by the engine number. */
  function Id(e: EngineRef): (id: string)
    ensures |id| > |e.owner| && id[..|e.owner|] == e.owner
    ensures Canonical(id[|e.owner|..]) && Value(id[|e.owner|..]) == e.number
  {
    ValueOfShow(e.number);
    assert (e.owner + Show(e.number))[|e.owner|..] == Show(e.number);
    e.owner + Show(e.number)
  }

  /** The letters that name the players. */
  predicate IsPlayerLetter(c: char) { 'A' <= c <= 'D' }

  /** The shape of an engine id as typed (`FIRE_ENGINE_ID`): a player letter,
      then an engine number without leading zeros. */
  predicate IsEngineId(s: string)
  {
    |s| >= 2 && IsPlayerLetter(s[0]) && Canonical(s[1..])
  }

  /** With digit-free owner names, different engines never share an id. */
  lemma IdInjective(e1: EngineRef, e2: EngineRef)
    requires DigitFree(e1.owner) && DigitFree(e2.owner)
    ensures Id(e1) == Id(e2) ==> e1 == e2
  {
    if Id(e1) == Id(e2) {
      var id := Id(e1);
      if |e1.owner| == |e2.owner| {
        assert e1.owner == id[..|e1.owner|] == e2.owner;
      }
    }
  }

  /** The water of a newly built engine. */
  function NewTank(): (w: nat)
    ensures IsFull(w) && !IsEmpty(w)
  {
    TankCapacity
  }

  predicate IsFull(w: nat) { w == TankCapacity }

  predicate IsEmpty(w: nat) { w == 0 }

  /** A refilled tank is full, whatever it held before. */
  function Refill(w: nat): (r: nat)
    ensures IsFull(r)
  {
    TankCapacity
  }

  /** One stone fewer, except that an empty tank stays empty. */
  function UseWater(w: nat): (r: nat)
    ensures IsEmpty(w) ==> r == w
    ensures !IsEmpty(w) ==> r + 1 == w
  {
    if !IsEmpty(w) then w - 1 else w
  }

  /** The two things that change a tank. */
  datatype TankOp = RefillOp | UseOp

  function Apply(w: nat, op: TankOp): nat
  {
    match op
    case RefillOp => Refill(w)
    case UseOp => UseWater(w)
  }

  /** The water after a sequence of tank operations. */
  function Run(w: nat, ops: seq<TankOp>): nat
    decreases |ops|
  {
    if ops == [] then w else Run(Apply(w, ops[0]), ops[1..])
  }

  /** Starting from a new tank, no sequence of refills and uses leaves [0, 3]. */
  lemma {:induction false} RunStaysInTank(w: nat, ops: seq<TankOp>)
    requires w <= TankCapacity
    ensures Run(w, ops) <= TankCapacity
    decreases |ops|
  {
    if ops != [] {
      RunStaysInTank(Apply(w, ops[0]), ops[1..]);
    }
  }
}
