/** Players: a name, the engines the player still holds (by number, with each
    engine's water level) and the counter that numbers new engines. */
module Players {
  import opened Wrappers
  import opened FireEngines

  /** `engines` maps each held engine's number to its water stones. */
  datatype Player = Player(name: string, engines: map<nat, nat>, next: nat)

  /** A new player holds no engines and will number the first one 0. */
  function NewPlayer(name: string): (p: Player)
    ensures p.name == name && p.next == 0
    ensures forall n :: GetEngine(p, n).None?
  {
    Player(name, map[], 0)
  }

  /** Every held number was handed out before: the counter is above all of them. */
  predicate NumbersBelowNext(p: Player)
  {
    forall n | n in p.engines :: n < p.next
  }

  /** Tanks never hold more than they can. */
  predicate TanksInRange(p: Player)
  {
    forall n | n in p.engines :: p.engines[n] <= TankCapacity
  }

  predicate Valid(p: Player) { NumbersBelowNext(p) && TanksInRange(p) }

  /** The engines the player holds. */
  function Engines(p: Player): (s: set<EngineRef>)
    ensures forall e :: e in s <==> e.owner == p.name && e.number in p.engines
  {
    set n | n in p.engines :: EngineRef(p.name, n)
  }

  /** A new engine with a full tank, numbered by the counter, which then moves on. */
  function CreateEngine(p: Player): (r: (Player, EngineRef))
    ensures r.1 == EngineRef(p.name, p.next)
    ensures r.0.name == p.name && r.0.next == p.next + 1
    ensures r.0.engines.Keys == p.engines.Keys + {p.next}
    ensures r.0.engines[p.next] == TankCapacity
    ensures forall n | n in p.engines && n != p.next :: r.0.engines[n] == p.engines[n]
    ensures NumbersBelowNext(p) ==> p.next !in p.engines
    ensures Valid(p) ==> Valid(r.0)
  {
    (p.(engines := p.engines[p.next := NewTank()], next := p.next + 1), EngineRef(p.name, p.next))
  }

  /** The engine numbered `n`, if the player still holds it. */
  function GetEngine(p: Player, n: nat): (r: Option<EngineRef>)
    ensures r.Some? <==> n in p.engines
    ensures r.Some? ==> r.value.owner == p.name && r.value.number == n
  {
    if n in p.engines then Some(EngineRef(p.name, n)) else None
  }

  /** The engine numbered `n` is given up; the counter is not touched. */
  function RemoveEngine(p: Player, n: nat): (r: Player)
    ensures r.name == p.name && r.next == p.next
    ensures r.engines.Keys == p.engines.Keys - {n}
    ensures forall m | m in r.engines :: r.engines[m] == p.engines[m]
    ensures Valid(p) ==> Valid(r)
  {
    p.(engines := p.engines - {n})
  }

  /** Set the water of a held engine. */
  function SetWater(p: Player, n: nat, w: nat): (r: Player)
    requires n in p.engines
    ensures r.name == p.name && r.next == p.next
    ensures r.engines.Keys == p.engines.Keys && r.engines[n] == w
    ensures forall m | m in p.engines && m != n :: r.engines[m] == p.engines[m]
    ensures Valid(p) && w <= TankCapacity ==> Valid(r)
  {
    p.(engines := p.engines[n := w])
  }

  /** The created engine belongs to the player and can be looked up by its number. */
  lemma CreatedEngineIsHeld(p: Player)
    ensures var (q, e) := CreateEngine(p);
      GetEngine(q, e.number) == Some(e) && e in Engines(q) && e.owner == p.name
  {
  }

  /** `k` engines created one after another. */
  function CreateMany(p: Player, k: nat): (r: (Player, seq<EngineRef>))
    ensures |r.1| == k
    decreases k
  {
    if k == 0 then (p, [])
    else
      var (q, es) := CreateMany(p, k - 1);
      var (q', e) := CreateEngine(q);
      (q', es + [e])
  }

  /** Numbers are handed out in increasing order from the counter, and none is
      ever handed out twice, whatever was removed in between. */
  lemma {:induction false} CreateManyNumbers(p: Player, k: nat)
    ensures var (q, es) := CreateMany(p, k);
      q.next == p.next + k && q.name == p.name &&
      (forall i | 0 <= i < k :: es[i] == EngineRef(p.name, p.next + i))
    decreases k
  {
    if k > 0 {
      CreateManyNumbers(p, k - 1);
    }
  }

  /** Removing an engine and creating a new one never brings back the old number. */
  lemma NumbersNeverReused(p: Player, n: nat)
    requires NumbersBelowNext(p) && n in p.engines
    ensures CreateEngine(RemoveEngine(p, n)).1.number != n
  {
  }
}
