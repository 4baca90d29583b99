/**
Runs of the address manager: every sequence of calls, started on the empty manager, with
any clock readings and any random draws.
*/
module AddrRuns {
  import opened AddrState
  import opened AddrTables
  import opened AddrMan

  // ----- A pass over the pending collisions -----

  // The clock as read for each pending collision.
  datatype Clock = Clock(now: int, later: map<nat, int>) {
    function At(id: nat): int {
      if id in later then later[id] else now
    }
  }

  lemma HasLeast(todo: set<nat>) returns (least: nat)
    requires todo != {}
    ensures least in todo && IsLeast(least, todo)
    decreases todo
  {
    var x :| x in todo;
    least := x;
    if todo - {x} != {} {
      var y := HasLeast(todo - {x});
      least := if x < y then x else y;
    }
    forall z | z in todo ensures least <= z {
      assert z == x || z in todo - {x};
    }
  }

  predicate IsLeast(x: nat, todo: set<nat>) {
    forall y | y in todo :: x <= y
  }

  ghost function Least(todo: set<nat>): (x: nat)
    requires todo != {}
    ensures x in todo && IsLeast(x, todo)
  {
    SomeLeast(todo);
    var x :| x in todo && IsLeast(x, todo);
    x
  }

  lemma SomeLeast(todo: set<nat>)
    requires todo != {}
    ensures exists x :: x in todo && IsLeast(x, todo)
  {
    var _ := HasLeast(todo);
  }

  // Visits the collisions in ascending order.
  ghost function Sweep(env: Env, s: State, todo: set<nat>, clock: Clock): State
    requires Inv(env, s) && todo <= s.collisions
    decreases todo
  {
    if todo == {} then s else
    var id := Least(todo);
    var s1 := ResolveOne(env, s, id, clock.At(id));
    ResolveOneKeeps(env, s, s1, id, clock.At(id));
    Sweep(env, s1, todo - {id}, clock)
  }

  // The state in which the pass comes to a collision.
  ghost function Reached(env: Env, s: State, todo: set<nat>, clock: Clock, j: nat): (u: State)
    requires Inv(env, s) && todo <= s.collisions && j in todo
    ensures Inv(env, u)
    decreases todo
  {
    var id := Least(todo);
    if id == j then s else
    var s1 := ResolveOne(env, s, id, clock.At(id));
    ResolveOneKeeps(env, s, s1, id, clock.At(id));
    Reached(env, s1, todo - {id}, clock, j)
  }

  // When the pass comes to collision j, which wants the slot, the entry there is still the one
  // from before the pass, is overdue at the clock reading made for j, and goes back to the new
  // table.
  ghost predicate OustedBy(env: Env, s: State, todo: set<nat>, clock: Clock, slot: Slot, j: nat)
    requires Inv(env, s) && todo <= s.collisions && slot in s.tried && s.tried[slot] in s.infos && j in todo
  {
    var u := Reached(env, s, todo, clock, j);
    && slot in u.tried && u.tried[slot] == s.tried[slot] && s.tried[slot] in u.infos
    && u.infos[s.tried[slot]].stats == s.infos[s.tried[slot]].stats
    && Ousted(env, u, ResolveOne(env, u, j, clock.At(j)), j, clock.At(j), slot)
  }

  // A tried slot stays filled, and its entry only gives way to a collision that ousts it.
  ghost predicate Swept(env: Env, s: State, r: State, todo: set<nat>, clock: Clock)
    requires Inv(env, s) && todo <= s.collisions
  {
    forall slot | slot in s.tried ::
      && slot in r.tried && s.tried[slot] in s.infos
      && (r.tried[slot] == s.tried[slot] || exists j | j in todo :: OustedBy(env, s, todo, clock, slot, j))
  }

  // What ousts an entry later in the pass ousts it in the pass.
  lemma OustedLater(env: Env, s: State, s1: State, todo: set<nat>, clock: Clock, slot: Slot, id: nat, j: nat)
    requires Inv(env, s) && todo <= s.collisions && id in todo && id == Least(todo)
    requires s1 == ResolveOne(env, s, id, clock.At(id)) && Inv(env, s1) && todo - {id} <= s1.collisions
    requires slot in s.tried && s.tried[slot] in s.infos && slot in s1.tried && s1.tried[slot] == s.tried[slot]
    requires s.tried[slot] in s1.infos && s1.infos[s.tried[slot]].stats == s.infos[s.tried[slot]].stats
    requires j in todo - {id} && OustedBy(env, s1, todo - {id}, clock, slot, j)
    ensures OustedBy(env, s, todo, clock, slot, j)
  {
    hide Inv, ResolveOne, Ousted;
    assert Reached(env, s, todo, clock, j) == Reached(env, s1, todo - {id}, clock, j);
  }

  lemma SweptOn(env: Env, s: State, s1: State, r: State, id: nat, todo: set<nat>, clock: Clock)
    requires Inv(env, s) && todo <= s.collisions && id in todo && id == Least(todo)
    requires s1 == ResolveOne(env, s, id, clock.At(id)) && Inv(env, s1) && todo - {id} <= s1.collisions
    requires Resolved(env, s, s1, id, clock.At(id)) && Swept(env, s1, r, todo - {id}, clock)
    ensures Swept(env, s, r, todo, clock)
  {
    hide Inv, ResolveOne, OustedBy, Ousted;
    forall slot | slot in s.tried
      ensures slot in r.tried && s.tried[slot] in s.infos
      ensures r.tried[slot] == s.tried[slot] || exists j | j in todo :: OustedBy(env, s, todo, clock, slot, j)
    {
      assert slot in s1.tried;
      if s1.tried[slot] != s.tried[slot] {
        OustedNow(env, s, s1, todo, clock, slot, id);
      } else if r.tried[slot] != s.tried[slot] {
        var j :| j in todo - {id} && OustedBy(env, s1, todo - {id}, clock, slot, j);
        OustedLater(env, s, s1, todo, clock, slot, id, j);
      }
    }
  }

  lemma OustedNow(env: Env, s: State, s1: State, todo: set<nat>, clock: Clock, slot: Slot, id: nat)
    requires Inv(env, s) && todo <= s.collisions && id in todo && id == Least(todo) && slot in s.tried
    requires s.tried[slot] in s.infos && s1 == ResolveOne(env, s, id, clock.At(id))
    requires Ousted(env, s, s1, id, clock.At(id), slot)
    ensures OustedBy(env, s, todo, clock, slot, id)
  {
    hide Inv, ResolveOne, Ousted;
    assert Reached(env, s, todo, clock, id) == s;
  }

  lemma {:induction false} SweepKeeps(env: Env, s: State, todo: set<nat>, clock: Clock)
    requires Inv(env, s) && todo <= s.collisions
    ensures Inv(env, Sweep(env, s, todo, clock)) && Swept(env, s, Sweep(env, s, todo, clock), todo, clock)
    decreases todo
  {
    hide Orderly, Referenced, CollisionsSane, ResolveOne, Resolved, Swept;
    if todo == {} {
      SweptSelf(env, s, clock);
    } else {
      var id := Least(todo);
      var s1 := ResolveOne(env, s, id, clock.At(id));
      ResolveOneKeeps(env, s, s1, id, clock.At(id));
      SweepKeeps(env, s1, todo - {id}, clock);
      SweptOn(env, s, s1, Sweep(env, s1, todo - {id}, clock), id, todo, clock);
    }
  }

  lemma SweptSelf(env: Env, s: State, clock: Clock)
    requires Inv(env, s)
    ensures Swept(env, s, s, {}, clock)
  {
  }

  // ----- Choosing a collision to test -----

  datatype Found = Nothing | Found(service: Service, lastTry: int)

  // The tried entry that a pending collision would evict.
  function SelectTriedCollision(env: Env, s: State, pick: nat): (State, Found)
    requires Inv(env, s) && pick in s.collisions
  {
    if pick !in s.infos then (Erased(s, pick), Nothing) else
    var slot := TriedSlot(env, s.infos[pick].service);
    TriedHolds(env, s, slot);
    var there := s.infos[s.tried[slot]];
    (s, Found(there.service, there.stats.lastTry))
  }

  // What is returned is in the tried table, at the slot the colliding entry wants.
  lemma SelectFinds(env: Env, s: State, pick: nat)
    requires Inv(env, s) && pick in s.collisions && pick in s.infos
    ensures var found := SelectTriedCollision(env, s, pick).1;
            && found.Found? && found.service in s.ids && s.ids[found.service] in s.infos
            && s.infos[s.ids[found.service]].inTried && s.ids[found.service] != pick
            && TriedSlot(env, found.service) == TriedSlot(env, s.infos[pick].service)
            && s.tried[TriedSlot(env, found.service)] == s.ids[found.service]
  {
    hide Orderly;
    var slot := TriedSlot(env, s.infos[pick].service);
    TriedHolds(env, s, slot);
    OwnId(env, s, s.tried[slot]);
  }

  // ----- Runs -----

  datatype Command =
    | Heard(a: Address, source: NetAddr, penalty: int, now: int, later: int, lucky: bool)
    | Worked(service: Service, time: int)
    | Tried(service: Service, countFailure: bool, time: int)
    | Online(service: Service, time: int)
    | Offers(service: Service, services: bv64)
    | Resolve(clock: Clock)
    | Select(pick: nat)
    | Shuffle(p: nat, q: nat)

  ghost function Next(env: Env, s: State, c: Command): State
    requires Inv(env, s)
  {
    match c
    case Heard(a, source, penalty, now, later, lucky) => AddSingle(env, s, a, source, penalty, now, later, lucky).0
    case Worked(a, time) => Good(env, s, a, true, time).0
    case Tried(a, countFailure, time) => FreshSane(env, s, a); Attempt(s, a, countFailure, time)
    case Online(a, time) => FreshSane(env, s, a); Connected(s, a, time)
    case Offers(a, services) => FreshSane(env, s, a); SetServices(s, a, services)
    case Resolve(clock) => Sweep(env, s, s.collisions, clock)
    case Select(pick) => if pick in s.collisions then SelectTriedCollision(env, s, pick).0 else s
    case Shuffle(p, q) => if p < |s.random| && q < |s.random| then SwapRandom(s, p, q) else s
  }

  // A call other than a pass over the collisions leaves every tried entry in its slot.
  ghost predicate TriedKept(env: Env, s: State, r: State, c: Command)
    requires Inv(env, s)
  {
    if c.Resolve? then Swept(env, s, r, s.collisions, c.clock) else TriedStays(s, r)
  }

  lemma NewsKeep(env: Env, s: State, r: State, c: Command)
    requires Inv(env, s) && r == Next(env, s, c) && (c.Tried? || c.Online? || c.Offers?)
    ensures Inv(env, r) && TriedStays(s, r)
  {
    hide Orderly, Referenced, CollisionsSane;
    var a := c.service;
    FreshSane(env, s, a);
    if a in s.ids {
      var id := s.ids[a];
      NewsKeeps(env, s, r, a, r.infos[id].stats, s.lastGood);
    }
  }

  lemma ShuffleKeeps(env: Env, s: State, r: State, p: nat, q: nat)
    requires Inv(env, s) && p < |s.random| && q < |s.random| && r == SwapRandom(s, p, q)
    ensures Inv(env, r) && TriedStays(s, r)
  {
    SwapKeeps(env, s, r, p, q);
    SwapEffect(s, r, p, q);
    ReorderedKeeps(env, s, r);
  }

  lemma ReorderedKeeps(env: Env, s: State, r: State)
    requires Referenced(s.infos, {}) && CollisionsSane(env, s) && Reordered(s, r)
    ensures Referenced(r.infos, {}) && CollisionsSane(env, r) && TriedStays(s, r)
  {
    assert forall x :: x in r.infos <==> x in s.infos.Keys;
  }

  lemma NextKeeps(env: Env, s: State, r: State, c: Command)
    requires Inv(env, s) && r == Next(env, s, c)
    ensures Inv(env, r) && TriedKept(env, s, r, c)
  {
    hide Orderly, Referenced, CollisionsSane, Swept, AddSingle, Good, SwapRandom, Sweep;
    match c
    case Heard(a, source, penalty, now, later, lucky) =>
      AddKeeps(env, s, AddSingle(env, s, a, source, penalty, now, later, lucky), a, source, penalty, now, later, lucky);
    case Worked(a, time) =>
      GoodKeeps(env, s, Good(env, s, a, true, time), a, time);
    case Tried(_, _, _) =>
      NewsKeep(env, s, r, c);
    case Online(_, _) =>
      NewsKeep(env, s, r, c);
    case Offers(_, _) =>
      NewsKeep(env, s, r, c);
    case Resolve(clock) =>
      SweepKeeps(env, s, s.collisions, clock);
    case Select(pick) =>
      ErasedKeeps(env, s, pick, 1);
    case Shuffle(p, q) =>
      if p < |s.random| && q < |s.random| {
        ShuffleKeeps(env, s, r, p, q);
      }
  }

  lemma EmptyInv(env: Env)
    ensures Inv(env, Empty())
  {
    var s := Empty();
    assert forall id :: Slots(s.untested, id) == {};
    assert forall t :: Ids(s.infos, t) == {};
    assert forall t, n :: IdsOn(env, s.infos, t, n) == {};
  }

  // The state after a run.  The structures are consistent whatever the run.
  ghost function Run(env: Env, cs: seq<Command>): (s: State)
    ensures Inv(env, s)
  {
    if cs == [] then
      EmptyInv(env);
      Empty()
    else
      var before, c := Run(env, cs[..|cs| - 1]), cs[|cs| - 1];
      NextKeeps(env, before, Next(env, before, c), c);
      Next(env, before, c)
  }

  // One more call.
  lemma RunStep(env: Env, cs: seq<Command>)
    requires cs != []
    ensures TriedKept(env, Run(env, cs[..|cs| - 1]), Run(env, cs), cs[|cs| - 1])
  {
    hide Inv, Next, TriedKept;
    var before := Run(env, cs[..|cs| - 1]);
    NextKeeps(env, before, Run(env, cs), cs[|cs| - 1]);
  }

  // Over every run, a slot of the tried table that is filled stays filled.
  lemma {:induction false} TriedNeverEmpties(env: Env, cs: seq<Command>, n: nat)
    requires n <= |cs|
    ensures Run(env, cs[..n]).tried.Keys <= Run(env, cs).tried.Keys
  {
    hide Inv, Next, Run;
    if n < |cs| {
      var before := cs[..|cs| - 1];
      TriedNeverEmpties(env, before, n);
      assert before[..n] == cs[..n];
      RunStep(env, cs);
    } else {
      assert cs[..n] == cs;
    }
  }

  // The pass in which an entry loses its tried slot to a collision that ousts it.
  ghost predicate GaveWay(env: Env, cs: seq<Command>, k: nat, slot: Slot, id: nat)
    requires k < |cs|
  {
    && cs[k].Resolve?
    && var s := Run(env, cs[..k]);
    && slot in s.tried && s.tried[slot] == id && id in s.infos
    && exists j | j in s.collisions :: OustedBy(env, s, s.collisions, cs[k].clock, slot, j)
  }

  // Over every run, an entry leaves the tried table only in a pass over the collisions, and
  // only to a colliding entry that wants its slot, when it is overdue at the clock reading
  // made for that collision; it goes to the new table.
  lemma {:induction false} LeavesTried(env: Env, cs: seq<Command>, n: nat, slot: Slot) returns (k: nat)
    requires n <= |cs|
    requires slot in Run(env, cs[..n]).tried
    requires slot in Run(env, cs).tried ==> Run(env, cs).tried[slot] != Run(env, cs[..n]).tried[slot]
    ensures n <= k < |cs| && GaveWay(env, cs, k, slot, Run(env, cs[..n]).tried[slot])
  {
    hide Inv, Next, Run;
    assert cs[..|cs|] == cs;
    var before, id := cs[..|cs| - 1], Run(env, cs[..n]).tried[slot];
    assert before[..n] == cs[..n];
    TriedNeverEmpties(env, before, n);
    RunStep(env, cs);
    if Run(env, before).tried[slot] != id {
      k := LeavesTried(env, before, n, slot);
      assert before[..k] == cs[..k];
    } else {
      k := |cs| - 1;
    }
  }
}
