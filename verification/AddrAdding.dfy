/**
What adding an address takes and what it costs: exactly when an address gets the slot its
source assigns to it, and which entries a run of the address manager can forget.
*/
module AddrAdding {
  import opened AddrState
  import opened AddrTables
  import opened AddrMan
  import opened AddrRuns

  // ----- One slot -----

  // Emptying a slot forgets the entry there exactly if it has no other slot.
  lemma ClearNewForgets(env: Env, s: State, r: State, slot: Slot)
    requires Orderly(env, s) && r == ClearNew(env, s, slot)
    ensures slot !in r.untested
    ensures forall x | x in s.infos ::
      x !in r.infos <==> slot in s.untested && s.untested[slot] == x && |Slots(s.untested, x)| == 1
  {
    hide Delete, Orderly, Deleted, Released, Release;
    ClearNewKeeps(env, s, r, slot);
    SlotHolds(env, s, slot);
    if slot in s.untested {
      var id, s1 := s.untested[slot], Release(s, slot);
      References(env, s, id);
      ReleaseKeeps(env, s, s1, slot);
      ReleaseEffect(s, s1, slot);
      ReleasedMark(s, s1, slot);
      ReleasedCount(s, s1, slot);
      if s1.infos[id].refCount == 0 {
        DeleteKeeps(env, s1, r, id);
        DeletedKeys(s1, r, id);
      }
    }
  }

  lemma ReleasedCount(s: State, r: State, slot: Slot)
    requires Released(s, r, slot)
    ensures r.infos.Keys == s.infos.Keys && r.infos[s.untested[slot]].refCount == s.infos[s.untested[slot]].refCount - 1
  {
  }

  lemma DeletedKeys(s: State, r: State, id: nat)
    requires Deleted(s, r, id)
    ensures r.infos.Keys == s.infos.Keys - {id} && r.untested == s.untested
  {
  }

  lemma References(env: Env, s: State, id: nat)
    requires Orderly(env, s) && id in s.infos
    ensures s.infos[id].refCount == |Slots(s.untested, id)|
  {
  }

  // A slot is empty, or the entry there is terrible.
  predicate Vacant(s: State, slot: Slot, now: int) {
    slot !in s.untested || (s.untested[slot] in s.infos && s.infos[s.untested[slot]].stats.IsTerrible(now))
  }

  // The entry in a slot has another slot.
  predicate Spared(s: State, slot: Slot) {
    slot in s.untested && |Slots(s.untested, s.untested[slot])| > 1
  }

  // An entry gets the slot exactly if it is not there yet and the slot is empty, or the entry
  // there is terrible, or has another slot while this one has none.  Only a terrible entry is
  // forgotten for it; without any slot the entry itself is.
  lemma InsertExactly(env: Env, s: State, r: (State, bool), id: nat, source: NetAddr, now: int)
    requires Orderly(env, s) && id in s.infos && !s.infos[id].inTried
    requires s.infos[id].refCount < NEW_BUCKETS_PER_ADDRESS && r == Insert(env, s, id, source, now)
    ensures var slot := NewSlot(env, s.infos[id].service, source);
            && (r.1 <==>
                && slot !in Slots(s.untested, id)
                && (Vacant(s, slot, now) || (Spared(s, slot) && Slots(s.untested, id) == {})))
            && (r.1 ==> slot in r.0.untested && r.0.untested[slot] == id)
    ensures id !in r.0.infos <==> !r.1 && Slots(s.untested, id) == {}
    ensures forall x | x in s.infos && x !in r.0.infos && x != id :: s.infos[x].stats.IsTerrible(now)
    ensures forall x | x in r.0.infos :: x in s.infos && r.0.infos[x].service == s.infos[x].service
  {
    hide Orderly, ClearNew, Delete;
    var slot := NewSlot(env, s.infos[id].service, source);
    SlotHolds(env, s, slot);
    References(env, s, id);
    if slot in s.untested {
      References(env, s, s.untested[slot]);
    }
    InsertKeeps(env, s, r, id, source, now);
    if r.1 {
      ClearNewForgets(env, s, ClearNew(env, s, slot), slot);
    } else if s.infos[id].refCount == 0 {
      DeleteKeeps(env, s, r.0, id);
    }
  }

  // ----- One address -----

  // Adding never forgets an entry that is not terrible.
  lemma AddForgetsOnlyTerrible(env: Env, s: State, r: (State, bool), a: Address, source: NetAddr, penalty: int,
                               now: int, later: int, lucky: bool)
    requires Inv(env, s) && r == AddSingle(env, s, a, source, penalty, now, later, lucky)
    ensures forall x | x in s.infos :: x in r.0.infos || s.infos[x].stats.IsTerrible(later)
  {
    hide Orderly, Insert, Create, CollisionsSane, Refreshed;
    FreshSane(env, s, a.service);
    var timePenalty := if a.service in env.hosts && env.hosts[a.service] == source then 0 else penalty;
    if a.service in env.routable {
      if a.service in s.ids {
        var id := s.ids[a.service];
        var stats := Refreshed(s.infos[id].stats, a, timePenalty, now);
        var s1 := WithStats(s, id, stats);
        StatsKeep(env, s, s1, id, stats);
        if r.0 != s1 {
          References(env, s, id);
          InsertExactly(env, s1, r, id, source, later);
        }
      } else {
        var stats := FirstStats(a, source, timePenalty);
        var s1 := Create(env, s, a.service, stats);
        CreateKeeps(env, s, s1, a.service, stats);
        InsertExactly(env, s1, r, s.idCount, source, later);
      }
    }
  }

  // An address that is not known is taken, and is known afterwards, exactly if the slot its
  // source assigns to it is empty, or the entry there is terrible or has another slot.  It is
  // then in that slot.
  lemma AddUnknownExactly(env: Env, s: State, r: (State, bool), a: Address, source: NetAddr, penalty: int, now: int,
                          later: int, lucky: bool)
    requires Inv(env, s) && r == AddSingle(env, s, a, source, penalty, now, later, lucky)
    requires a.service in env.routable && a.service !in s.ids
    ensures var slot := NewSlot(env, a.service, source);
            && (r.1 <==> Vacant(s, slot, later) || Spared(s, slot))
            && (a.service in r.0.ids <==> r.1)
            && (r.1 ==> slot in r.0.untested && r.0.untested[slot] == r.0.ids[a.service])
  {
    hide Orderly, Insert, Create, CollisionsSane, Referenced;
    FreshSane(env, s, a.service);
    var timePenalty := if a.service in env.hosts && env.hosts[a.service] == source then 0 else penalty;
    var stats := FirstStats(a, source, timePenalty);
    var s1, id := Create(env, s, a.service, stats), s.idCount;
    CreateKeeps(env, s, s1, a.service, stats);
    CreateEffect(env, s, s1, a.service, stats);
    InsertKeeps(env, s1, r, id, source, later);
    InsertExactly(env, s1, r, id, source, later);
    References(env, s1, id);
    SlotHolds(env, s, NewSlot(env, a.service, source));
    OnlyKnown(env, r.0, a.service, id);
    if a.service in r.0.ids {
      OnlyKnown(env, s1, a.service, r.0.ids[a.service]);
    }
  }

  lemma CreateEffect(env: Env, s: State, r: State, a: Service, stats: Stats)
    requires r == Create(env, s, a, stats)
    ensures r.untested == s.untested && r.ids == s.ids[a := s.idCount]
  {
  }

  lemma OnlyKnown(env: Env, s: State, a: Service, id: nat)
    requires Orderly(env, s)
    ensures id in s.infos && s.infos[id].service == a ==> a in s.ids && s.ids[a] == id
    ensures a in s.ids ==> s.ids[a] in s.infos && s.infos[s.ids[a]].service == a
  {
  }

  // A known address gets a further slot exactly if the news is later than what is recorded
  // for it, it is not in the tried table, has fewer than eight slots, wins the draw, is not in
  // the slot yet, and the slot is empty or its entry terrible.  It is then in that slot, and
  // it stays known in any case.
  lemma AddKnownExactly(env: Env, s: State, r: (State, bool), a: Address, source: NetAddr, penalty: int, now: int,
                        later: int, lucky: bool)
    requires Inv(env, s) && r == AddSingle(env, s, a, source, penalty, now, later, lucky)
    requires a.service in env.routable && a.service in s.ids
    ensures var slot, id := NewSlot(env, a.service, source), s.ids[a.service];
            && id in s.infos && id in r.0.infos && r.0.infos[id].service == a.service
            && (r.1 <==>
                && a.time > r.0.infos[id].stats.time && !s.infos[id].inTried && |Slots(s.untested, id)| < 8 && lucky
                && slot !in Slots(s.untested, id) && Vacant(s, slot, later))
            && (r.1 ==> slot in r.0.untested && r.0.untested[slot] == id)
            && (!r.1 ==> r.0.untested == s.untested)
  {
    hide Orderly, Insert, CollisionsSane, Refreshed;
    FreshSane(env, s, a.service);
    var timePenalty := if a.service in env.hosts && env.hosts[a.service] == source then 0 else penalty;
    var id, slot := s.ids[a.service], NewSlot(env, a.service, source);
    var stats := Refreshed(s.infos[id].stats, a, timePenalty, now);
    var s1 := WithStats(s, id, stats);
    StatsKeep(env, s, s1, id, stats);
    References(env, s, id);
    SlotHolds(env, s, slot);
    if !(a.time <= stats.time || s.infos[id].inTried || s.infos[id].refCount == NEW_BUCKETS_PER_ADDRESS
         || (s.infos[id].refCount > 0 && !lucky))
    {
      InsertKeeps(env, s1, r, id, source, later);
      InsertExactly(env, s1, r, id, source, later);
      InsertNothing(env, s1, r, id, source, later);
    }
  }

  lemma InsertNothing(env: Env, s: State, r: (State, bool), id: nat, source: NetAddr, now: int)
    requires Orderly(env, s) && id in s.infos && s.infos[id].refCount > 0 && r == Insert(env, s, id, source, now)
    ensures r.1 || r.0 == s
  {
    hide Orderly, ClearNew, Link;
  }

  // The recorded time never goes back, never leaves the heard time more than the penalty and
  // a day behind, and never passes the heard time less the penalty unless it did before.
  lemma TimeFollows(stats: Stats, a: Address, penalty: int, now: int)
    ensures var r := Refreshed(stats, a, penalty, now);
            && stats.time <= r.time && a.time - penalty - 86400 <= r.time
            && (now - a.time < 86400 ==> a.time - penalty - 3600 <= r.time)
            && (r.time == stats.time || (r.time == Max(0, a.time - penalty) && a.time - penalty > stats.time + 3600))
            && r == stats.(time := r.time, services := r.services)
  {
  }

  // No service offered before or now is lost.
  lemma ServicesGathered(stats: Stats, a: Address, penalty: int, now: int)
    ensures Refreshed(stats, a, penalty, now).services & stats.services == stats.services
    ensures Refreshed(stats, a, penalty, now).services & a.services == a.services
  {
    Union(stats.services, a.services);
  }

  lemma Union(x: bv64, y: bv64)
    ensures (x | y) & x == x && (x | y) & y == y
  {
  }

  // ----- Moving to the tried table -----

  lemma OnlySlot(table: Table, slot: Slot, id: nat)
    requires slot in table && table[slot] == id && |Slots(table, id)| == 1
    ensures Slots(table, id) == {slot}
  {
    SizeLess(Slots(table, id), Slots(table, id) - {slot}, slot);
  }

  // Moving a tried entry back forgets at most the entry whose only slot it needs.
  lemma EvictForgets(env: Env, s: State, r: State, id: nat)
    requires Orderly(env, s) && id in s.infos && s.infos[id].inTried && s.infos[id].refCount == 0
    requires r == Evict(env, s, id)
    ensures forall x | x in s.infos && x !in r.infos :: Slots(s.untested, x) == {HomeSlot(env, s.infos[id])}
  {
    hide Orderly, ClearNew;
    var s1, slot := Demote(env, s, id), HomeSlot(env, s.infos[id]);
    DemoteKeeps(env, s, s1, id);
    var s2 := ClearNew(env, s1, slot);
    EvictSteps(env, s, s1, s2, id, slot);
    ClearNewForgets(env, s1, s2, slot);
    forall x | x in s.infos && x !in r.infos ensures Slots(s.untested, x) == {slot} {
      OnlySlot(s.untested, slot, x);
    }
  }

  lemma OtherSlots(s: State, r: State, id: nat, x: nat)
    requires id in s.infos && r == Unlink(s, id) && x != id
    ensures Slots(r.untested, x) == Slots(s.untested, x)
  {
  }

  // Moving an entry to the tried table forgets at most the entry whose only slot the entry
  // that was there needs.
  lemma MakeTriedForgets(env: Env, s: State, r: State, id: nat)
    requires Orderly(env, s) && id in s.infos && !s.infos[id].inTried && r == MakeTried(env, s, id)
    ensures var slot := TriedSlot(env, s.infos[id].service);
            forall x | x in s.infos && x !in r.infos ::
              && slot in s.tried && s.tried[slot] in s.infos
              && Slots(s.untested, x) == {HomeSlot(env, s.infos[s.tried[slot]])}
  {
    hide Orderly, Evict, Evicted;
    MakeTriedKeeps(env, s, r, id);
    var s1, slot := Unlink(s, id), TriedSlot(env, s.infos[id].service);
    UnlinkKeeps(env, s, s1, id);
    TriedHolds(env, s1, slot);
    if slot in s1.tried {
      var was := s1.tried[slot];
      var s2 := Evict(env, s1, was);
      EvictKeeps(env, s1, s2, was);
      EvictForgets(env, s1, s2, was);
      StillThere(env, s1, s2, was, id);
      forall x | x in s.infos && x !in r.infos ensures Slots(s.untested, x) == Slots(s1.untested, x) {
        OtherSlots(s, s1, id, x);
      }
    }
  }

  // The entry had one slot, which the entry ousted from the tried table goes back to.
  ghost predicate Displaced(env: Env, s: State, r: State, j: nat, now: int, x: nat) {
    && j in s.infos
    && var slot := TriedSlot(env, s.infos[j].service);
    && Ousted(env, s, r, j, now, slot) && Slots(s.untested, x) == {HomeSlot(env, s.infos[s.tried[slot]])}
  }

  lemma ReplaceForgets(env: Env, s: State, r: State, id: nat, now: int)
    requires Inv(env, s) && id in s.collisions && id in s.infos && r == Replace(env, s, id, now)
    ensures var slot := TriedSlot(env, s.infos[id].service);
            && slot in s.tried && s.tried[slot] in s.infos
            && forall x | x in s.infos && x !in r.infos ::
                 Slots(s.untested, x) == {HomeSlot(env, s.infos[s.tried[slot]])}
  {
    hide Orderly, MakeTried, MadeTried, WithStats, Resolved;
    var a, slot := s.infos[id].service, TriedSlot(env, s.infos[id].service);
    OwnId(env, s, id);
    TriedHolds(env, s, slot);
    var stats := Succeeded(s.infos[id].stats, now);
    var s1 := WithStats(s, id, stats).(lastGood := now);
    FreshSane(env, s, a);
    NewsKeeps(env, s, s1, a, stats, now);
    assert s1.infos.Keys == s.infos.Keys;
    RestatedAt(s, s1, id);
    MakeTriedForgets(env, s1, MakeTried(env, s1, id), id);
    assert r.infos == MakeTried(env, s1, id).infos;
  }

  // Looking at a collision forgets at most one entry, which is displaced.
  lemma ResolveOneForgets(env: Env, s: State, r: State, id: nat, now: int)
    requires Inv(env, s) && id in s.collisions && r == ResolveOne(env, s, id, now)
    ensures forall x | x in s.infos && x !in r.infos :: Displaced(env, s, r, id, now, x)
  {
    hide Orderly, Replace, Referenced;
    ResolveOneKeeps(env, s, r, id, now);
    if r.infos != s.infos {
      var slot := TriedSlot(env, s.infos[id].service);
      TriedHolds(env, s, slot);
      ReplaceForgets(env, s, r, id, now);
      ReplaceTakes(env, s, r, id, now);
    }
  }

  // The entry is displaced when the pass comes to collision j.
  ghost predicate DisplacedBy(env: Env, s: State, todo: set<nat>, clock: Clock, x: nat, j: nat)
    requires Inv(env, s) && todo <= s.collisions && j in todo
  {
    var u := Reached(env, s, todo, clock, j);
    x in u.infos && Displaced(env, u, ResolveOne(env, u, j, clock.At(j)), j, clock.At(j), x)
  }

  lemma {:induction false} SweepForgets(env: Env, s: State, todo: set<nat>, clock: Clock, x: nat) returns (j: nat)
    requires Inv(env, s) && todo <= s.collisions && x in s.infos && x !in Sweep(env, s, todo, clock).infos
    ensures j in todo && DisplacedBy(env, s, todo, clock, x, j)
    decreases todo
  {
    hide Orderly, Referenced, CollisionsSane, ResolveOne, Resolved, Displaced;
    var id := Least(todo);
    var s1 := ResolveOne(env, s, id, clock.At(id));
    ResolveOneKeeps(env, s, s1, id, clock.At(id));
    if x in s1.infos {
      j := SweepForgets(env, s1, todo - {id}, clock, x);
    } else {
      j := id;
      ResolveOneForgets(env, s, s1, id, clock.At(id));
    }
  }

  // ----- Runs -----

  // The call that forgets an entry: an address is heard while the entry is terrible, or a pass
  // over the collisions displaces it.
  ghost predicate Forgets(env: Env, s: State, c: Command, x: nat)
    requires Inv(env, s)
  {
    && x in s.infos
    && match c
       case Heard(_, _, _, _, later, _) => s.infos[x].stats.IsTerrible(later)
       case Resolve(clock) => exists j | j in s.collisions :: DisplacedBy(env, s, s.collisions, clock, x, j)
       case _ => false
  }

  lemma GoodForgetsNone(env: Env, s: State, r: (State, bool), a: Service, time: int)
    requires Inv(env, s) && r == Good(env, s, a, true, time)
    ensures s.infos.Keys <= r.0.infos.Keys
  {
    hide Orderly, MakeTried, CollisionsSane, Referenced, WithStats;
    FreshSane(env, s, a);
    if a in s.ids {
      var id := s.ids[a];
      var stats := Succeeded(s.infos[id].stats, time);
      var s1 := WithStats(s, id, stats).(lastGood := time);
      NewsKeeps(env, s, s1, a, stats, time);
      if r.1 {
        MakeTriedForgets(env, s1, r.0, id);
      }
    }
  }

  lemma NewsForgetsNone(env: Env, s: State, r: State, c: Command)
    requires Inv(env, s) && r == Next(env, s, c) && (c.Tried? || c.Online? || c.Offers? || c.Select? || c.Shuffle?)
    ensures s.infos.Keys <= r.infos.Keys
  {
    hide Orderly, Referenced, CollisionsSane, SwapRandom;
    match c
    case Shuffle(p, q) =>
      if p < |s.random| && q < |s.random| {
        SwapKeeps(env, s, r, p, q);
      }
    case _ =>
  }

  lemma NextForgets(env: Env, s: State, r: State, c: Command, x: nat)
    requires Inv(env, s) && r == Next(env, s, c) && x in s.infos && x !in r.infos
    ensures Forgets(env, s, c, x)
  {
    hide Orderly, Referenced, CollisionsSane, AddSingle, Good, SwapRandom, Sweep, DisplacedBy;
    match c
    case Heard(a, source, penalty, now, later, lucky) =>
      AddForgetsOnlyTerrible(env, s, AddSingle(env, s, a, source, penalty, now, later, lucky), a, source, penalty, now,
                             later, lucky);
    case Worked(a, time) =>
      GoodForgetsNone(env, s, Good(env, s, a, true, time), a, time);
      assert false;
    case Resolve(clock) =>
      var _ := SweepForgets(env, s, s.collisions, clock, x);
    case _ =>
      NewsForgetsNone(env, s, r, c);
      assert false;
  }

  // Over every run, an entry is forgotten only when an address is heard while the entry is
  // terrible, or when its only slot goes to an entry ousted from the tried table.
  lemma {:induction false} ForgottenOnly(env: Env, cs: seq<Command>, n: nat, x: nat) returns (k: nat)
    requires n <= |cs| && x in Run(env, cs[..n]).infos && x !in Run(env, cs).infos
    ensures n <= k < |cs| && Forgets(env, Run(env, cs[..k]), cs[k], x)
  {
    hide Inv, Next, Run, Forgets;
    assert cs[..|cs|] == cs;
    var before := cs[..|cs| - 1];
    assert before[..n] == cs[..n];
    if x in Run(env, before).infos {
      k := |cs| - 1;
      RunNext(env, cs);
      NextForgets(env, Run(env, before), Run(env, cs), cs[k], x);
    } else {
      k := ForgottenOnly(env, before, n, x);
      assert before[..k] == cs[..k];
    }
  }

  lemma RunNext(env: Env, cs: seq<Command>)
    requires cs != []
    ensures Run(env, cs) == Next(env, Run(env, cs[..|cs| - 1]), cs[|cs| - 1])
  {
    hide Inv, Next;
  }
}
