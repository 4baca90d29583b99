/**
The address manager as it is kept in memory: maps, a list of ids and two flat tables in
which -1 marks an empty slot, all updated in place.  Each method is proved to do what
the operation of the same name in `AddrTables`, `AddrMan` or `AddrRuns` does to the
value of the whole structure.
*/
module AddrManager {
  import opened AddrState
  import opened AddrTables
  import opened AddrMan
  import opened AddrRuns
  import opened AddrCells
  import opened AddrCheck
  import opened AddrListing

  class AddrManager {
    const env: Env
    var idCount: nat
    var mapInfo: Infos
    var mapAddr: map<Service, nat>
    var vRandom: seq<nat>
    const vvTried: array<Cell>
    const vvNew: array<Cell>
    var nNew: int
    var nTried: int
    var networkCounts: Counts
    var lastGood: int
    var triedCollisions: set<nat>

    ghost predicate Valid()
      reads this
    {
      vvTried.Length == 256 * 64 && vvNew.Length == 1024 * 64 && vvTried != vvNew
    }

    // The whole structure as a value.
    ghost function Abs(): State
      reads this, vvTried, vvNew
    {
      State(idCount, mapInfo, mapAddr, vRandom, TableOf(vvTried[..]), TableOf(vvNew[..]),
            Tally(Count(nNew, nTried), networkCounts), lastGood, triedCollisions)
    }

    constructor (env: Env)
      ensures Valid() && fresh(vvTried) && fresh(vvNew) && this.env == env
      ensures Abs() == Empty() && Inv(env, Abs())
    {
      this.env := env;
      idCount, mapInfo, mapAddr, vRandom := 0, map[], map[], [];
      vvTried := new Cell[256 * 64](_ => -1);
      vvNew := new Cell[1024 * 64](_ => -1);
      nNew, nTried, networkCounts, lastGood, triedCollisions := 0, 0, map[], 1, {};
      new;
      assert TableOf(vvTried[..]) == map[] && TableOf(vvNew[..]) == map[];
      EmptyInv(env);
    }

    method SwapRandom(p: nat, q: nat)
      requires Valid() && RandomSane(mapInfo, vRandom) && p < |vRandom| && q < |vRandom|
      modifies this`mapInfo, this`vRandom
      ensures Valid() && Abs() == AddrTables.SwapRandom(old(Abs()), p, q)
    {
      if p == q {
        return;
      }
      var id1, id2 := vRandom[p], vRandom[q];
      mapInfo := mapInfo[id1 := mapInfo[id1].(randomPos := q)];
      mapInfo := mapInfo[id2 := mapInfo[id2].(randomPos := p)];
      vRandom := vRandom[p := id2];
      vRandom := vRandom[q := id1];
    }

    method Drop(id: nat)
      requires Valid() && id in mapInfo && |vRandom| > 0
      modifies this
      ensures Valid() && unchanged(vvTried, vvNew)
      ensures Abs() == AddrTables.Drop(env, old(Abs()), id)
    {
      var n := env.Network(mapInfo[id].service);
      var count := CountOf(networkCounts, n);
      networkCounts := networkCounts[n := Count(count.untested - 1, count.tried)];
      vRandom := vRandom[..|vRandom| - 1];
      mapAddr := mapAddr - {mapInfo[id].service};
      mapInfo := mapInfo - {id};
      nNew := nNew - 1;
    }

    method Delete(id: nat)
      requires Valid() && Orderly(env, Abs()) && id in mapInfo && !mapInfo[id].inTried && mapInfo[id].refCount == 0
      modifies this
      ensures Valid() && unchanged(vvTried, vvNew)
      ensures Abs() == AddrTables.Delete(env, old(Abs()), id)
    {
      hide AddrTables.SwapRandom, AddrTables.Drop, Orderly, RandomSane, Reordered;
      ghost var s := Abs();
      Listed(env, s, id);
      SwapRandom(mapInfo[id].randomPos, |vRandom| - 1);
      AtEnd(s, Abs(), id);
      Drop(id);
    }

    method ClearNew(slot: nat)
      requires Valid() && Orderly(env, Abs()) && slot < vvNew.Length
      modifies this, vvNew
      ensures Valid() && unchanged(vvTried)
      ensures Abs() == AddrTables.ClearNew(env, old(Abs()), slot)
    {
      hide Orderly, AddrTables.Delete;
      if vvNew[slot] != -1 {
        ghost var s := Abs();
        SlotHolds(env, s, slot);
        var id: nat := vvNew[slot];
        Release(slot);
        assert Abs() == AddrTables.Release(s, slot);
        ReleaseKeeps(env, s, Abs(), slot);
        ReleaseEffect(s, Abs(), slot);
        ReleasedMark(s, Abs(), slot);
        if mapInfo[id].refCount == 0 {
          Delete(id);
        }
      }
    }

    method Release(slot: nat)
      requires Valid() && slot < vvNew.Length && vvNew[slot] >= 0 && vvNew[slot] in mapInfo
      requires mapInfo[vvNew[slot] as nat].refCount > 0
      modifies this`mapInfo, vvNew
      ensures Valid() && unchanged(vvTried)
      ensures var id: nat := old(vvNew[slot]);
              mapInfo == old(mapInfo)[id := old(mapInfo)[id].(refCount := old(mapInfo)[id].refCount - 1)]
      ensures TableOf(vvNew[..]) == old(TableOf(vvNew[..])) - {slot}
    {
      var id: nat := vvNew[slot];
      TableClear(vvNew[..], slot);
      mapInfo := mapInfo[id := mapInfo[id].(refCount := mapInfo[id].refCount - 1)];
      vvNew[slot] := -1;
      assert vvNew[..] == old(vvNew[..])[slot := -1];
    }

    method Create(a: Service, stats: Stats) returns (id: nat)
      requires Valid()
      modifies this
      ensures Valid() && unchanged(vvTried, vvNew) && id == old(idCount)
      ensures Abs() == AddrTables.Create(env, old(Abs()), a, stats)
    {
      hide TableOf;
      id := idCount;
      idCount := idCount + 1;
      mapInfo := mapInfo[id := Info(a, stats, 0, false, |vRandom|)];
      mapAddr := mapAddr[a := id];
      vRandom := vRandom + [id];
      nNew := nNew + 1;
      var n := env.Network(a);
      var count := CountOf(networkCounts, n);
      networkCounts := networkCounts[n := Count(count.untested + 1, count.tried)];
    }

    method Link(id: nat, slot: nat)
      requires Valid() && id in mapInfo && slot < vvNew.Length
      modifies this`mapInfo, vvNew
      ensures Valid() && unchanged(vvTried)
      ensures Abs() == AddrTables.Link(old(Abs()), id, slot)
    {
      TableSet(vvNew[..], slot, id);
      mapInfo := mapInfo[id := mapInfo[id].(refCount := mapInfo[id].refCount + 1)];
      vvNew[slot] := id;
      assert vvNew[..] == old(vvNew[..])[slot := id];
    }

    // Takes the entry out of its slots in the new table, bucket by bucket, until no
    // reference is left.
    method RemoveFromNew(id: nat)
      requires Valid() && NewSane(env, mapInfo, TableOf(vvNew[..])) && id in mapInfo && mapInfo[id].refCount > 0
      modifies this`mapInfo, vvNew
      ensures Valid() && unchanged(vvTried)
      ensures mapInfo == old(mapInfo)[id := old(mapInfo)[id].(refCount := 0)]
      ensures TableOf(vvNew[..]) == old(TableOf(vvNew[..])) - Slots(old(TableOf(vvNew[..])), id)
    {
      hide Pruned, Scanned, NewSane, Slots, PlacedIn;
      var info := mapInfo[id];
      ghost var was := TableOf(vvNew[..]);
      var start := env.NewBucketOf(info.service, info.stats.source);
      StartScan(env, mapInfo, was, id, start);
      var n := 0;
      while n < 1024
        invariant n <= 1024 && id in mapInfo
        invariant mapInfo == old(mapInfo)[id := info.(refCount := mapInfo[id].refCount)]
        invariant Pruned(was, TableOf(vvNew[..]), id)
        invariant mapInfo[id].refCount == |Slots(TableOf(vvNew[..]), id)| > 0
        invariant Scanned(env, info.service, TableOf(vvNew[..]), id, start, n)
      {
        var bucket := (start as nat + n) % 1024;
        var slot := bucket * 64 + env.NewPosition(info.service, bucket);
        if vvNew[slot] == id {
          ghost var now := TableOf(vvNew[..]);
          Release(slot);
          PruneStep(was, now, id, slot);
          ScannedLess(env, info.service, now, id, start, n, slot);
          if mapInfo[id].refCount == 0 {
            break;
          }
        }
        ScannedMore(env, info.service, TableOf(vvNew[..]), id, start, n);
        n := n + 1;
      }
      if n == 1024 {
        AllScanned(env, info.service, was, TableOf(vvNew[..]), id, start);
      }
      assert mapInfo[id].refCount == 0;
      PrunedDone(was, TableOf(vvNew[..]), id);
    }

    method Demote(id: nat)
      requires Valid() && id in mapInfo
      modifies this, vvTried
      ensures Valid() && unchanged(vvNew)
      ensures Abs() == AddrTables.Demote(env, old(Abs()), id)
    {
      var slot, n := TriedSlot(env, mapInfo[id].service), env.Network(mapInfo[id].service);
      TableClear(vvTried[..], slot);
      mapInfo := mapInfo[id := mapInfo[id].(inTried := false)];
      vvTried[slot] := -1;
      assert vvTried[..] == old(vvTried[..])[slot := -1];
      nTried, nNew := nTried - 1, nNew + 1;
      var count := CountOf(networkCounts, n);
      networkCounts := networkCounts[n := Count(count.untested + 1, count.tried - 1)];
    }

    method Promote(id: nat)
      requires Valid() && id in mapInfo
      modifies this, vvTried
      ensures Valid() && unchanged(vvNew)
      ensures Abs() == AddrTables.Promote(env, old(Abs()), id)
    {
      var slot, n := TriedSlot(env, mapInfo[id].service), env.Network(mapInfo[id].service);
      TableSet(vvTried[..], slot, id);
      mapInfo := mapInfo[id := mapInfo[id].(inTried := true)];
      vvTried[slot] := id;
      assert vvTried[..] == old(vvTried[..])[slot := id];
      nTried, nNew := nTried + 1, nNew - 1;
      var count := CountOf(networkCounts, n);
      networkCounts := networkCounts[n := Count(count.untested - 1, count.tried + 1)];
    }

    method Evict(id: nat)
      requires Valid() && Orderly(env, Abs()) && id in mapInfo && mapInfo[id].inTried && mapInfo[id].refCount == 0
      modifies this, vvTried, vvNew
      ensures Valid() && Abs() == AddrTables.Evict(env, old(Abs()), id)
    {
      hide Orderly, AddrTables.Demote, AddrTables.ClearNew, AddrTables.Link, Cleared;
      ghost var s := Abs();
      var slot := HomeSlot(env, mapInfo[id]);
      Demote(id);
      ghost var s1 := Abs();
      DemoteKeeps(env, s, s1, id);
      ClearNew(slot);
      EvictSteps(env, s, s1, Abs(), id, slot);
      Link(id, slot);
    }

    method MakeTried(id: nat)
      requires Valid() && Orderly(env, Abs()) && id in mapInfo && !mapInfo[id].inTried && mapInfo[id].refCount > 0
      modifies this, vvTried, vvNew
      ensures Valid() && Abs() == AddrTables.MakeTried(env, old(Abs()), id)
    {
      hide Orderly, AddrTables.Evict, AddrTables.Promote, Evicted;
      ghost var s := Abs();
      var slot := TriedSlot(env, mapInfo[id].service);
      NewPart(env, s);
      RemoveFromNew(id);
      ghost var s1 := Abs();
      assert s1 == AddrTables.Unlink(s, id);
      UnlinkKeeps(env, s, s1, id);
      TriedHolds(env, s1, slot);
      if vvTried[slot] != -1 {
        var was: nat := vvTried[slot];
        Evict(was);
        EvictKeeps(env, s1, Abs(), was);
        StillThere(env, s1, Abs(), was, id);
      }
      Promote(id);
    }

    method SetStats(id: nat, stats: Stats)
      requires Valid() && id in mapInfo
      modifies this`mapInfo
      ensures Valid() && Abs() == WithStats(old(Abs()), id, stats)
    {
      mapInfo := mapInfo[id := mapInfo[id].(stats := stats)];
    }

    method Insert(id: nat, source: NetAddr, now: int) returns (inserted: bool)
      requires Valid() && Orderly(env, Abs()) && id in mapInfo && !mapInfo[id].inTried
      modifies this, vvNew
      ensures Valid() && unchanged(vvTried)
      ensures (Abs(), inserted) == AddrMan.Insert(env, old(Abs()), id, source, now)
    {
      hide Orderly, AddrTables.ClearNew, AddrTables.Delete, AddrTables.Link, Cleared;
      ghost var s := Abs();
      var slot := NewSlot(env, mapInfo[id].service, source);
      SlotHolds(env, s, slot);
      inserted := vvNew[slot] == -1;
      if vvNew[slot] != id {
        if !inserted {
          var there := mapInfo[vvNew[slot] as nat];
          if there.stats.IsTerrible(now) || (there.refCount > 1 && mapInfo[id].refCount == 0) {
            inserted := true;
          }
        }
        if inserted {
          ClearNew(slot);
          ClearNewKeeps(env, s, Abs(), slot);
          ClearedSpares(s, Abs(), slot, id);
          Link(id, slot);
        } else if mapInfo[id].refCount == 0 {
          Delete(id);
        }
      }
    }

    // Adds one address heard of from a source.
    method AddSingle(a: Address, source: NetAddr, penalty: int, now: int, later: int, lucky: bool) returns (added: bool)
      requires Valid() && Orderly(env, Abs())
      modifies this, vvNew
      ensures Valid() && unchanged(vvTried)
      ensures (Abs(), added) == AddrMan.AddSingle(env, old(Abs()), a, source, penalty, now, later, lucky)
    {
      hide Orderly, AddrMan.Insert, AddrTables.Create;
      if a.service !in env.routable {
        return false;
      }
      ghost var s := Abs();
      FreshSane(env, s, a.service);
      var timePenalty := if a.service in env.hosts && env.hosts[a.service] == source then 0 else penalty;
      var id;
      if a.service in mapAddr {
        id := mapAddr[a.service];
        var stats := Refreshed(mapInfo[id].stats, a, timePenalty, now);
        SetStats(id, stats);
        StatsKeep(env, s, Abs(), id, stats);
        if a.time <= stats.time {
          return false;
        }
        if mapInfo[id].inTried || mapInfo[id].refCount == NEW_BUCKETS_PER_ADDRESS {
          return false;
        }
        if mapInfo[id].refCount > 0 && !lucky {
          return false;
        }
      } else {
        var stats := FirstStats(a, source, timePenalty);
        id := Create(a.service, stats);
        CreateKeeps(env, s, Abs(), a.service, stats);
        Created(env, s, Abs(), a.service, stats);
      }
      added := Insert(id, source, later);
    }

    // Adds the addresses of an announcement.
    method Add(arrivals: seq<Arrival>, source: NetAddr, penalty: int) returns (any: bool)
      requires Valid() && Inv(env, Abs())
      modifies this, vvNew
      ensures Valid() && unchanged(vvTried) && Inv(env, Abs())
      ensures Abs() == AddAll(env, old(Abs()), arrivals, source, penalty).0
      ensures any <==> AddAll(env, old(Abs()), arrivals, source, penalty).1 > 0
    {
      hide Orderly, Referenced, CollisionsSane, AddrMan.AddSingle, Abs;
      var added := 0;
      ghost var s := Abs();
      for k := 0 to |arrivals|
        invariant Valid() && unchanged(vvTried)
        invariant (Abs(), added) == AddAll(env, s, arrivals[..k], source, penalty)
      {
        var x := arrivals[k];
        assert arrivals[..k + 1][..k] == arrivals[..k];
        var taken := AddSingle(x.a, source, penalty, x.now, x.later, x.lucky);
        added := added + if taken then 1 else 0;
      }
      assert arrivals[..|arrivals|] == arrivals;
      any := added > 0;
    }

    // Records a success.
    method Good(a: Service, testBeforeEvict: bool, time: int) returns (moved: bool)
      requires Valid() && Orderly(env, Abs())
      modifies this, vvTried, vvNew
      ensures Valid() && (Abs(), moved) == AddrMan.Good(env, old(Abs()), a, testBeforeEvict, time)
    {
      hide Orderly, AddrTables.MakeTried;
      ghost var s := Abs();
      FreshSane(env, s, a);
      lastGood := time;
      if a !in mapAddr {
        return false;
      }
      var id := mapAddr[a];
      SetStats(id, Succeeded(mapInfo[id].stats, time));
      SucceededKeeps(env, s, Abs(), id, time);
      if mapInfo[id].inTried || mapInfo[id].refCount == 0 {
        return false;
      }
      if testBeforeEvict && vvTried[TriedSlot(env, a)] != -1 {
        if |triedCollisions| < SET_TRIED_COLLISION_SIZE {
          triedCollisions := triedCollisions + {id};
        }
        return false;
      }
      MakeTried(id);
      return true;
    }

    method Attempt(a: Service, countFailure: bool, time: int)
      requires Valid() && Orderly(env, Abs())
      modifies this`mapInfo
      ensures Valid() && (a in mapAddr ==> mapAddr[a] in old(mapInfo))
      ensures Abs() == AddrMan.Attempt(old(Abs()), a, countFailure, time)
    {
      hide Orderly, TableOf;
      FreshSane(env, Abs(), a);
      if a in mapAddr {
        var stats := mapInfo[mapAddr[a]].stats.(lastTry := time);
        if countFailure && stats.lastCount < lastGood {
          stats := stats.(lastCount := time, attempts := stats.attempts + 1);
        }
        SetStats(mapAddr[a], stats);
      }
    }

    method Connected(a: Service, time: int)
      requires Valid() && Orderly(env, Abs())
      modifies this`mapInfo
      ensures Valid() && (a in mapAddr ==> mapAddr[a] in old(mapInfo))
      ensures Abs() == AddrMan.Connected(old(Abs()), a, time)
    {
      hide Orderly, TableOf;
      FreshSane(env, Abs(), a);
      if a in mapAddr {
        var stats := mapInfo[mapAddr[a]].stats;
        SetStats(mapAddr[a], if time - stats.time > 20 * MINUTE then stats.(time := time) else stats);
      }
    }

    method SetServices(a: Service, services: bv64)
      requires Valid() && Orderly(env, Abs())
      modifies this`mapInfo
      ensures Valid() && (a in mapAddr ==> mapAddr[a] in old(mapInfo))
      ensures Abs() == AddrMan.SetServices(old(Abs()), a, services)
    {
      hide Orderly, TableOf;
      FreshSane(env, Abs(), a);
      if a in mapAddr {
        SetStats(mapAddr[a], mapInfo[mapAddr[a]].stats.(services := services));
      }
    }

    // Looks at one pending collision.
    method ResolveOne(id: nat, now: int)
      requires Valid() && Inv(env, Abs())
      modifies this, vvTried, vvNew
      ensures Valid() && Abs() == AddrMan.ResolveOne(env, old(Abs()), id, now)
    {
      hide Orderly, AddrMan.Good, Referenced, CollisionsSane;
      ghost var s := Abs();
      var erase := false;
      if id !in mapInfo || mapInfo[id].service !in env.valid {
        erase := true;
      } else {
        var a := mapInfo[id].service;
        var slot := TriedSlot(env, a);
        TriedHolds(env, s, slot);
        if vvTried[slot] != -1 {
          var there := mapInfo[vvTried[slot] as nat].stats;
          if now - there.lastSuccess < REPLACEMENT {
            erase := true;
          } else if now - there.lastTry < REPLACEMENT {
            if now - there.lastTry > MINUTE {
              var _ := Good(a, false, now);
              erase := true;
            }
          } else if now - mapInfo[id].stats.lastSuccess > TEST_WINDOW {
            var _ := Good(a, false, now);
            erase := true;
          }
        } else {
          var _ := Good(a, false, now);
          erase := true;
        }
      }
      if erase {
        triedCollisions := triedCollisions - {id};
      }
    }

    // Goes through the pending collisions in ascending order, dropping the settled ones.
    method ResolveCollisions(clock: Clock)
      requires Valid() && Inv(env, Abs())
      modifies this, vvTried, vvNew
      ensures Valid() && Abs() == Sweep(env, old(Abs()), old(triedCollisions), clock)
      ensures Inv(env, Abs())
    {
      hide Orderly, Referenced, CollisionsSane, AddrMan.ResolveOne, Resolved;
      var todo := triedCollisions;
      while todo != {}
        invariant Valid() && Inv(env, Abs()) && todo <= triedCollisions
        invariant Sweep(env, Abs(), todo, clock) == old(Sweep(env, Abs(), triedCollisions, clock))
        decreases todo
      {
        SomeLeast(todo);
        var id :| id in todo && IsLeast(id, todo);
        assert id == Least(todo);
        ghost var s := Abs();
        ResolveOne(id, clock.At(id));
        ResolveOneKeeps(env, s, Abs(), id, clock.At(id));
        todo := todo - {id};
      }
    }

    method SelectTriedCollision(pick: nat) returns (found: Found)
      requires Valid() && Inv(env, Abs()) && pick in triedCollisions
      modifies this`triedCollisions
      ensures Valid() && (Abs(), found) == AddrRuns.SelectTriedCollision(env, old(Abs()), pick)
    {
      hide Orderly, Referenced;
      ghost var s := Abs();
      if pick !in mapInfo {
        triedCollisions := triedCollisions - {pick};
        return Nothing;
      }
      var slot := TriedSlot(env, mapInfo[pick].service);
      TriedHolds(env, s, slot);
      var there := mapInfo[vvTried[slot] as nat];
      return Found(there.service, there.stats.lastTry);
    }

    // Hands out a random selection of addresses.  draws[n] is the random number drawn for
    // position n of the list.
    method GetAddr(q: Query, maxAddresses: nat, maxPct: nat, draws: seq<nat>)
      returns (addresses: seq<Address>, ghost picked: seq<nat>)
      requires Valid() && Inv(env, Abs())
      requires |draws| == |vRandom| && forall n | 0 <= n < |draws| :: draws[n] < |vRandom| - n
      modifies this`mapInfo, this`vRandom
      ensures Valid() && Reordered(old(Abs()), Abs()) && Inv(env, Abs())
      ensures |addresses| <= Limit(|vRandom|, maxAddresses, maxPct)
      ensures Picked(env, old(mapInfo), q, picked, addresses)
      ensures |addresses| < Limit(|vRandom|, maxAddresses, maxPct) ==>
                forall id | id in old(mapInfo) && q.Wants(env, old(mapInfo)[id]) :: id in picked
    {
      hide Inv, Reordered, Picked, PickedFrom, RandomSane, Query.Wants, AddrTables.SwapRandom, TableOf, Limit;
      addresses, picked := [], [];
      var limit := Limit(|vRandom|, maxAddresses, maxPct);
      ghost var s := Abs();
      PickNone(env, s, q);
      var n := 0;
      while n < |vRandom| && |addresses| < limit
        invariant n <= |vRandom| == |old(vRandom)| && |addresses| <= limit
        invariant Reordered(s, Abs()) && Inv(env, Abs())
        invariant Picked(env, s.infos, q, picked, addresses)
        invariant PickedFrom(env, s.infos, q, vRandom, n, picked)
      {
        ghost var s1 := Abs();
        ListSane(env, s1);
        SwapRandom(n, n + draws[n]);
        Shuffled(env, s, s1, Abs(), q, n, n + draws[n], picked, addresses);
        var info := mapInfo[vRandom[n]];
        if q.Wants(env, info) {
          addresses, picked := addresses + [Shown(info)], picked + [vRandom[n]];
        }
        n := n + 1;
      }
      if n == |vRandom| {
        AllListed(env, s, Abs(), q, picked);
      }
    }

    // The manager's own consistency check.
    method CheckAddrman() returns (err: int)
      requires Valid()
      ensures err == 0 <==> CheckOk(env, Abs())
    {
      hide Gathered, EntriesOk, NetworksOk, TablesOk, TableOf, CountsMatch;
      if |vRandom| != nTried + nNew {
        return -7;
      }
      var tried, refs, on;
      err, tried, refs, on := CheckEntries(env, mapInfo, mapAddr, vRandom);
      if err != 0 {
        return;
      }
      Sizes(env, mapInfo, mapAddr, vRandom, tried, refs, on);
      if |tried| != nTried {
        return -9;
      }
      if |refs| != nNew {
        return -10;
      }
      err := CheckTables(env, mapInfo, vvTried, vvNew, tried, refs);
      if err != 0 {
        return;
      }
      CountsVerdict(env, mapInfo, networkCounts, on);
      err := CheckCounts(networkCounts, on);
    }
  }

  lemma Sizes(env: Env, infos: Infos, ids: map<Service, nat>, random: seq<nat>, tried: set<nat>, refs: map<nat, nat>,
              on: Counts)
    requires EntriesOk(infos, ids, random) && Gathered(env, infos, tried, refs, on)
    ensures |tried| == |Ids(infos, true)| && |refs| == |Ids(infos, false)| && tried == Ids(infos, true)
    ensures refs.Keys == Ids(infos, false) && forall id | id in refs :: refs[id] == infos[id].refCount > 0
    ensures CountsOf(env, infos, on) && on.Keys == Networks(env, infos)
  {
    assert |refs| == |refs.Keys|;
    assert forall id | id in refs :: EntryOk(ids, random, id, infos[id]);
  }

  // ----- Handing out addresses -----

  lemma ListSane(env: Env, s: State)
    requires Inv(env, s)
    ensures RandomSane(s.infos, s.random)
  {
  }

  lemma PickNone(env: Env, s: State, q: Query)
    ensures Reordered(s, s) && Picked(env, s.infos, q, [], []) && PickedFrom(env, s.infos, q, s.random, 0, [])
  {
  }

  // One swap, and what is then known of the entry at position n.
  lemma Shuffled(env: Env, s: State, s1: State, r: State, q: Query, n: nat, p: nat, picked: seq<nat>,
                 addresses: seq<Address>)
    requires Inv(env, s1) && Reordered(s, s1) && n <= p < |s1.random|
    requires r == AddrTables.SwapRandom(s1, n, p)
    requires Picked(env, s.infos, q, picked, addresses) && PickedFrom(env, s.infos, q, s1.random, n, picked)
    ensures Inv(env, r) && Reordered(s, r) && |r.random| == |s1.random| && r.random[n] in r.infos
    ensures var i := r.infos[r.random[n]];
            if q.Wants(env, i) then
              && Picked(env, s.infos, q, picked + [r.random[n]], addresses + [Shown(i)])
              && PickedFrom(env, s.infos, q, r.random, n + 1, picked + [r.random[n]])
            else
              PickedFrom(env, s.infos, q, r.random, n + 1, picked)
  {
    hide Orderly, Referenced, CollisionsSane, AddrTables.SwapRandom, Picked, PickedFrom;
    ListSane(env, s1);
    ShuffleKeeps(env, s1, r, n, p);
    SwapEffect(s1, r, n, p);
    ReorderedTwice(s, s1, r);
    ListSane(env, r);
    NoneTwice(r.infos, r.random, n);
    assert r.random[n] in s.infos.Keys;
    PickKept(env, s.infos, q, s1.random, r.random, n, picked);
    PickMore(env, s.infos, q, r.random, n, picked, addresses);
  }

  lemma ReorderedTwice(s: State, s1: State, r: State)
    requires Reordered(s, s1) && Reordered(s1, r)
    ensures Reordered(s, r)
  {
    assert forall id :: id in s.infos <==> id in s1.infos.Keys;
  }

  lemma AllListed(env: Env, s: State, r: State, q: Query, picked: seq<nat>)
    requires Inv(env, r) && Reordered(s, r) && PickedFrom(env, s.infos, q, r.random, |r.random|, picked)
    ensures forall id | id in s.infos && q.Wants(env, s.infos[id]) :: id in picked
  {
    forall id | id in s.infos ensures id in r.random {
      assert id in r.infos.Keys;
      assert r.random[r.infos[id].randomPos] == id;
    }
    PickedAll(env, s.infos, q, r.random, picked);
  }

  lemma ClearedSpares(s: State, r: State, slot: Slot, id: nat)
    requires Cleared(s, r, slot) && id in s.infos && (slot in s.untested ==> s.untested[slot] != id)
    ensures id in r.infos
  {
  }

  lemma Created(env: Env, s: State, r: State, a: Service, stats: Stats)
    requires r == AddrTables.Create(env, s, a, stats)
    ensures s.idCount in r.infos && !r.infos[s.idCount].inTried && r.infos[s.idCount].refCount == 0
  {
  }

  lemma NewPart(env: Env, s: State)
    requires Orderly(env, s)
    ensures NewSane(env, s.infos, s.untested)
  {
  }

  // ----- Taking one entry out of a table -----

  // Only slots of the entry have been emptied.
  ghost predicate Pruned(was: Table, now: Table, id: nat) {
    && (forall slot | slot in now :: slot in was && now[slot] == was[slot])
    && (forall slot | slot in was && was[slot] != id :: slot in now)
  }

  lemma PruneStep(was: Table, now: Table, id: nat, slot: Slot)
    requires Pruned(was, now, id) && slot in now && now[slot] == id
    ensures Pruned(was, now - {slot}, id) && |Slots(now - {slot}, id)| == |Slots(now, id)| - 1
  {
    SlotsRemove(now, now - {slot}, slot, id);
  }

  lemma PrunedDone(was: Table, now: Table, id: nat)
    requires Pruned(was, now, id) && |Slots(now, id)| == 0
    ensures now == was - Slots(was, id)
  {
    assert forall slot | slot in now :: now[slot] == id ==> slot in Slots(now, id);
  }

  // The first n buckets, counted cyclically from `start`, hold no reference to the entry.
  ghost predicate Scanned(env: Env, a: Service, now: Table, id: nat, start: nat, n: nat) {
    forall k: nat | k < n :: FreeOf(env, a, now, id, start, k)
  }

  ghost predicate FreeOf(env: Env, a: Service, now: Table, id: nat, start: nat, k: nat) {
    var bucket := (start + k) % 1024;
    var slot := bucket * 64 + env.NewPosition(a, bucket);
    slot in now ==> now[slot] != id
  }

  lemma ScannedLess(env: Env, a: Service, now: Table, id: nat, start: nat, n: nat, slot: Slot)
    requires Scanned(env, a, now, id, start, n)
    ensures Scanned(env, a, now - {slot}, id, start, n)
  {
    forall k: nat | k < n ensures FreeOf(env, a, now - {slot}, id, start, k) {
      assert FreeOf(env, a, now, id, start, k);
    }
  }

  lemma ScannedMore(env: Env, a: Service, now: Table, id: nat, start: nat, n: nat)
    requires Scanned(env, a, now, id, start, n) && FreeOf(env, a, now, id, start, n)
    ensures Scanned(env, a, now, id, start, n + 1)
  {
  }

  ghost predicate PlacedIn(env: Env, a: Service, table: Table, id: nat) {
    forall slot | slot in table :: table[slot] == id ==> InPlace(env, a, slot)
  }

  lemma StartScan(env: Env, infos: Infos, table: Table, id: nat, start: nat)
    requires NewSane(env, infos, table) && id in infos
    ensures Pruned(table, table, id) && infos[id].refCount == |Slots(table, id)|
    ensures Scanned(env, infos[id].service, table, id, start, 0) && PlacedIn(env, infos[id].service, table, id)
  {
  }

  // Every slot of an entry is in its place, so looking once into each bucket finds them all.
  lemma AllScanned(env: Env, a: Service, was: Table, now: Table, id: nat, start: nat)
    requires Pruned(was, now, id) && Scanned(env, a, now, id, start, 1024) && PlacedIn(env, a, was, id)
    ensures |Slots(now, id)| == 0
  {
    forall slot | slot in now ensures now[slot] != id {
      var k := (slot / 64 + 1024 - start % 1024) % 1024;
      Wraps(start, slot / 64, k);
      assert FreeOf(env, a, now, id, start, k);
      assert slot in was;
    }
    assert Slots(now, id) == {};
  }

  lemma Wraps(start: nat, bucket: nat, k: nat)
    requires k == (bucket + 1024 - start % 1024) % 1024
    ensures (start + k) % 1024 == bucket % 1024
  {
  }
}
