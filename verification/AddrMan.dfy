/**
The operations of the address manager that callers see: adding an address heard of,
recording attempts and successes, and resolving collisions in the tried table.
Clock readings and coin flips are parameters.
*/
module AddrMan {
  import opened AddrState
  import opened AddrTables

  function Max(a: int, b: int): int {
    if a < b then b else a
  }

  // ----- Statistics -----

  function WithStats(s: State, id: nat, stats: Stats): State
    requires id in s.infos
  {
    s.(infos := s.infos[id := s.infos[id].(stats := stats)])
  }

  // Whether the manager's own check accepts the times recorded for an entry.
  ghost predicate StatsFit(i: Info, stats: Stats) {
    stats.lastTry >= 0 && stats.lastSuccess >= 0 && (i.inTried ==> stats.lastSuccess > 0)
  }

  lemma StatsKeep(env: Env, s: State, r: State, id: nat, stats: Stats)
    requires Orderly(env, s) && id in s.infos && r == WithStats(s, id, stats)
    ensures Orderly(env, r)
  {
    StatsSane(s.infos, r.infos, s.random, id, stats);
    AlikeKeeps(env, s, r);
  }

  lemma StatsSane(infos: Infos, infos': Infos, random: seq<nat>, id: nat, stats: Stats)
    requires RandomSane(infos, random) && id in infos && infos' == infos[id := infos[id].(stats := stats)]
    ensures Alike(infos, infos') && SameRefs(infos, infos') && RandomSane(infos', random)
  {
    assert infos'.Keys == infos.Keys;
    AlikeRandom(infos, infos', random);
  }

  // The statistics of one entry and the time of the last success may differ.
  ghost predicate Restated(s: State, r: State, id: nat) {
    && SameTables(s, r) && r.random == s.random && r.collisions == s.collisions
    && r.infos.Keys == s.infos.Keys
    && forall x | x in s.infos ::
         && r.infos[x].service == s.infos[x].service && r.infos[x].refCount == s.infos[x].refCount
         && r.infos[x].inTried == s.infos[x].inTried && (x != id ==> r.infos[x].stats == s.infos[x].stats)
  }

  lemma Restating(s: State, r: State, id: nat, stats: Stats, lastGood: int)
    requires id in s.infos && r == WithStats(s, id, stats).(lastGood := lastGood)
    ensures Restated(s, r, id) && r.infos[id].stats == stats && r.lastGood == lastGood
  {
    assert r.infos.Keys == s.infos.Keys;
  }

  // New statistics leave everything else as it was.
  lemma RestatedInv(env: Env, s: State, r: State, id: nat)
    requires Inv(env, s) && Orderly(env, r) && Restated(s, r, id)
    ensures Inv(env, r)
  {
    hide Orderly;
    assert forall x :: x in r.infos <==> x in s.infos.Keys;
  }

  // ----- Adding -----

  function Refreshed(stats: Stats, a: Address, penalty: int, now: int): Stats {
    var interval := if now - a.time < DAY then HOUR else DAY;
    var time := if stats.time < a.time - interval - penalty then Max(0, a.time - penalty) else stats.time;
    stats.(time := time, services := stats.services | a.services)
  }

  // Whether an entry may take a slot: it is empty, or the entry there is bad or has other
  // references while this one has none.
  predicate Yields(env: Env, s: State, id: nat, slot: Slot, now: int)
    requires Orderly(env, s) && id in s.infos
  {
    slot in s.untested ==>
      var there := s.infos[s.untested[slot]];
      there.stats.IsTerrible(now) || (there.refCount > 1 && s.infos[id].refCount == 0)
  }

  // Puts an entry into its slot for a source if that slot yields.
  function Insert(env: Env, s: State, id: nat, source: NetAddr, now: int): (State, bool)
    requires Orderly(env, s) && id in s.infos
  {
    var slot := NewSlot(env, s.infos[id].service, source);
    if slot in s.untested && s.untested[slot] == id then
      (s, false)
    else if Yields(env, s, id, slot, now) then
      ClearNewKeeps(env, s, ClearNew(env, s, slot), slot);
      (Link(ClearNew(env, s, slot), id, slot), true)
    else
      (if s.infos[id].refCount == 0 then Delete(env, s, id) else s, false)
  }

  // What adding does: the tried table and the marks stay, and only `id` may be new.
  ghost predicate Added(s: State, r: State, id: nat) {
    && r.tried == s.tried && r.collisions == s.collisions && r.lastGood == s.lastGood && r.idCount == s.idCount
    && r.infos.Keys <= s.infos.Keys
    && forall x | x in r.infos ::
         && r.infos[x].service == s.infos[x].service && r.infos[x].inTried == s.infos[x].inTried
         && r.infos[x].stats == s.infos[x].stats && (r.infos[x].refCount == 0 ==> s.infos[x].refCount == 0 && x != id)
  }

  // Taking a slot from whoever is there.
  lemma TakeSlot(env: Env, s: State, s1: State, r: State, id: nat, slot: Slot)
    requires Orderly(env, s) && id in s.infos && !s.infos[id].inTried
    requires s.infos[id].refCount < NEW_BUCKETS_PER_ADDRESS && InPlace(env, s.infos[id].service, slot)
    requires slot in s.untested ==> s.untested[slot] != id
    requires s1 == ClearNew(env, s, slot) && id in s1.infos && r == Link(s1, id, slot)
    ensures Orderly(env, r) && Added(s, r, id)
  {
    hide Orderly, ClearNew;
    ClearNewKeeps(env, s, s1, slot);
    assert Kept(s.infos[id], s1.infos[id]);
    LinkKeeps(env, s1, r, id, slot);
  }

  lemma InsertKeeps(env: Env, s: State, r: (State, bool), id: nat, source: NetAddr, now: int)
    requires Orderly(env, s) && id in s.infos && !s.infos[id].inTried
    requires s.infos[id].refCount < NEW_BUCKETS_PER_ADDRESS && r == Insert(env, s, id, source, now)
    ensures Orderly(env, r.0) && Added(s, r.0, id)
  {
    hide Orderly, ClearNew, Link, Delete;
    var slot := NewSlot(env, s.infos[id].service, source);
    SlotHolds(env, s, slot);
    if r.1 {
      var s1 := ClearNew(env, s, slot);
      ClearNewKeeps(env, s, s1, slot);
      TakeSlot(env, s, s1, r.0, id, slot);
    } else if s.infos[id].refCount == 0 {
      DeleteKeeps(env, s, r.0, id);
    }
  }

  // The statistics of an address heard of for the first time.
  function FirstStats(a: Address, source: NetAddr, penalty: int): Stats {
    Stats(a.services, Max(0, a.time - penalty), source, 0, 0, 0, 0)
  }

  // Adds one address heard of from a source.  `now` and `later` are clock readings, and
  // `lucky` is the outcome of the draw that makes each further reference less likely.
  function AddSingle(env: Env, s: State, a: Address, source: NetAddr, penalty: int, now: int, later: int, lucky: bool):
    (State, bool)
    requires Orderly(env, s)
  {
    if a.service !in env.routable then (s, false) else
    var timePenalty := if a.service in env.hosts && env.hosts[a.service] == source then 0 else penalty;
    if a.service in s.ids then
      var id := s.ids[a.service];
      var stats := Refreshed(s.infos[id].stats, a, timePenalty, now);
      var s1 := WithStats(s, id, stats);
      StatsKeep(env, s, s1, id, stats);
      if a.time <= stats.time || s.infos[id].inTried || s.infos[id].refCount == NEW_BUCKETS_PER_ADDRESS
         || (s.infos[id].refCount > 0 && !lucky)
      then (s1, false)
      else Insert(env, s1, id, source, later)
    else
      var s1 := Create(env, s, a.service, FirstStats(a, source, timePenalty));
      CreateKeeps(env, s, s1, a.service, FirstStats(a, source, timePenalty));
      Insert(env, s1, s.idCount, source, later)
  }

  // The same recorded times.
  predicate SameTimes(a: Stats, b: Stats) {
    a.lastTry == b.lastTry && a.lastSuccess == b.lastSuccess
  }

  // Adding leaves the tried table, the pending collisions, the marks and the recorded times
  // alone; a new entry has none yet.
  ghost predicate Extended(s: State, r: State) {
    && r.tried == s.tried && r.collisions == s.collisions && r.lastGood == s.lastGood && r.idCount >= s.idCount
    && forall x | x in r.infos ::
         if x < s.idCount then
           && x in s.infos && r.infos[x].service == s.infos[x].service && r.infos[x].inTried == s.infos[x].inTried
           && SameTimes(s.infos[x].stats, r.infos[x].stats)
         else !r.infos[x].inTried && r.infos[x].stats.lastTry == 0 == r.infos[x].stats.lastSuccess
  }

  lemma ExtendedTimes(s: State, r: State)
    requires TimesSane(s.infos) && Extended(s, r)
    ensures TimesSane(r.infos)
  {
  }

  lemma ExtendedCollisions(env: Env, s: State, r: State)
    requires CollisionsSane(env, s) && Extended(s, r)
    ensures CollisionsSane(env, r)
  {
  }

  lemma ExtendedSelf(env: Env, s: State)
    requires Orderly(env, s)
    ensures Extended(s, s)
  {
  }

  lemma AddNothing(s: State, r: State, id: nat, stats: Stats)
    requires Referenced(s.infos, {}) && id in s.infos && r == WithStats(s, id, stats)
    requires SameTimes(s.infos[id].stats, stats) && forall x | x in s.infos :: x < s.idCount
    ensures Referenced(r.infos, {}) && Extended(s, r)
  {
    assert r.infos.Keys == s.infos.Keys;
  }

  lemma AddKnown(env: Env, s: State, s1: State, r: (State, bool), id: nat, stats: Stats, source: NetAddr, now: int)
    requires Orderly(env, s) && Referenced(s.infos, {}) && id in s.infos && !s.infos[id].inTried
    requires s.infos[id].refCount < NEW_BUCKETS_PER_ADDRESS
    requires SameTimes(s.infos[id].stats, stats) && forall x | x in s.infos :: x < s.idCount
    requires s1 == WithStats(s, id, stats) && Orderly(env, s1)
    requires r == Insert(env, s1, id, source, now)
    ensures Orderly(env, r.0) && Referenced(r.0.infos, {}) && Extended(s, r.0)
  {
    hide Orderly, Insert;
    assert s1.infos.Keys == s.infos.Keys;
    InsertKeeps(env, s1, r, id, source, now);
  }

  lemma AddNew(env: Env, s: State, s1: State, r: (State, bool), a: Service, stats: Stats, source: NetAddr, now: int)
    requires Orderly(env, s) && Referenced(s.infos, {}) && s.idCount !in s.infos
    requires s1 == Create(env, s, a, stats) && Orderly(env, s1) && stats.lastTry == 0 == stats.lastSuccess
    requires forall x | x in s.infos :: x < s.idCount
    requires r == Insert(env, s1, s.idCount, source, now)
    ensures Orderly(env, r.0) && Referenced(r.0.infos, {}) && Extended(s, r.0)
  {
    hide Orderly, Insert;
    InsertKeeps(env, s1, r, s.idCount, source, now);
  }

  lemma FreshSane(env: Env, s: State, a: Service)
    requires Orderly(env, s)
    ensures a in s.ids ==> s.ids[a] in s.infos && s.infos[s.ids[a]].service == a
    ensures forall id | id in s.infos :: id < s.idCount
    ensures forall id | id in s.infos :: s.infos[id].refCount <= NEW_BUCKETS_PER_ADDRESS
  {
  }

  lemma AddKeeps(env: Env, s: State, r: (State, bool), a: Address, source: NetAddr, penalty: int, now: int, later: int,
                 lucky: bool)
    requires Inv(env, s) && r == AddSingle(env, s, a, source, penalty, now, later, lucky)
    ensures Inv(env, r.0) && Extended(s, r.0)
  {
    hide Orderly, Insert, Create, CollisionsSane, WithStats, Referenced, Extended;
    var timePenalty := if a.service in env.hosts && env.hosts[a.service] == source then 0 else penalty;
    FreshSane(env, s, a.service);
    if a.service in env.routable {
      if a.service in s.ids {
        var id := s.ids[a.service];
        var stats := Refreshed(s.infos[id].stats, a, timePenalty, now);
        var s1 := WithStats(s, id, stats);
        StatsKeep(env, s, s1, id, stats);
        if !(a.time <= stats.time || s.infos[id].inTried || s.infos[id].refCount == NEW_BUCKETS_PER_ADDRESS
             || (s.infos[id].refCount > 0 && !lucky))
        {
          AddKnown(env, s, s1, r, id, stats, source, later);
        } else {
          AddNothing(s, s1, id, stats);
        }
      } else {
        var stats := FirstStats(a, source, timePenalty);
        var s1 := Create(env, s, a.service, stats);
        CreateKeeps(env, s, s1, a.service, stats);
        AddNew(env, s, s1, r, a.service, stats, source, later);
      }
    } else {
      ExtendedSelf(env, s);
    }
    ExtendedCollisions(env, s, r.0);
  }

  // One address of an announcement, with the clock readings and the draw made for it.
  datatype Arrival = Arrival(a: Address, now: int, later: int, lucky: bool)

  // Adds the addresses of an announcement one by one, counting those that were taken.
  function AddAll(env: Env, s: State, arrivals: seq<Arrival>, source: NetAddr, penalty: int): (r: (State, nat))
    requires Inv(env, s)
    ensures Inv(env, r.0) && r.0.tried == s.tried && r.0.collisions == s.collisions
  {
    if arrivals == [] then (s, 0) else
    var before, x := AddAll(env, s, arrivals[..|arrivals| - 1], source, penalty), arrivals[|arrivals| - 1];
    var next := AddSingle(env, before.0, x.a, source, penalty, x.now, x.later, x.lucky);
    AddKeeps(env, before.0, next, x.a, source, penalty, x.now, x.later, x.lucky);
    (next.0, before.1 + if next.1 then 1 else 0)
  }

  // ----- Attempts and other news -----

  function Attempt(s: State, a: Service, countFailure: bool, time: int): State
    requires a in s.ids ==> s.ids[a] in s.infos
  {
    if a !in s.ids then s else
    var stats := s.infos[s.ids[a]].stats.(lastTry := time);
    WithStats(s, s.ids[a],
              if countFailure && stats.lastCount < s.lastGood
              then stats.(lastCount := time, attempts := stats.attempts + 1)
              else stats)
  }

  function Connected(s: State, a: Service, time: int): State
    requires a in s.ids ==> s.ids[a] in s.infos
  {
    if a !in s.ids then s else
    var stats := s.infos[s.ids[a]].stats;
    WithStats(s, s.ids[a], if time - stats.time > 20 * MINUTE then stats.(time := time) else stats)
  }

  function SetServices(s: State, a: Service, services: bv64): State
    requires a in s.ids ==> s.ids[a] in s.infos
  {
    if a !in s.ids then s else WithStats(s, s.ids[a], s.infos[s.ids[a]].stats.(services := services))
  }

  // News about one address changes its statistics only.
  lemma NewsKeeps(env: Env, s: State, r: State, a: Service, stats: Stats, lastGood: int)
    requires Inv(env, s) && a in s.ids && s.ids[a] in s.infos
    requires r == WithStats(s, s.ids[a], stats).(lastGood := lastGood)
    ensures Inv(env, r) && Restated(s, r, s.ids[a])
    ensures s.ids[a] in r.infos && r.infos[s.ids[a]].stats == stats && r.infos[s.ids[a]].service == a
  {
    hide Orderly, CollisionsSane, Referenced;
    var s1 := WithStats(s, s.ids[a], stats);
    FreshSane(env, s, a);
    StatsKeep(env, s, s1, s.ids[a], stats);
    LastGoodKeeps(env, s1, lastGood);
    Restating(s, r, s.ids[a], stats, lastGood);
    RestatedInv(env, s, r, s.ids[a]);
  }

  lemma LastGoodKeeps(env: Env, s: State, lastGood: int)
    requires Orderly(env, s)
    ensures Orderly(env, s.(lastGood := lastGood))
  {
    AlikeKeeps(env, s, s.(lastGood := lastGood));
  }

  // ----- Successes -----

  // What a success writes into the statistics.
  function Succeeded(stats: Stats, time: int): Stats {
    stats.(lastSuccess := time, lastTry := time, attempts := 0)
  }

  // Records a success.  Unless told otherwise, an entry whose tried slot
  // is taken is remembered as a collision instead of evicting the entry there.
  function Good(env: Env, s: State, a: Service, testBeforeEvict: bool, time: int): (State, bool)
    requires Orderly(env, s)
  {
    FreshSane(env, s, a);
    if a !in s.ids then (s.(lastGood := time), false) else
    var id := s.ids[a];
    var stats := Succeeded(s.infos[id].stats, time);
    var s1 := WithStats(s, id, stats).(lastGood := time);
    SucceededKeeps(env, s, s1, id, time);
    if s1.infos[id].inTried || s1.infos[id].refCount == 0 then (s1, false) else
    if testBeforeEvict && TriedSlot(env, a) in s1.tried then
      (if |s1.collisions| < SET_TRIED_COLLISION_SIZE then s1.(collisions := s1.collisions + {id}) else s1, false)
    else
      (MakeTried(env, s1, id), true)
  }

  lemma SucceededKeeps(env: Env, s: State, r: State, id: nat, time: int)
    requires Orderly(env, s) && id in s.infos
    requires r == WithStats(s, id, Succeeded(s.infos[id].stats, time)).(lastGood := time)
    ensures Orderly(env, r)
  {
    hide Orderly;
    var stats := Succeeded(s.infos[id].stats, time);
    StatsKeep(env, s, WithStats(s, id, stats), id, stats);
    LastGoodKeeps(env, WithStats(s, id, stats), time);
  }

  lemma SizeAtMost<T>(a: set<T>, b: set<T>)
    requires b <= a
    ensures |b| <= |a|
  {
    if b != {} {
      var x :| x in b;
      SizeAtMost(a - {x}, b - {x});
    }
  }

  lemma MadeReferenced(env: Env, s: State, r: State, id: nat)
    requires Referenced(s.infos, {}) && MadeTried(env, s, r, id)
    ensures Referenced(r.infos, {})
  {
  }

  lemma MadeCollisions(env: Env, s: State, r: State, id: nat)
    requires CollisionsSane(env, s) && MadeTried(env, s, r, id) && Orderly(env, s)
    ensures forall x | x in s.collisions && x != id && x in r.infos ::
              !r.infos[x].inTried && TriedSlot(env, r.infos[x].service) in r.tried
    ensures r.collisions == s.collisions && r.idCount == s.idCount
  {
    hide Orderly;
    TriedHolds(env, s, TriedSlot(env, s.infos[id].service));
  }

  // An entry with a free slot moves there and is no pending collision.
  lemma MadeInv(env: Env, s: State, r: State, id: nat)
    requires Inv(env, s) && id in s.infos && !s.infos[id].inTried
    requires TriedSlot(env, s.infos[id].service) !in s.tried && r == MakeTried(env, s, id)
    ensures Inv(env, r) && MadeTried(env, s, r, id)
  {
    hide Orderly, MakeTried, Referenced, MadeTried;
    MakeTriedKeeps(env, s, r, id);
    MadeReferenced(env, s, r, id);
    MadeCollisions(env, s, r, id);
  }

  lemma CollisionAdded(env: Env, s: State, id: nat)
    requires Inv(env, s) && id in s.infos && !s.infos[id].inTried && TriedSlot(env, s.infos[id].service) in s.tried
    requires |s.collisions| < SET_TRIED_COLLISION_SIZE
    ensures Inv(env, s.(collisions := s.collisions + {id}))
  {
    hide Orderly;
    FreshSane(env, s, s.infos[id].service);
    CollisionsFree(env, s, s.collisions + {id});
  }

  lemma CollisionsFree(env: Env, s: State, collisions: set<nat>)
    requires Orderly(env, s)
    ensures Orderly(env, s.(collisions := collisions))
  {
    AlikeKeeps(env, s, s.(collisions := collisions));
  }

  // Every entry of the tried table stays where it is.
  ghost predicate TriedStays(s: State, r: State) {
    forall slot | slot in s.tried :: slot in r.tried && r.tried[slot] == s.tried[slot]
  }

  lemma GoodKeeps(env: Env, s: State, r: (State, bool), a: Service, time: int)
    requires Inv(env, s) && r == Good(env, s, a, true, time)
    ensures Inv(env, r.0) && TriedStays(s, r.0)
  {
    hide Orderly, MakeTried, CollisionsSane, Referenced, WithStats;
    FreshSane(env, s, a);
    if a !in s.ids {
      LastGoodKeeps(env, s, time);
      LastGoodCollisions(env, s, time);
    } else {
      var id := s.ids[a];
      var stats := Succeeded(s.infos[id].stats, time);
      var s1 := WithStats(s, id, stats).(lastGood := time);
      NewsKeeps(env, s, s1, a, stats, time);
      if !(s1.infos[id].inTried || s1.infos[id].refCount == 0) {
        if TriedSlot(env, a) in s1.tried {
          if |s1.collisions| < SET_TRIED_COLLISION_SIZE {
            CollisionAdded(env, s1, id);
          }
        } else {
          MadeInv(env, s1, r.0, id);
        }
      }
    }
  }

  lemma LastGoodCollisions(env: Env, s: State, lastGood: int)
    requires CollisionsSane(env, s) && Referenced(s.infos, {})
    ensures CollisionsSane(env, s.(lastGood := lastGood)) && Referenced(s.(lastGood := lastGood).infos, {})
  {
  }

  // ----- Collisions -----

  function Erased(s: State, id: nat): State {
    s.(collisions := s.collisions - {id})
  }

  // Moves a colliding entry to the tried table after all.
  function Replace(env: Env, s: State, id: nat, now: int): State
    requires Orderly(env, s) && id in s.infos
  {
    Erased(Good(env, s, s.infos[id].service, false, now).0, id)
  }

  // Looks at one pending collision.
  function ResolveOne(env: Env, s: State, id: nat, now: int): State
    requires Orderly(env, s)
  {
    if id !in s.infos || s.infos[id].service !in env.valid then Erased(s, id) else
    var slot := TriedSlot(env, s.infos[id].service);
    if slot !in s.tried then Replace(env, s, id, now) else
    var there, coming := s.infos[s.tried[slot]].stats, s.infos[id].stats;
    if now - there.lastSuccess < REPLACEMENT then Erased(s, id)
    else if now - there.lastTry < REPLACEMENT then
      if now - there.lastTry > MINUTE then Replace(env, s, id, now) else s
    else if now - coming.lastSuccess > TEST_WINDOW then Replace(env, s, id, now)
    else s
  }

  // When a tried entry must make way for a colliding one: it has had no success for four
  // hours, and either it was tried in these four hours, more than a minute ago, or it was
  // not and the colliding entry has waited for more than forty minutes.
  ghost predicate Overdue(there: Stats, coming: Stats, now: int) {
    && now - there.lastSuccess >= 14400
    && (60 < now - there.lastTry < 14400 || (now - there.lastTry >= 14400 && now - coming.lastSuccess > 2400))
  }

  // The colliding entry takes its slot from an entry that is overdue, which is back in the
  // new table.
  ghost predicate Ousted(env: Env, s: State, r: State, id: nat, now: int, slot: Slot) {
    && slot in s.tried && slot in r.tried && s.tried[slot] in s.infos && id in s.infos
    && TriedSlot(env, s.infos[id].service) == slot && r.tried[slot] == id
    && Overdue(s.infos[s.tried[slot]].stats, s.infos[id].stats, now) && Returned(env, s, r, s.tried[slot])
  }

  // The tried table only changes where the colliding entry replaces one that is overdue.
  ghost predicate Resolved(env: Env, s: State, r: State, id: nat, now: int) {
    forall slot | slot in s.tried ::
      && slot in r.tried && s.tried[slot] in s.infos && s.tried[slot] in r.infos
      && r.infos[s.tried[slot]].stats == s.infos[s.tried[slot]].stats
      && (r.tried[slot] == s.tried[slot] || Ousted(env, s, r, id, now, slot))
  }

  lemma ErasedKeeps(env: Env, s: State, id: nat, now: int)
    requires Inv(env, s)
    ensures Inv(env, Erased(s, id)) && Resolved(env, s, Erased(s, id), id, now)
  {
    SizeAtMost(s.collisions, s.collisions - {id});
    CollisionsFree(env, s, s.collisions - {id});
  }

  lemma ReplaceSteps(env: Env, s: State, s1: State, s2: State, r: State, id: nat, now: int)
    requires Inv(env, s) && id in s.collisions && id in s.infos
    requires s1 == WithStats(s, id, Succeeded(s.infos[id].stats, now)).(lastGood := now) && Inv(env, s1)
    requires Restated(s, s1, id) && s1.infos[id].service == s.infos[id].service
    requires s2 == MakeTried(env, s1, id) && r == Erased(s2, id)
    ensures Inv(env, r) && MadeTried(env, s1, s2, id) && r.collisions == s.collisions - {id}
  {
    hide Orderly, MakeTried, Referenced, MadeTried, WithStats;
    MakeTriedKeeps(env, s1, s2, id);
    MadeReferenced(env, s1, s2, id);
    MadeCollisions(env, s1, s2, id);
    CollisionsFree(env, s2, s2.collisions - {id});
    SizeAtMost(s2.collisions, s2.collisions - {id});
  }

  // Evicting one entry settles only its slot.
  lemma ReplacedTried(env: Env, s: State, s1: State, s2: State, r: State, id: nat, now: int)
    requires Inv(env, s) && id in s.infos && !s.infos[id].inTried && Restated(s, s1, id)
    requires MadeTried(env, s1, s2, id) && r == Erased(s2, id) && Orderly(env, r)
    requires var slot := TriedSlot(env, s.infos[id].service);
             slot in s.tried ==> Overdue(s.infos[s.tried[slot]].stats, s.infos[id].stats, now)
    ensures Resolved(env, s, r, id, now)
  {
    hide Orderly, Referenced, CollisionsSane;
    var own := TriedSlot(env, s.infos[id].service);
    forall slot | slot in s.tried
      ensures && slot in r.tried && s.tried[slot] in s.infos && s.tried[slot] in r.infos
              && r.infos[s.tried[slot]].stats == s.infos[s.tried[slot]].stats
      ensures slot != own ==> r.tried[slot] == s.tried[slot]
      ensures slot == own ==> r.tried[slot] == id && Returned(env, s, r, s.tried[slot])
    {
      TriedHolds(env, s, slot);
      assert s.tried[slot] in s1.infos.Keys;
      TriedHolds(env, r, slot);
    }
  }

  lemma ReplaceKeeps(env: Env, s: State, r: State, id: nat, now: int)
    requires Inv(env, s) && id in s.collisions && id in s.infos && r == Replace(env, s, id, now)
    requires var slot := TriedSlot(env, s.infos[id].service);
             slot in s.tried ==> Overdue(s.infos[s.tried[slot]].stats, s.infos[id].stats, now)
    ensures Inv(env, r) && Resolved(env, s, r, id, now) && r.collisions == s.collisions - {id}
  {
    hide Orderly, MakeTried, Restated, MadeTried, WithStats, Resolved;
    var a := s.infos[id].service;
    OwnId(env, s, id);
    var stats := Succeeded(s.infos[id].stats, now);
    var s1 := WithStats(s, id, stats).(lastGood := now);
    FreshSane(env, s, a);
    NewsKeeps(env, s, s1, a, stats, now);
    RestatedAt(s, s1, id);
    var s2 := MakeTried(env, s1, id);
    ReplaceSteps(env, s, s1, s2, r, id, now);
    ReplacedTried(env, s, s1, s2, r, id, now);
  }

  lemma OwnId(env: Env, s: State, id: nat)
    requires Orderly(env, s) && id in s.infos
    ensures s.infos[id].service in s.ids && s.ids[s.infos[id].service] == id
  {
  }

  lemma RestatedAt(s: State, r: State, id: nat)
    requires Restated(s, r, id) && id in s.infos
    ensures id in r.infos && r.infos[id].inTried == s.infos[id].inTried && r.infos[id].refCount == s.infos[id].refCount
  {
    assert id in r.infos.Keys;
  }

  lemma ResolveOneKeeps(env: Env, s: State, r: State, id: nat, now: int)
    requires Inv(env, s) && id in s.collisions && r == ResolveOne(env, s, id, now)
    ensures Inv(env, r) && Resolved(env, s, r, id, now)
    ensures s.collisions - {id} <= r.collisions <= s.collisions
  {
    hide Orderly, Referenced, Replace, Resolved;
    if id !in s.infos || s.infos[id].service !in env.valid {
      ErasedKeeps(env, s, id, now);
    } else {
      var slot := TriedSlot(env, s.infos[id].service);
      TriedHolds(env, s, slot);
      var there, coming := s.infos[s.tried[slot]].stats, s.infos[id].stats;
      if now - there.lastSuccess < REPLACEMENT {
        ErasedKeeps(env, s, id, now);
      } else if Overdue(there, coming, now) {
        ReplaceKeeps(env, s, r, id, now);
      } else {
        ResolvedSelf(env, s, id, now);
      }
    }
  }

  // What becomes of a pending collision, by the recorded times: the tried entry loses its
  // slot to the colliding one exactly if it is overdue, the collision stays pending exactly
  // if the tried entry has no recent success and is not overdue, and a collision whose entry
  // is gone or no longer valid is dropped and does nothing.
  lemma ResolveOneExactly(env: Env, s: State, r: State, id: nat, now: int)
    requires Inv(env, s) && id in s.collisions && r == ResolveOne(env, s, id, now)
    ensures id !in s.infos || s.infos[id].service !in env.valid ==>
      r.tried == s.tried && r.infos == s.infos && r.collisions == s.collisions - {id}
    ensures id in s.infos && s.infos[id].service in env.valid ==>
      var slot := TriedSlot(env, s.infos[id].service);
      && slot in s.tried && s.tried[slot] in s.infos && s.tried[slot] != id && slot in r.tried
      && var there, coming := s.infos[s.tried[slot]].stats, s.infos[id].stats;
      && (r.tried[slot] != s.tried[slot] <==>
          && now - there.lastSuccess >= 14400
          && (60 < now - there.lastTry < 14400 || (now - there.lastTry >= 14400 && now - coming.lastSuccess > 2400)))
      && (r.tried[slot] != s.tried[slot] ==> r.tried[slot] == id)
      && (id in r.collisions <==>
          && now - there.lastSuccess >= 14400
          && (now - there.lastTry <= 60 || (now - there.lastTry >= 14400 && now - coming.lastSuccess <= 2400)))
  {
    hide Orderly, Referenced, Replace, Resolved;
    if id in s.infos && s.infos[id].service in env.valid {
      var slot := TriedSlot(env, s.infos[id].service);
      TriedHolds(env, s, slot);
      if Overdue(s.infos[s.tried[slot]].stats, s.infos[id].stats, now) {
        ReplaceTakes(env, s, r, id, now);
      }
    }
  }

  // A colliding entry that is moved after all holds its slot.
  lemma ReplaceTakes(env: Env, s: State, r: State, id: nat, now: int)
    requires Inv(env, s) && id in s.collisions && id in s.infos && r == Replace(env, s, id, now)
    ensures r.tried == s.tried[TriedSlot(env, s.infos[id].service) := id] && r.collisions == s.collisions - {id}
  {
    hide Orderly, MakeTried, Restated, MadeTried, WithStats, Resolved;
    var a := s.infos[id].service;
    OwnId(env, s, id);
    var stats := Succeeded(s.infos[id].stats, now);
    var s1 := WithStats(s, id, stats).(lastGood := now);
    FreshSane(env, s, a);
    NewsKeeps(env, s, s1, a, stats, now);
    RestatedAt(s, s1, id);
    var s2 := MakeTried(env, s1, id);
    ReplaceSteps(env, s, s1, s2, r, id, now);
    MadeSlot(env, s, s1, s2, id);
  }

  lemma MadeSlot(env: Env, s: State, s1: State, r: State, id: nat)
    requires Restated(s, s1, id) && MadeTried(env, s1, r, id) && id in s.infos
    ensures r.tried == s.tried[TriedSlot(env, s.infos[id].service) := id]
  {
  }

  lemma ResolvedSelf(env: Env, s: State, id: nat, now: int)
    requires Orderly(env, s)
    ensures Resolved(env, s, s, id, now)
  {
  }
}
