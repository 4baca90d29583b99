/**
The private operations of the address manager: swapping list positions, creating and
deleting an entry, clearing and filling slots of the new table, and moving entries
between the two tables.  Each is a function on states with a lemma that the state stays
`Orderly` and what else becomes of it.
*/
module AddrTables {
  import opened AddrState

  // ----- The shuffled list -----

  // Two maps that differ in list positions only.
  ghost predicate SameButOrder(infos: Infos, infos': Infos) {
    && infos'.Keys == infos.Keys
    && forall id | id in infos ::
         && infos'[id].service == infos[id].service && infos'[id].stats == infos[id].stats
         && infos'[id].inTried == infos[id].inTried && infos'[id].refCount == infos[id].refCount
  }

  function SwapPositions(infos: Infos, random: seq<nat>, p: nat, q: nat): (r: Infos)
    requires RandomSane(infos, random) && p < |random| && q < |random| && p != q
    ensures SameButOrder(infos, r)
  {
    infos[random[p] := infos[random[p]].(randomPos := q)][random[q] := infos[random[q]].(randomPos := p)]
  }

  lemma SwapSane(infos: Infos, random: seq<nat>, p: nat, q: nat)
    requires RandomSane(infos, random) && p < |random| && q < |random| && p != q
    ensures RandomSane(SwapPositions(infos, random, p, q), random[p := random[q]][q := random[p]])
  {
    var a, b := random[p], random[q];
    var infos', random' := SwapPositions(infos, random, p, q), random[p := b][q := a];
    assert infos[a].randomPos == p && infos[b].randomPos == q;
    assert infos'[a].randomPos == q && infos'[b].randomPos == p;
    forall id | id in infos'
      ensures infos'[id].randomPos < |random'| && random'[infos'[id].randomPos] == id
    {
      if id != a && id != b {
        assert infos'[id] == infos[id];
      }
    }
    forall i | 0 <= i < |random'|
      ensures random'[i] in infos' && infos'[random'[i]].randomPos == i
    {
      if i != p && i != q {
        assert random'[i] == random[i] && random[i] in infos.Keys;
      }
    }
  }

  function SwapRandom(s: State, p: nat, q: nat): State
    requires RandomSane(s.infos, s.random) && p < |s.random| && q < |s.random|
  {
    if p == q then s else
    s.(infos := SwapPositions(s.infos, s.random, p, q), random := s.random[p := s.random[q]][q := s.random[p]])
  }

  ghost predicate Reordered(s: State, r: State) {
    && SameTables(s, r) && r.lastGood == s.lastGood && r.collisions == s.collisions
    && SameButOrder(s.infos, r.infos)
  }

  // Swapping exchanges two entries of the list and changes nothing else.
  lemma SwapEffect(s: State, r: State, p: nat, q: nat)
    requires RandomSane(s.infos, s.random) && p < |s.random| && q < |s.random| && r == SwapRandom(s, p, q)
    ensures Reordered(s, r) && RandomSane(r.infos, r.random)
    ensures r.random == s.random[p := s.random[q]][q := s.random[p]]
  {
    if p == q {
      assert s.random[p := s.random[q]][q := s.random[p]] == s.random;
    } else {
      SwapSane(s.infos, s.random, p, q);
    }
  }

  lemma SwapKeeps(env: Env, s: State, r: State, p: nat, q: nat)
    requires Orderly(env, s) && p < |s.random| && q < |s.random| && r == SwapRandom(s, p, q)
    ensures Orderly(env, r) && Reordered(s, r)
    ensures r.random == s.random[p := s.random[q]][q := s.random[p]]
  {
    hide SwapRandom;
    SwapEffect(s, r, p, q);
    AlikeKeeps(env, s, r);
  }

  // ----- Counts -----

  // The counts, over all networks and on one, when an entry is created, deleted or moved.
  function OneNew(t: Tally, n: Network): Tally {
    var c := CountOf(t.on, n);
    Tally(Count(t.all.untested + 1, t.all.tried), t.on[n := Count(c.untested + 1, c.tried)])
  }

  function OneFewer(t: Tally, n: Network): Tally {
    var c := CountOf(t.on, n);
    Tally(Count(t.all.untested - 1, t.all.tried), t.on[n := Count(c.untested - 1, c.tried)])
  }

  function IntoTried(t: Tally, n: Network): Tally {
    var c := CountOf(t.on, n);
    Tally(Count(t.all.untested - 1, t.all.tried + 1), t.on[n := Count(c.untested - 1, c.tried + 1)])
  }

  function OutOfTried(t: Tally, n: Network): Tally {
    var c := CountOf(t.on, n);
    Tally(Count(t.all.untested + 1, t.all.tried - 1), t.on[n := Count(c.untested + 1, c.tried - 1)])
  }

  // ----- Deleting an entry -----

  lemma IdsRemove(infos: Infos, ids: map<Service, nat>, idCount: nat, id: nat)
    requires IdsSane(infos, ids, idCount) && id in infos
    ensures IdsSane(infos - {id}, ids - {infos[id].service}, idCount)
  {
  }

  lemma RandomRemove(infos: Infos, random: seq<nat>, id: nat)
    requires RandomSane(infos, random) && id in infos && infos[id].randomPos == |random| - 1
    ensures RandomSane(infos - {id}, random[..|random| - 1])
  {
    var infos', random' := infos - {id}, random[..|random| - 1];
    forall x | x in infos'
      ensures infos'[x].randomPos < |random'| && random'[infos'[x].randomPos] == x
    {
      assert random[infos[x].randomPos] == x;
    }
    forall i | 0 <= i < |random'| ensures random'[i] in infos' && infos'[random'[i]].randomPos == i {
      assert random[i] in infos && infos[random[i]].randomPos == i;
    }
  }

  lemma TriedRemove(env: Env, infos: Infos, tried: Table, id: nat)
    requires TriedSane(env, infos, tried) && id in infos && !infos[id].inTried
    ensures TriedSane(env, infos - {id}, tried)
  {
  }

  lemma NewRemove(env: Env, infos: Infos, untested: Table, id: nat)
    requires NewSane(env, infos, untested) && id in infos && infos[id].refCount == 0
    ensures NewSane(env, infos - {id}, untested)
  {
    assert Slots(untested, id) == {};
    assert forall sl | sl in untested :: untested[sl] == id ==> sl in Slots(untested, id);
  }

  lemma CountsRemove(env: Env, infos: Infos, tally: Tally, id: nat)
    requires CountsSane(env, infos, tally) && id in infos && !infos[id].inTried
    ensures CountsSane(env, infos - {id}, OneFewer(tally, env.Network(infos[id].service)))
  {
    var infos', at := infos - {id}, env.Network(infos[id].service);
    assert Ids(infos', true) == Ids(infos, true);
    SizeLess(Ids(infos, false), Ids(infos', false), id);
    forall n: Network
      ensures CountOf(OneFewer(tally, at).on, n) ==
              Count(|IdsOn(env, infos', false, n)|, |IdsOn(env, infos', true, n)|)
    {
      assert IdsOn(env, infos', true, n) == IdsOn(env, infos, true, n);
      SizeLess(IdsOn(env, infos, false, n), IdsOn(env, infos', false, n), id);
    }
  }

  // Forgets the entry at the end of the list.
  function Drop(env: Env, s: State, id: nat): State
    requires id in s.infos && |s.random| > 0
  {
    s.(random := s.random[..|s.random| - 1],
       ids := s.ids - {s.infos[id].service},
       infos := s.infos - {id},
       tally := OneFewer(s.tally, env.Network(s.infos[id].service)))
  }

  lemma DropKeeps(env: Env, s: State, r: State, id: nat)
    requires Orderly(env, s) && id in s.infos && !s.infos[id].inTried && s.infos[id].refCount == 0
    requires s.infos[id].randomPos == |s.random| - 1 && r == Drop(env, s, id)
    ensures Orderly(env, r)
  {
    IdsRemove(s.infos, s.ids, s.idCount, id);
    RandomRemove(s.infos, s.random, id);
    TriedRemove(env, s.infos, s.tried, id);
    NewRemove(env, s.infos, s.untested, id);
    CountsRemove(env, s.infos, s.tally, id);
  }

  ghost predicate Dropped(s: State, r: State, id: nat) {
    && r.tried == s.tried && r.idCount == s.idCount && r.collisions == s.collisions && r.lastGood == s.lastGood
    && r.untested == s.untested && r.infos == s.infos - {id}
  }

  lemma DropEffect(env: Env, s: State, r: State, id: nat)
    requires id in s.infos && |s.random| > 0 && r == Drop(env, s, id)
    ensures Dropped(s, r, id)
  {
  }

  // Removes an entry that is in neither table.
  function Delete(env: Env, s: State, id: nat): State
    requires RandomSane(s.infos, s.random) && id in s.infos
  {
    var s1 := SwapRandom(s, s.infos[id].randomPos, |s.random| - 1);
    SwapEffect(s, s1, s.infos[id].randomPos, |s.random| - 1);
    Drop(env, s1, id)
  }

  lemma AtEnd(s: State, r: State, id: nat)
    requires RandomSane(s.infos, s.random) && id in s.infos
    requires r == SwapRandom(s, s.infos[id].randomPos, |s.random| - 1)
    ensures Reordered(s, r) && id in r.infos && r.infos[id].randomPos == |r.random| - 1
  {
    hide SwapRandom;
    var p, n := s.infos[id].randomPos, |s.random| - 1;
    SwapEffect(s, r, p, n);
    assert id in r.infos.Keys;
    assert r.random[n] == id;
    assert r.infos[r.random[n]].randomPos == n;
  }

  lemma Listed(env: Env, s: State, id: nat)
    requires Orderly(env, s) && id in s.infos
    ensures RandomSane(s.infos, s.random) && s.infos[id].randomPos < |s.random|
  {
  }

  // The state in which the entry to delete is last in the list.
  lemma ToEnd(env: Env, s: State, id: nat) returns (r: State)
    requires Orderly(env, s) && id in s.infos
    ensures Orderly(env, r) && Reordered(s, r) && id in r.infos && r.infos[id].randomPos == |r.random| - 1
    ensures Delete(env, s, id) == Drop(env, r, id)
  {
    hide SwapRandom, Drop, Orderly, RandomSane, Reordered;
    Listed(env, s, id);
    r := SwapRandom(s, s.infos[id].randomPos, |s.random| - 1);
    SwapKeeps(env, s, r, s.infos[id].randomPos, |s.random| - 1);
    AtEnd(s, r, id);
  }

  // The same entry, up to its place in the list and its references.
  ghost predicate Kept(i: Info, j: Info) {
    && j.service == i.service && j.stats == i.stats && j.inTried == i.inTried
    && (j.refCount == 0 ==> i.refCount == 0)
  }

  // The tried table is untouched, no entry is added or changes its statistics, and every
  // entry that stays keeps a reference if it had one.
  ghost predicate Thinned(s: State, r: State) {
    && r.tried == s.tried && r.idCount == s.idCount && r.collisions == s.collisions && r.lastGood == s.lastGood
    && r.infos.Keys <= s.infos.Keys
    && forall id | id in r.infos :: Kept(s.infos[id], r.infos[id])
  }

  ghost predicate Deleted(s: State, r: State, id: nat) {
    && Thinned(s, r) && r.infos.Keys == s.infos.Keys - {id} && r.untested == s.untested
    && forall x | x in r.infos :: r.infos[x].refCount == s.infos[x].refCount
  }

  lemma DeletedBy(s: State, s1: State, r: State, id: nat)
    requires Reordered(s, s1) && Dropped(s1, r, id)
    ensures Deleted(s, r, id)
  {
    forall x | x in r.infos
      ensures x in s.infos && Kept(s.infos[x], r.infos[x]) && r.infos[x].refCount == s.infos[x].refCount
    {
      assert x in s1.infos.Keys;
    }
  }

  lemma DeleteKeeps(env: Env, s: State, r: State, id: nat)
    requires Orderly(env, s) && id in s.infos && !s.infos[id].inTried && s.infos[id].refCount == 0
    requires r == Delete(env, s, id)
    ensures Orderly(env, r) && Deleted(s, r, id)
  {
    hide Delete, Drop, Orderly, Deleted;
    var s1 := ToEnd(env, s, id);
    DropKeeps(env, s1, r, id);
    DropEffect(env, s1, r, id);
    DeletedBy(s, s1, r, id);
  }

  // ----- Creating an entry -----

  function Create(env: Env, s: State, a: Service, stats: Stats): State {
    s.(idCount := s.idCount + 1,
       infos := s.infos[s.idCount := Info(a, stats, 0, false, |s.random|)],
       ids := s.ids[a := s.idCount],
       random := s.random + [s.idCount],
       tally := OneNew(s.tally, env.Network(a)))
  }

  lemma IdsAdd(infos: Infos, infos': Infos, ids: map<Service, nat>, idCount: nat, i: Info)
    requires IdsSane(infos, ids, idCount) && i.service !in ids && infos' == infos[idCount := i]
    ensures IdsSane(infos', ids[i.service := idCount], idCount + 1)
  {
  }

  lemma RandomAdd(infos: Infos, infos': Infos, random: seq<nat>, id: nat, i: Info)
    requires RandomSane(infos, random) && id !in infos && i.randomPos == |random| && infos' == infos[id := i]
    ensures RandomSane(infos', random + [id])
  {
    var random' := random + [id];
    forall x | x in infos' ensures infos'[x].randomPos < |random'| && random'[infos'[x].randomPos] == x {
      if x != id {
        assert random[infos[x].randomPos] == x;
      }
    }
    forall k | 0 <= k < |random'| ensures random'[k] in infos' && infos'[random'[k]].randomPos == k {
      if k < |random| {
        assert random[k] in infos;
      }
    }
  }

  lemma TriedAdd(env: Env, infos: Infos, infos': Infos, tried: Table, id: nat, i: Info)
    requires TriedSane(env, infos, tried) && id !in infos && !i.inTried && infos' == infos[id := i]
    ensures TriedSane(env, infos', tried)
  {
  }

  lemma NewAdd(env: Env, infos: Infos, infos': Infos, untested: Table, id: nat, i: Info)
    requires NewSane(env, infos, untested) && id !in infos && i.refCount == 0 && infos' == infos[id := i]
    ensures NewSane(env, infos', untested)
  {
    assert Slots(untested, id) == {};
  }

  lemma CountsAdd(env: Env, infos: Infos, infos': Infos, tally: Tally, id: nat, i: Info)
    requires CountsSane(env, infos, tally) && id !in infos && !i.inTried && infos' == infos[id := i]
    ensures CountsSane(env, infos', OneNew(tally, env.Network(i.service)))
  {
    var tally' := OneNew(tally, env.Network(i.service));
    assert Ids(infos', true) == Ids(infos, true);
    SizeLess(Ids(infos', false), Ids(infos, false), id);
    forall n: Network
      ensures CountOf(tally'.on, n) == Count(|IdsOn(env, infos', false, n)|, |IdsOn(env, infos', true, n)|)
    {
      assert IdsOn(env, infos', true, n) == IdsOn(env, infos, true, n);
      SizeLess(IdsOn(env, infos', false, n), IdsOn(env, infos, false, n), id);
    }
  }

  lemma CreateKeeps(env: Env, s: State, r: State, a: Service, stats: Stats)
    requires Orderly(env, s) && a !in s.ids && r == Create(env, s, a, stats)
    ensures Orderly(env, r) && s.idCount !in s.infos
    ensures r.infos == s.infos[s.idCount := Info(a, stats, 0, false, |s.random|)]
    ensures Referenced(s.infos, {}) ==> Referenced(r.infos, {s.idCount}) && !Referenced(r.infos, {})
  {
    hide Referenced;
    CreateReferenced(env, s, r, a, stats);
    var id, i := s.idCount, Info(a, stats, 0, false, |s.random|);
    assert id !in s.infos;
    IdsAdd(s.infos, r.infos, s.ids, id, i);
    RandomAdd(s.infos, r.infos, s.random, id, i);
    TriedAdd(env, s.infos, r.infos, s.tried, id, i);
    NewAdd(env, s.infos, r.infos, s.untested, id, i);
    CountsAdd(env, s.infos, r.infos, s.tally, id, i);
  }

  lemma CreateReferenced(env: Env, s: State, r: State, a: Service, stats: Stats)
    requires r == Create(env, s, a, stats)
    ensures Referenced(s.infos, {}) ==> Referenced(r.infos, {s.idCount}) && !Referenced(r.infos, {})
  {
    assert s.idCount in r.infos && r.infos[s.idCount].refCount == 0;
  }

  // ----- The new table -----

  lemma SlotsRemove(table: Table, table': Table, slot: Slot, x: nat)
    requires slot in table && table' == table - {slot}
    ensures |Slots(table', x)| == |Slots(table, x)| - if x == table[slot] then 1 else 0
  {
    if x == table[slot] {
      SizeLess(Slots(table, x), Slots(table', x), slot);
    } else {
      assert Slots(table', x) == Slots(table, x);
    }
  }

  lemma SlotsAdd(table: Table, table': Table, slot: Slot, id: nat, x: nat)
    requires slot !in table && table' == table[slot := id]
    ensures |Slots(table', x)| == |Slots(table, x)| + if x == id then 1 else 0
  {
    if x == id {
      SizeLess(Slots(table', x), Slots(table, x), slot);
    } else {
      assert Slots(table', x) == Slots(table, x);
    }
  }

  // An entry in a slot has a reference.
  lemma SlotHolds(env: Env, s: State, slot: Slot)
    requires Orderly(env, s)
    ensures slot in s.untested ==>
              && s.untested[slot] in s.infos && s.infos[s.untested[slot]].refCount > 0
              && !s.infos[s.untested[slot]].inTried
  {
    assert slot in s.untested ==> slot in Slots(s.untested, s.untested[slot]);
  }

  // Takes away the reference held by a slot.
  function Release(s: State, slot: Slot): State
    requires slot in s.untested && s.untested[slot] in s.infos && s.infos[s.untested[slot]].refCount > 0
  {
    var id := s.untested[slot];
    s.(infos := s.infos[id := s.infos[id].(refCount := s.infos[id].refCount - 1)], untested := s.untested - {slot})
  }

  lemma ReleaseNew(env: Env, infos: Infos, untested: Table, slot: Slot, i: Info)
    requires NewSane(env, infos, untested) && slot in untested && infos[untested[slot]].refCount > 0
    requires i == infos[untested[slot]].(refCount := infos[untested[slot]].refCount - 1)
    ensures NewSane(env, infos[untested[slot] := i], untested - {slot})
  {
    var infos', untested' := infos[untested[slot] := i], untested - {slot};
    forall x | x in infos' ensures infos'[x].refCount == |Slots(untested', x)| {
      SlotsRemove(untested, untested', slot, x);
    }
  }

  lemma ReleaseKeeps(env: Env, s: State, r: State, slot: Slot)
    requires Orderly(env, s) && slot in s.untested && s.infos[s.untested[slot]].refCount > 0
    requires r == Release(s, slot)
    ensures Orderly(env, r)
  {
    var id := s.untested[slot];
    OnlyRefsSet(s.infos, r.infos, id, r.infos[id].refCount);
    ReleaseNew(env, s.infos, s.untested, slot, r.infos[id]);
    RefsKeep(env, s, r);
  }

  // The entry in the slot has one reference less, and nothing else changes.
  ghost predicate Released(s: State, r: State, slot: Slot) {
    && slot in s.untested && s.untested[slot] in s.infos
    && r.tried == s.tried && r.idCount == s.idCount && r.collisions == s.collisions && r.lastGood == s.lastGood
    && r.infos.Keys == s.infos.Keys && r.untested == s.untested - {slot}
    && (forall x | x in s.infos && x != s.untested[slot] :: r.infos[x] == s.infos[x])
    && var i, j := s.infos[s.untested[slot]], r.infos[s.untested[slot]];
    && j.service == i.service && j.stats == i.stats && j.inTried == i.inTried && j.refCount == i.refCount - 1
  }

  lemma ReleaseEffect(s: State, r: State, slot: Slot)
    requires slot in s.untested && s.untested[slot] in s.infos && s.infos[s.untested[slot]].refCount > 0
    requires r == Release(s, slot)
    ensures Released(s, r, slot)
  {
    assert r.infos.Keys == s.infos.Keys;
  }

  // Empties a slot, deleting the entry there if it has no other reference.
  function ClearNew(env: Env, s: State, slot: Slot): State
    requires Orderly(env, s)
  {
    if slot !in s.untested then s else
    var id := s.untested[slot];
    SlotHolds(env, s, slot);
    var s1 := Release(s, slot);
    ReleaseKeeps(env, s, s1, slot);
    if s1.infos[id].refCount == 0 then Delete(env, s1, id) else s1
  }

  // Only the entry in the slot can be affected.
  ghost predicate Cleared(s: State, r: State, slot: Slot) {
    && Thinned(s, r) && r.untested == s.untested - {slot}
    && forall x | x in s.infos && (slot in s.untested ==> x != s.untested[slot]) ::
         x in r.infos && r.infos[x].refCount == s.infos[x].refCount
  }

  lemma ClearedBy(s: State, s1: State, r: State, slot: Slot)
    requires Released(s, s1, slot)
    requires if s1.infos[s.untested[slot]].refCount == 0 then Deleted(s1, r, s.untested[slot]) else r == s1
    ensures Cleared(s, r, slot)
  {
    forall x | x in r.infos ensures x in s.infos && Kept(s.infos[x], r.infos[x]) {
      assert x in s1.infos.Keys;
    }
  }

  lemma ClearNewKeeps(env: Env, s: State, r: State, slot: Slot)
    requires Orderly(env, s) && r == ClearNew(env, s, slot)
    ensures Orderly(env, r) && Cleared(s, r, slot)
  {
    hide Delete, Orderly, Deleted, Released, Release;
    SlotHolds(env, s, slot);
    if slot in s.untested {
      var id, s1 := s.untested[slot], Release(s, slot);
      ReleaseKeeps(env, s, s1, slot);
      ReleaseEffect(s, s1, slot);
      ReleasedMark(s, s1, slot);
      if s1.infos[id].refCount == 0 {
        DeleteKeeps(env, s1, r, id);
      }
      ClearedBy(s, s1, r, slot);
    } else {
      assert s.untested - {slot} == s.untested;
    }
  }

  lemma ReleasedMark(s: State, r: State, slot: Slot)
    requires Released(s, r, slot)
    ensures slot in s.untested && s.untested[slot] in s.infos && s.untested[slot] in r.infos
    ensures r.infos[s.untested[slot]].inTried == s.infos[s.untested[slot]].inTried
  {
    assert s.untested[slot] in r.infos.Keys;
  }

  // Puts an entry in an empty slot.
  function Link(s: State, id: nat, slot: Slot): State
    requires id in s.infos
  {
    s.(infos := s.infos[id := s.infos[id].(refCount := s.infos[id].refCount + 1)], untested := s.untested[slot := id])
  }

  lemma LinkNew(env: Env, infos: Infos, untested: Table, id: nat, i: Info, slot: Slot)
    requires NewSane(env, infos, untested) && slot !in untested && id in infos && !infos[id].inTried
    requires infos[id].refCount < NEW_BUCKETS_PER_ADDRESS && InPlace(env, infos[id].service, slot)
    requires i == infos[id].(refCount := infos[id].refCount + 1)
    ensures NewSane(env, infos[id := i], untested[slot := id])
  {
    var infos', untested' := infos[id := i], untested[slot := id];
    forall x | x in infos' ensures infos'[x].refCount == |Slots(untested', x)| {
      SlotsAdd(untested, untested', slot, id, x);
    }
  }

  lemma LinkKeeps(env: Env, s: State, r: State, id: nat, slot: Slot)
    requires Orderly(env, s) && slot !in s.untested && id in s.infos && !s.infos[id].inTried
    requires s.infos[id].refCount < NEW_BUCKETS_PER_ADDRESS && InPlace(env, s.infos[id].service, slot)
    requires r == Link(s, id, slot)
    ensures Orderly(env, r)
  {
    OnlyRefsSet(s.infos, r.infos, id, r.infos[id].refCount);
    LinkNew(env, s.infos, s.untested, id, r.infos[id], slot);
    RefsKeep(env, s, r);
  }

  // Takes an entry out of every slot of the new table.
  function Unlink(s: State, id: nat): State
    requires id in s.infos
  {
    s.(infos := s.infos[id := s.infos[id].(refCount := 0)], untested := s.untested - Slots(s.untested, id))
  }

  lemma UnlinkNew(env: Env, infos: Infos, untested: Table, id: nat, i: Info)
    requires NewSane(env, infos, untested) && id in infos && i == infos[id].(refCount := 0)
    ensures NewSane(env, infos[id := i], untested - Slots(untested, id))
  {
    var infos', untested' := infos[id := i], untested - Slots(untested, id);
    forall x | x in infos' ensures infos'[x].refCount == |Slots(untested', x)| {
      if x == id {
        assert Slots(untested', x) == {};
      } else {
        assert Slots(untested', x) == Slots(untested, x);
      }
    }
  }

  lemma UnlinkKeeps(env: Env, s: State, r: State, id: nat)
    requires Orderly(env, s) && id in s.infos && r == Unlink(s, id)
    ensures Orderly(env, r)
  {
    OnlyRefsSet(s.infos, r.infos, id, r.infos[id].refCount);
    UnlinkNew(env, s.infos, s.untested, id, r.infos[id]);
    RefsKeep(env, s, r);
  }

  // ----- Between the tables -----

  function Marked(infos: Infos, id: nat, t: bool): (r: Infos)
    requires id in infos
    ensures r.Keys == infos.Keys
  {
    infos[id := infos[id].(inTried := t)]
  }

  lemma LeaveOn(env: Env, infos: Infos, infos': Infos, id: nat, n: Network)
    requires id in infos && infos' == Marked(infos, id, !infos[id].inTried)
    ensures var t := infos[id].inTried;
            |IdsOn(env, infos', t, n)| ==
            |IdsOn(env, infos, t, n)| - if env.Network(infos[id].service) == n then 1 else 0
  {
    var t := infos[id].inTried;
    SizeLess(IdsOn(env, infos, t, n), IdsOn(env, infos', t, n), id);
  }

  lemma EnterOn(env: Env, infos: Infos, infos': Infos, id: nat, n: Network)
    requires id in infos && infos' == Marked(infos, id, !infos[id].inTried)
    ensures var t := !infos[id].inTried;
            |IdsOn(env, infos', t, n)| ==
            |IdsOn(env, infos, t, n)| + if env.Network(infos[id].service) == n then 1 else 0
  {
    var t := !infos[id].inTried;
    SizeLess(IdsOn(env, infos', t, n), IdsOn(env, infos, t, n), id);
  }

  lemma MoveAll(infos: Infos, infos': Infos, id: nat)
    requires id in infos && infos' == Marked(infos, id, !infos[id].inTried)
    ensures |Ids(infos', infos[id].inTried)| == |Ids(infos, infos[id].inTried)| - 1
    ensures |Ids(infos', !infos[id].inTried)| == |Ids(infos, !infos[id].inTried)| + 1
  {
    var t := infos[id].inTried;
    SizeLess(Ids(infos, t), Ids(infos', t), id);
    SizeLess(Ids(infos', !t), Ids(infos, !t), id);
  }

  lemma CountsMove(env: Env, infos: Infos, infos': Infos, tally: Tally, id: nat)
    requires CountsSane(env, infos, tally) && id in infos && infos' == Marked(infos, id, !infos[id].inTried)
    ensures var n := env.Network(infos[id].service);
            CountsSane(env, infos', if infos[id].inTried then OutOfTried(tally, n) else IntoTried(tally, n))
  {
    var at := env.Network(infos[id].service);
    var tally' := if infos[id].inTried then OutOfTried(tally, at) else IntoTried(tally, at);
    MoveAll(infos, infos', id);
    forall n: Network
      ensures CountOf(tally'.on, n) == Count(|IdsOn(env, infos', false, n)|, |IdsOn(env, infos', true, n)|)
    {
      LeaveOn(env, infos, infos', id, n);
      EnterOn(env, infos, infos', id, n);
    }
  }

  lemma MarkedRandom(infos: Infos, infos': Infos, random: seq<nat>, id: nat, t: bool)
    requires RandomSane(infos, random) && id in infos && infos' == Marked(infos, id, t)
    ensures RandomSane(infos', random)
  {
    AlikeRandom(infos, infos', random);
  }

  lemma MarkedIds(infos: Infos, infos': Infos, ids: map<Service, nat>, idCount: nat, id: nat, t: bool)
    requires IdsSane(infos, ids, idCount) && id in infos && infos' == Marked(infos, id, t)
    ensures IdsSane(infos', ids, idCount)
  {
    assert forall x :: x in infos' <==> x in infos.Keys;
    assert forall x | x in infos :: infos'[x].service == infos[x].service;
  }

  lemma MarkedNew(env: Env, infos: Infos, infos': Infos, untested: Table, id: nat, t: bool)
    requires NewSane(env, infos, untested) && id in infos && infos' == Marked(infos, id, t)
    requires infos[id].refCount == 0
    ensures NewSane(env, infos', untested)
  {
    assert Slots(untested, id) == {};
    assert forall sl | sl in untested :: untested[sl] == id ==> sl in Slots(untested, id);
    assert forall x :: x in infos' <==> x in infos.Keys;
  }

  // Takes an entry out of the tried table; it is then in neither.
  function Demote(env: Env, s: State, id: nat): State
    requires id in s.infos
  {
    s.(infos := Marked(s.infos, id, false),
       tried := s.tried - {TriedSlot(env, s.infos[id].service)},
       tally := OutOfTried(s.tally, env.Network(s.infos[id].service)))
  }

  lemma DemoteTried(env: Env, infos: Infos, infos': Infos, tried: Table, id: nat)
    requires TriedSane(env, infos, tried) && id in infos && infos[id].inTried && infos' == Marked(infos, id, false)
    ensures TriedSane(env, infos', tried - {TriedSlot(env, infos[id].service)})
  {
    var slot := TriedSlot(env, infos[id].service);
    var tried' := tried - {slot};
    forall x | x in infos' && infos'[x].inTried
      ensures TriedSlot(env, infos'[x].service) in tried' && tried'[TriedSlot(env, infos'[x].service)] == x
    {
      assert x in infos.Keys && x != id;
      assert tried[slot] == id;
    }
  }

  lemma DemoteKeeps(env: Env, s: State, r: State, id: nat)
    requires Orderly(env, s) && id in s.infos && s.infos[id].inTried && s.infos[id].refCount == 0
    requires r == Demote(env, s, id)
    ensures Orderly(env, r)
  {
    MarkedIds(s.infos, r.infos, s.ids, s.idCount, id, false);
    MarkedRandom(s.infos, r.infos, s.random, id, false);
    DemoteTried(env, s.infos, r.infos, s.tried, id);
    MarkedNew(env, s.infos, r.infos, s.untested, id, false);
    CountsMove(env, s.infos, r.infos, s.tally, id);
  }

  // Puts an entry that is in neither table into the tried table.
  function Promote(env: Env, s: State, id: nat): State
    requires id in s.infos
  {
    s.(infos := Marked(s.infos, id, true),
       tried := s.tried[TriedSlot(env, s.infos[id].service) := id],
       tally := IntoTried(s.tally, env.Network(s.infos[id].service)))
  }

  lemma PromoteTried(env: Env, infos: Infos, infos': Infos, tried: Table, id: nat)
    requires TriedSane(env, infos, tried) && id in infos && !infos[id].inTried && infos' == Marked(infos, id, true)
    requires TriedSlot(env, infos[id].service) !in tried
    ensures TriedSane(env, infos', tried[TriedSlot(env, infos[id].service) := id])
  {
    var slot := TriedSlot(env, infos[id].service);
    var tried' := tried[slot := id];
    forall x | x in infos' && infos'[x].inTried
      ensures TriedSlot(env, infos'[x].service) in tried' && tried'[TriedSlot(env, infos'[x].service)] == x
    {
      assert x in infos.Keys;
    }
  }

  lemma PromoteKeeps(env: Env, s: State, r: State, id: nat)
    requires Orderly(env, s) && id in s.infos && !s.infos[id].inTried && s.infos[id].refCount == 0
    requires TriedSlot(env, s.infos[id].service) !in s.tried
    requires r == Promote(env, s, id)
    ensures Orderly(env, r)
  {
    MarkedIds(s.infos, r.infos, s.ids, s.idCount, id, true);
    MarkedRandom(s.infos, r.infos, s.random, id, true);
    PromoteTried(env, s.infos, r.infos, s.tried, id);
    MarkedNew(env, s.infos, r.infos, s.untested, id, true);
    CountsMove(env, s.infos, r.infos, s.tally, id);
  }

  // ----- Moving an entry to the tried table -----

  // The same entries, up to their place in the list and the tables.
  ghost predicate SameFacts(s: State, r: State) {
    && r.idCount == s.idCount && r.collisions == s.collisions && r.lastGood == s.lastGood
    && r.infos.Keys <= s.infos.Keys
    && forall x | x in r.infos :: r.infos[x].service == s.infos[x].service && r.infos[x].stats == s.infos[x].stats
  }

  function HomeSlot(env: Env, i: Info): Slot {
    NewSlot(env, i.service, i.stats.source)
  }

  // The occupant of a tried slot is a tried entry, which has no references.
  lemma TriedHolds(env: Env, s: State, slot: Slot)
    requires Orderly(env, s)
    ensures slot in s.tried ==>
              && s.tried[slot] in s.infos && s.infos[s.tried[slot]].inTried
              && s.infos[s.tried[slot]].refCount == 0
              && slot == TriedSlot(env, s.infos[s.tried[slot]].service)
  {
    if slot in s.tried {
      assert Slots(s.untested, s.tried[slot]) == {};
    }
  }

  // Taking a tried entry out and clearing its slot in the new table.
  lemma EvictSteps(env: Env, s: State, s1: State, s2: State, id: nat, slot: Slot)
    requires id in s.infos && s.infos[id].refCount == 0 && s1 == Demote(env, s, id) && Orderly(env, s1)
    requires s2 == ClearNew(env, s1, slot)
    ensures Orderly(env, s2) && Cleared(s1, s2, slot)
    ensures id in s2.infos && s2.infos[id].refCount == 0 && s2.infos[id].service == s.infos[id].service
    ensures !s2.infos[id].inTried
  {
    hide ClearNew, Orderly;
    assert id in s1.infos;
    SlotHolds(env, s1, slot);
    ClearNewKeeps(env, s1, s2, slot);
    assert Kept(s1.infos[id], s2.infos[id]);
  }

  // Moves a tried entry back to the new table, deleting what is in its way there.
  function Evict(env: Env, s: State, id: nat): State
    requires Orderly(env, s) && id in s.infos && s.infos[id].inTried && s.infos[id].refCount == 0
  {
    var s1, slot := Demote(env, s, id), HomeSlot(env, s.infos[id]);
    DemoteKeeps(env, s, s1, id);
    var s2 := ClearNew(env, s1, slot);
    EvictSteps(env, s, s1, s2, id, slot);
    Link(s2, id, slot)
  }

  // An evicted entry is in the new table, and every other entry that stays keeps its mark
  // and a reference if it had one.
  ghost predicate Evicted(env: Env, s: State, r: State, id: nat) {
    && SameFacts(s, r) && id in s.infos && id in r.infos && !r.infos[id].inTried && r.infos[id].refCount > 0
    && r.tried == s.tried - {TriedSlot(env, s.infos[id].service)}
    && HomeSlot(env, s.infos[id]) in r.untested && r.untested[HomeSlot(env, s.infos[id])] == id
    && (forall x | x in r.infos && x != id ::
          r.infos[x].inTried == s.infos[x].inTried && (r.infos[x].refCount == 0 ==> s.infos[x].refCount == 0))
    && (forall x | x in s.infos && s.infos[x].refCount == 0 && x != id :: x in r.infos && r.infos[x].refCount == 0)
  }

  lemma EvictedBy(env: Env, s: State, s1: State, s2: State, r: State, id: nat, slot: Slot)
    requires id in s.infos && s1 == Demote(env, s, id) && slot == HomeSlot(env, s.infos[id])
    requires Cleared(s1, s2, slot) && id in s2.infos && r == Link(s2, id, slot)
    requires forall x | x in s1.infos && s1.infos[x].refCount == 0 :: x in s2.infos && s2.infos[x].refCount == 0
    ensures Evicted(env, s, r, id)
  {
    assert s1.infos.Keys == s.infos.Keys && r.infos.Keys == s2.infos.Keys;
    forall x | x in r.infos
      ensures r.infos[x].service == s.infos[x].service && r.infos[x].stats == s.infos[x].stats
      ensures x != id ==>
        r.infos[x].inTried == s.infos[x].inTried && (r.infos[x].refCount == 0 ==> s.infos[x].refCount == 0)
    {
      assert x in s2.infos && Kept(s1.infos[x], s2.infos[x]);
    }
    forall x | x in s.infos && s.infos[x].refCount == 0 && x != id ensures x in r.infos && r.infos[x].refCount == 0 {
      assert x in s1.infos.Keys;
    }
  }

  lemma UnreferencedStay(env: Env, s: State, r: State, slot: Slot)
    requires Orderly(env, s) && Cleared(s, r, slot)
    ensures forall x | x in s.infos && s.infos[x].refCount == 0 :: x in r.infos && r.infos[x].refCount == 0
  {
    hide Orderly;
    SlotHolds(env, s, slot);
  }

  lemma EvictKeeps(env: Env, s: State, r: State, id: nat)
    requires Orderly(env, s) && id in s.infos && s.infos[id].inTried && s.infos[id].refCount == 0
    requires r == Evict(env, s, id)
    ensures Orderly(env, r) && Evicted(env, s, r, id)
  {
    hide Orderly, Demote, ClearNew, Link, Cleared, Evicted;
    var s1, slot := Demote(env, s, id), HomeSlot(env, s.infos[id]);
    DemoteKeeps(env, s, s1, id);
    var s2 := ClearNew(env, s1, slot);
    EvictSteps(env, s, s1, s2, id, slot);
    assert slot !in s2.untested by {
      ClearedEmpty(s1, s2, slot);
    }
    LinkKeeps(env, s2, r, id, slot);
    UnreferencedStay(env, s1, s2, slot);
    EvictedBy(env, s, s1, s2, r, id, slot);
  }

  lemma ClearedEmpty(s: State, r: State, slot: Slot)
    requires Cleared(s, r, slot)
    ensures slot !in r.untested
  {
  }

  // Takes an entry out of the new table and puts it into its tried slot, moving whoever is
  // there back to the new table.
  function MakeTried(env: Env, s: State, id: nat): State
    requires Orderly(env, s) && id in s.infos && !s.infos[id].inTried
  {
    var s1, slot := Unlink(s, id), TriedSlot(env, s.infos[id].service);
    UnlinkKeeps(env, s, s1, id);
    TriedHolds(env, s1, slot);
    if slot !in s1.tried then Promote(env, s1, id) else
    var s2 := Evict(env, s1, s1.tried[slot]);
    EvictKeeps(env, s1, s2, s1.tried[slot]);
    Promote(env, s2, id)
  }

  // What moving an entry to the tried table does: it takes its slot, the entry that was
  // there goes to the new table, and every other entry that stays keeps its mark and a
  // reference if it had one.
  ghost predicate MadeTried(env: Env, s: State, r: State, id: nat) {
    && SameFacts(s, r) && id in s.infos && id in r.infos && r.infos[id].inTried
    && var slot := TriedSlot(env, s.infos[id].service);
    && r.tried == s.tried[slot := id]
    && (forall x | x in r.infos && x != id && (slot in s.tried ==> x != s.tried[slot]) ::
          r.infos[x].inTried == s.infos[x].inTried && (r.infos[x].refCount == 0 ==> s.infos[x].refCount == 0))
    && (slot in s.tried ==> Returned(env, s, r, s.tried[slot]))
  }

  // Back in the new table, at the slot of its own source.
  ghost predicate Returned(env: Env, s: State, r: State, id: nat) {
    && id in s.infos && id in r.infos && !r.infos[id].inTried && r.infos[id].refCount > 0
    && HomeSlot(env, s.infos[id]) in r.untested && r.untested[HomeSlot(env, s.infos[id])] == id
  }

  lemma PromotedInto(env: Env, s: State, s1: State, r: State, id: nat, slot: Slot)
    requires id in s.infos && s1 == Unlink(s, id) && slot == TriedSlot(env, s.infos[id].service) && slot !in s.tried
    requires r == Promote(env, s1, id)
    ensures MadeTried(env, s, r, id)
  {
    assert s1.infos.Keys == s.infos.Keys && r.infos.Keys == s1.infos.Keys;
  }

  lemma OverFacts(env: Env, s: State, s1: State, s2: State, r: State, id: nat, was: nat)
    requires id in s.infos && was in s.infos && id != was && s1 == Unlink(s, id)
    requires Evicted(env, s1, s2, was) && id in s2.infos && r == Promote(env, s2, id)
    ensures SameFacts(s, r) && id in r.infos && r.infos[id].inTried && Returned(env, s, r, was)
    ensures forall x | x in r.infos && x != id && x != was ::
              r.infos[x].inTried == s.infos[x].inTried && (r.infos[x].refCount == 0 ==> s.infos[x].refCount == 0)
  {
    assert s1.infos.Keys == s.infos.Keys && r.infos.Keys == s2.infos.Keys;
    assert forall x | x in s.infos && x != id :: s1.infos[x] == s.infos[x];
    assert forall x | x in s2.infos && x != id :: r.infos[x] == s2.infos[x];
  }

  lemma PromotedOver(env: Env, s: State, s1: State, s2: State, r: State, id: nat, slot: Slot)
    requires id in s.infos && s1 == Unlink(s, id) && slot == TriedSlot(env, s.infos[id].service) && slot in s.tried
    requires s.tried[slot] in s.infos && s.tried[slot] != id && slot == TriedSlot(env, s.infos[s.tried[slot]].service)
    requires Evicted(env, s1, s2, s.tried[slot]) && id in s2.infos && r == Promote(env, s2, id)
    ensures MadeTried(env, s, r, id)
  {
    OverFacts(env, s, s1, s2, r, id, s.tried[slot]);
    assert r.tried == s.tried[slot := id];
  }

  lemma MakeTriedKeeps(env: Env, s: State, r: State, id: nat)
    requires Orderly(env, s) && id in s.infos && !s.infos[id].inTried
    requires r == MakeTried(env, s, id)
    ensures Orderly(env, r) && MadeTried(env, s, r, id)
  {
    hide Orderly, Evict, Promote, Evicted, MadeTried;
    var s1, slot := Unlink(s, id), TriedSlot(env, s.infos[id].service);
    UnlinkKeeps(env, s, s1, id);
    TriedHolds(env, s1, slot);
    if slot in s1.tried {
      var was := s1.tried[slot];
      var s2 := Evict(env, s1, was);
      EvictKeeps(env, s1, s2, was);
      StillThere(env, s1, s2, was, id);
      PromoteKeeps(env, s2, r, id);
      PromotedOver(env, s, s1, s2, r, id, slot);
    } else {
      PromoteKeeps(env, s1, r, id);
      PromotedInto(env, s, s1, r, id, slot);
    }
  }

  lemma StillThere(env: Env, s: State, r: State, was: nat, id: nat)
    requires Evicted(env, s, r, was) && id in s.infos && s.infos[id].refCount == 0 && id != was
    requires TriedSlot(env, s.infos[id].service) == TriedSlot(env, s.infos[was].service)
    ensures id in r.infos && r.infos[id].refCount == 0 && r.infos[id].inTried == s.infos[id].inTried
    ensures r.infos[id].stats == s.infos[id].stats && TriedSlot(env, r.infos[id].service) !in r.tried
  {
  }
}
