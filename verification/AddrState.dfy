/**
The address manager as a value: every known peer address with its statistics, the index
by address, the shuffled list of ids, the table of untested ("new") addresses, the table
of addresses that have worked ("tried"), and the counters kept beside them.

Bucket and position hashing is left open: an `Env` holds any functions with the right
ranges.  `Orderly` is the consistency condition of all these redundant structures.
*/
module AddrState {
  const NEW_BUCKETS_PER_ADDRESS := 8
  const SET_TRIED_COLLISION_SIZE := 10
  const RETRIES := 3
  const MAX_FAILURES := 10
  const MINUTE := 60
  const HOUR := 3600
  const DAY := 86400
  const HORIZON := 30 * DAY
  const MIN_FAIL := 7 * DAY
  const REPLACEMENT := 4 * HOUR
  const TEST_WINDOW := 40 * MINUTE

  type TriedSlotNumber = n: nat | n < 256 * 64
  type NewBucket = n: nat | n < 1024
  type Position = n: nat | n < 64

  datatype Network = Unroutable | IPv4 | IPv6 | Onion | I2P | CJDNS | Internal

  // A host address, and a host address with a port.
  type NetAddr(==, !new)
  type Service(==, !new)

  datatype Address = Address(service: Service, services: bv64, time: int)

  // What the secret key, the network groups and the address classification decide, as
  // finite tables with a default.  A run meets finitely many addresses, so any hashing and
  // any classification can be written down this way.
  datatype Env = Env(
    valid: set<Service>,
    routable: set<Service>,
    hosts: map<Service, NetAddr>,
    networks: map<Service, Network>,
    netClasses: map<Service, Network>,
    triedSlots: map<Service, TriedSlotNumber>,
    newBuckets: map<Service, map<NetAddr, NewBucket>>,
    newPositions: map<Service, map<nat, Position>>)
  {
    function Network(a: Service): Network {
      if a in networks then networks[a] else Unroutable
    }

    function NetClass(a: Service): Network {
      if a in netClasses then netClasses[a] else Unroutable
    }

    function NewBucketOf(a: Service, source: NetAddr): NewBucket {
      if a in newBuckets && source in newBuckets[a] then newBuckets[a][source] else 0
    }

    function NewPosition(a: Service, bucket: nat): Position {
      if a in newPositions && bucket in newPositions[a] then newPositions[a][bucket] else 0
    }
  }

  // What is known about an address.
  datatype Stats = Stats(
    services: bv64, time: int, source: NetAddr, lastTry: int, lastCount: int, lastSuccess: int, attempts: nat)
  {
    // Whether the statistics are bad enough to drop the entry.
    predicate IsTerrible(now: int) {
      if now - lastTry <= MINUTE then false
      else if time > now + 10 * MINUTE then true
      else if now - time > HORIZON then true
      else if lastSuccess == 0 && attempts >= RETRIES then true
      else now - lastSuccess > MIN_FAIL && attempts >= MAX_FAILURES
    }
  }

  datatype Info = Info(service: Service, stats: Stats, refCount: nat, inTried: bool, randomPos: nat)

  datatype Count = Count(untested: int, tried: int)

  // A slot of a table is 64 times its bucket plus its position.
  type Slot = nat
  type Infos = map<nat, Info>
  type Table = map<Slot, nat>
  type Counts = map<Network, Count>

  datatype Tally = Tally(all: Count, on: Counts)

  datatype State = State(
    idCount: nat,
    infos: Infos,
    ids: map<Service, nat>,
    random: seq<nat>,
    tried: Table,
    untested: Table,
    tally: Tally,
    lastGood: int,
    collisions: set<nat>)

  function Empty(): State {
    State(0, map[], map[], [], map[], map[], Tally(Count(0, 0), map[]), 1, {})
  }

  function TriedSlot(env: Env, a: Service): Slot {
    if a in env.triedSlots then env.triedSlots[a] else 0
  }

  // Whether an address may be in a slot of the new table.
  predicate InPlace(env: Env, a: Service, slot: Slot) {
    slot < 1024 * 64 && slot % 64 == env.NewPosition(a, slot / 64)
  }

  function NewSlot(env: Env, a: Service, source: NetAddr): (slot: Slot)
    ensures InPlace(env, a, slot)
  {
    var b := env.NewBucketOf(a, source);
    b * 64 + env.NewPosition(a, b)
  }

  // ----- Consistency -----

  ghost predicate IdsSane(infos: Infos, ids: map<Service, nat>, idCount: nat) {
    && (forall id | id in infos ::
          id < idCount && infos[id].service in ids && ids[infos[id].service] == id)
    && (forall a | a in ids :: ids[a] in infos && infos[ids[a]].service == a)
  }

  // The list and the positions are inverse to each other.
  ghost predicate RandomSane(infos: Infos, random: seq<nat>) {
    && (forall id {:trigger infos[id].randomPos} | id in infos ::
          infos[id].randomPos < |random| && random[infos[id].randomPos] == id)
    && (forall i {:trigger random[i] in infos} | 0 <= i < |random| ::
          random[i] in infos && infos[random[i]].randomPos == i)
  }

  // Exactly the tried entries are in the tried table, each at its own slot.
  ghost predicate TriedSane(env: Env, infos: Infos, tried: Table) {
    && (forall sl | sl in tried ::
          tried[sl] in infos && infos[tried[sl]].inTried && sl == TriedSlot(env, infos[tried[sl]].service))
    && (forall id | id in infos && infos[id].inTried ::
          TriedSlot(env, infos[id].service) in tried && tried[TriedSlot(env, infos[id].service)] == id)
  }

  // Where an entry is in the new table.
  function Slots(table: Table, id: nat): set<Slot> {
    set sl | sl in table && table[sl] == id
  }

  // Entries of the new table are at their place in the bucket.
  ghost predicate NewPlaced(env: Env, infos: Infos, untested: Table) {
    forall sl | sl in untested ::
      && untested[sl] in infos && !infos[untested[sl]].inTried
      && InPlace(env, infos[untested[sl]].service, sl)
  }

  // An entry's reference count is the number of its slots.
  ghost predicate RefsCounted(infos: Infos, untested: Table) {
    forall id | id in infos ::
      infos[id].refCount == |Slots(untested, id)| <= NEW_BUCKETS_PER_ADDRESS
  }

  ghost predicate NewSane(env: Env, infos: Infos, untested: Table) {
    NewPlaced(env, infos, untested) && RefsCounted(infos, untested)
  }

  ghost function Ids(infos: Infos, t: bool): set<nat> {
    set id | id in infos && infos[id].inTried == t
  }

  ghost function IdsOn(env: Env, infos: Infos, t: bool, n: Network): set<nat> {
    set id | id in infos && infos[id].inTried == t && env.Network(infos[id].service) == n
  }

  function CountOf(counts: Counts, n: Network): Count {
    if n in counts then counts[n] else Count(0, 0)
  }

  ghost predicate CountsSane(env: Env, infos: Infos, tally: Tally) {
    && tally.all == Count(|Ids(infos, false)|, |Ids(infos, true)|)
    && forall n: Network ::
         CountOf(tally.on, n) == Count(|IdsOn(env, infos, false, n)|, |IdsOn(env, infos, true, n)|)
  }

  // The recorded times are those the manager's own check accepts.
  ghost predicate TimesSane(infos: Infos) {
    forall id | id in infos ::
      && infos[id].stats.lastTry >= 0 && infos[id].stats.lastSuccess >= 0
      && (infos[id].inTried ==> infos[id].stats.lastSuccess > 0)
  }

  // The structures agree with each other.
  ghost predicate Orderly(env: Env, s: State) {
    && IdsSane(s.infos, s.ids, s.idCount)
    && RandomSane(s.infos, s.random)
    && TriedSane(env, s.infos, s.tried)
    && NewSane(env, s.infos, s.untested)
    && CountsSane(env, s.infos, s.tally)
  }

  // Only a loose entry may be in neither table.
  ghost predicate Referenced(infos: Infos, loose: set<nat>) {
    forall id | id in infos && id !in loose :: infos[id].inTried || infos[id].refCount > 0
  }

  // A pending collision whose entry is still known wants a slot that is taken.
  ghost predicate CollisionsSane(env: Env, s: State) {
    && |s.collisions| <= SET_TRIED_COLLISION_SIZE
    && (forall id | id in s.collisions :: id < s.idCount)
    && (forall id | id in s.collisions && id in s.infos ::
          !s.infos[id].inTried && TriedSlot(env, s.infos[id].service) in s.tried)
  }

  ghost predicate Inv(env: Env, s: State) {
    Orderly(env, s) && Referenced(s.infos, {}) && CollisionsSane(env, s)
  }

  // ----- What the conditions depend on -----

  // The same entries, up to fields that only describe them.
  ghost predicate Alike(infos: Infos, infos': Infos) {
    && infos'.Keys == infos.Keys
    && forall id | id in infos ::
         infos'[id].service == infos[id].service && infos'[id].inTried == infos[id].inTried
  }

  ghost predicate SameRefs(infos: Infos, infos': Infos) {
    infos'.Keys == infos.Keys && forall id | id in infos :: infos'[id].refCount == infos[id].refCount
  }

  lemma AlikeIds(infos: Infos, infos': Infos, ids: map<Service, nat>, idCount: nat)
    requires IdsSane(infos, ids, idCount) && Alike(infos, infos')
    ensures IdsSane(infos', ids, idCount)
  {
    forall a | a in ids ensures ids[a] in infos' && infos'[ids[a]].service == a {
      assert ids[a] in infos.Keys;
    }
    forall id | id in infos' ensures id < idCount && infos'[id].service in ids && ids[infos'[id].service] == id {
      assert id in infos.Keys;
    }
  }

  lemma AlikeTried(env: Env, infos: Infos, infos': Infos, tried: Table)
    requires TriedSane(env, infos, tried) && Alike(infos, infos')
    ensures TriedSane(env, infos', tried)
  {
    forall sl | sl in tried
      ensures tried[sl] in infos' && infos'[tried[sl]].inTried && sl == TriedSlot(env, infos'[tried[sl]].service)
    {
      assert tried[sl] in infos.Keys;
    }
    forall id | id in infos' && infos'[id].inTried
      ensures TriedSlot(env, infos'[id].service) in tried && tried[TriedSlot(env, infos'[id].service)] == id
    {
      assert id in infos.Keys;
    }
  }

  lemma AlikeNew(env: Env, infos: Infos, infos': Infos, untested: Table)
    requires NewSane(env, infos, untested) && Alike(infos, infos') && SameRefs(infos, infos')
    ensures NewSane(env, infos', untested)
  {
    forall sl | sl in untested
      ensures untested[sl] in infos' && infos'[untested[sl]].service == infos[untested[sl]].service
      ensures !infos'[untested[sl]].inTried
    {
      assert untested[sl] in infos.Keys;
    }
    assert forall id | id in infos' :: id in infos.Keys;
  }

  lemma AlikeCounts(env: Env, infos: Infos, infos': Infos, tally: Tally)
    requires CountsSane(env, infos, tally) && Alike(infos, infos')
    ensures CountsSane(env, infos', tally)
  {
    assert forall id :: id in infos' <==> id in infos.Keys;
    assert Ids(infos', true) == Ids(infos, true);
    assert Ids(infos', false) == Ids(infos, false);
    forall n: Network
      ensures CountOf(tally.on, n) == Count(|IdsOn(env, infos', false, n)|, |IdsOn(env, infos', true, n)|)
    {
      assert IdsOn(env, infos', true, n) == IdsOn(env, infos, true, n);
      assert IdsOn(env, infos', false, n) == IdsOn(env, infos, false, n);
    }
  }

  lemma AlikeRandom(infos: Infos, infos': Infos, random: seq<nat>)
    requires RandomSane(infos, random) && infos'.Keys == infos.Keys
    requires forall id | id in infos :: infos'[id].randomPos == infos[id].randomPos
    ensures RandomSane(infos', random)
  {
    assert forall id :: id in infos' <==> id in infos.Keys;
  }

  ghost predicate SameTables(s: State, r: State) {
    r.idCount == s.idCount && r.ids == s.ids && r.tried == s.tried && r.untested == s.untested && r.tally == s.tally
  }

  // Changing neither the tables nor which table an entry is in.
  lemma AlikeKeeps(env: Env, s: State, r: State)
    requires Orderly(env, s) && Alike(s.infos, r.infos) && SameRefs(s.infos, r.infos)
    requires RandomSane(r.infos, r.random) && SameTables(s, r)
    ensures Orderly(env, r)
  {
    AlikeIds(s.infos, r.infos, s.ids, s.idCount);
    AlikeTried(env, s.infos, r.infos, s.tried);
    AlikeNew(env, s.infos, r.infos, s.untested);
    AlikeCounts(env, s.infos, r.infos, s.tally);
  }

  // The same entries, up to their references.
  ghost predicate OnlyRefs(infos: Infos, infos': Infos) {
    && infos'.Keys == infos.Keys
    && forall id | id in infos ::
         && infos'[id].service == infos[id].service && infos'[id].stats == infos[id].stats
         && infos'[id].inTried == infos[id].inTried && infos'[id].randomPos == infos[id].randomPos
  }

  lemma OnlyRefsSet(infos: Infos, infos': Infos, id: nat, n: nat)
    requires id in infos && infos' == infos[id := infos[id].(refCount := n)]
    ensures OnlyRefs(infos, infos')
  {
    assert infos'.Keys == infos.Keys;
  }

  // Changing the new table only.
  lemma RefsKeep(env: Env, s: State, r: State)
    requires Orderly(env, s) && OnlyRefs(s.infos, r.infos) && NewSane(env, r.infos, r.untested)
    requires r.idCount == s.idCount && r.ids == s.ids && r.random == s.random && r.tried == s.tried
    requires r.tally == s.tally
    ensures Orderly(env, r)
  {
    AlikeIds(s.infos, r.infos, s.ids, s.idCount);
    AlikeRandom(s.infos, r.infos, s.random);
    AlikeTried(env, s.infos, r.infos, s.tried);
    AlikeCounts(env, s.infos, r.infos, s.tally);
  }

  lemma SizeLess<T>(a: set<T>, b: set<T>, x: T)
    requires x !in b && forall y :: y in b <==> y in a && y != x
    ensures |b| == |a| - if x in a then 1 else 0
  {
    assert b == a - {x};
  }
}
