/**
What is saved is loaded again: the same tables, entries, reference counts and counts per
network, with the ids renumbered.
*/
module AddrReload {
  import opened Options
  import opened AddrState
  import opened AddrTables
  import opened AddrCheck
  import opened AddrFile

  // The ids of the saved entries, first those of the new table: entry k of the file was entry
  // old[k].
  ghost function Old(s: State, order: seq<nat>): (ids: seq<nat>)
    requires Walk(s.infos, order)
  {
    Chosen(s.infos, order, false) + Chosen(s.infos, order, true)
  }

  // The ids are those of all entries, the first n in the new table and the others tried.
  ghost predicate Renumbers(infos: Infos, ids: seq<nat>, n: nat) {
    && Once(ids) && n <= |ids|
    && (forall id :: id in ids <==> id in infos)
    && (forall k | 0 <= k < |ids| :: ids[k] in infos && infos[ids[k]].inTried == (k >= n))
  }

  lemma OldIs(env: Env, s: State, order: seq<nat>)
    requires Orderly(env, s) && Referenced(s.infos, {}) && Walk(s.infos, order)
    ensures Renumbers(s.infos, Old(s, order), |Chosen(s.infos, order, false)|)
  {
    hide Orderly;
    var news, tried := Chosen(s.infos, order, false), Chosen(s.infos, order, true);
    ChosenFrom(s.infos, order, false);
    ChosenFrom(s.infos, order, true);
    ChosenOnce(s.infos, order, false);
    ChosenOnce(s.infos, order, true);
    forall id | id in s.infos
      ensures s.infos[id].refCount != 0 <==> !s.infos[id].inTried
    {
      RefsOrTried(env, s, id);
    }
    OnceBoth(news, tried);
    var ids := news + tried;
    forall k | 0 <= k < |ids|
      ensures ids[k] in s.infos && s.infos[ids[k]].inTried == (k >= |news|)
    {
      assert if k < |news| then ids[k] == news[k] && news[k] in news else ids[k] == tried[k - |news|] && ids[k] in tried;
    }
  }

  lemma RefsOrTried(env: Env, s: State, id: nat)
    requires Orderly(env, s) && Referenced(s.infos, {}) && id in s.infos
    ensures s.infos[id].refCount != 0 <==> !s.infos[id].inTried
  {
    if s.infos[id].inTried {
      assert Slots(s.untested, id) == {};
    }
  }

  lemma OnceBoth(a: seq<nat>, b: seq<nat>)
    requires Once(a) && Once(b) && forall x | x in a :: x !in b
    ensures Once(a + b)
  {
    var s := a + b;
    forall i, j | 0 <= i < j < |s|
      ensures s[i] != s[j]
    {
      assert i < |a| ==> s[i] in a;
      assert j >= |a| ==> s[j] in b;
    }
  }

  // ----- The entries -----

  // The first k entries are loaded, without references.
  ghost predicate Loaded(infos: Infos, ids: seq<nat>, n: nat, k: nat, r: State) {
    && k <= |ids| && r.idCount == k && r.untested == map[] && r.collisions == {}
    && (forall x: nat :: x in r.infos <==> x < k)
    && (forall x: nat | x < k ::
          ids[x] in infos && Same(infos[ids[x]], r.infos[x], x >= n) && r.infos[x].refCount == 0)
  }

  ghost predicate Same(i: Info, j: Info, inTried: bool) {
    j.service == i.service && j.stats == LoadedStats(SavedOf(i)) && j.inTried == inTried
  }

  lemma ServicesDiffer(env: Env, s: State, i: nat, j: nat)
    requires Orderly(env, s) && i in s.infos && j in s.infos && i != j
    ensures s.infos[i].service != s.infos[j].service
    ensures s.infos[i].inTried && s.infos[j].inTried ==>
      TriedSlot(env, s.infos[i].service) != TriedSlot(env, s.infos[j].service)
  {
  }

  // A service that was not loaded yet is not known yet, and neither is its slot taken.
  lemma NotYet(env: Env, s: State, ids: seq<nat>, n: nat, k: nat, r: State)
    requires Orderly(env, s) && Renumbers(s.infos, ids, n) && k < |ids|
    requires Orderly(env, r) && Loaded(s.infos, ids, n, k, r)
    ensures s.infos[ids[k]].service !in r.ids
    ensures k >= n ==> TriedSlot(env, s.infos[ids[k]].service) !in r.tried
  {
    hide Orderly;
    var a := s.infos[ids[k]].service;
    Known(env, r, a);
    if a in r.ids {
      ServicesDiffer(env, s, ids[r.ids[a]], ids[k]);
    }
    var slot := TriedSlot(env, a);
    TriedHolds(env, r, slot);
    if k >= n && slot in r.tried {
      ServicesDiffer(env, s, ids[r.tried[slot]], ids[k]);
    }
  }

  lemma Known(env: Env, s: State, a: Service)
    requires Orderly(env, s)
    ensures a in s.ids ==> s.ids[a] in s.infos && s.infos[s.ids[a]].service == a
  {
  }

  lemma EmptyOrderly(env: Env)
    ensures Orderly(env, Empty())
  {
    var s := Empty();
    assert forall id :: Slots(s.untested, id) == {};
    assert forall t :: Ids(s.infos, t) == {};
    assert forall t, m :: IdsOn(env, s.infos, t, m) == {};
  }

  lemma LoadedCreate(env: Env, infos: Infos, ids: seq<nat>, n: nat, k: nat, r: State, r': State, stats: Stats)
    requires Loaded(infos, ids, n, k, r) && k < |ids| && ids[k] in infos && stats == LoadedStats(SavedOf(infos[ids[k]]))
    requires r' == Create(env, r, infos[ids[k]].service, stats)
    ensures k in r'.infos && r'.infos[k] == Info(infos[ids[k]].service, stats, 0, false, |r.random|)
    ensures k < n ==> Loaded(infos, ids, n, k + 1, r')
    ensures k >= n ==> Loaded(infos, ids, n, k + 1, Promote(env, r', k))
  {
  }

  lemma LoadedNew(env: Env, s: State, ids: seq<nat>, n: nat, k: nat, r: State, r': State, x: Saved)
    requires Orderly(env, s) && Renumbers(s.infos, ids, n) && k < n
    requires Orderly(env, r) && Loaded(s.infos, ids, n, k, r) && x == SavedOf(s.infos[ids[k]])
    requires r' == Create(env, r, x.service, LoadedStats(x))
    ensures Orderly(env, r') && Loaded(s.infos, ids, n, k + 1, r')
  {
    hide Orderly, Loaded, Create;
    NotYet(env, s, ids, n, k, r);
    CreateKeeps(env, r, r', x.service, LoadedStats(x));
    LoadedCreate(env, s.infos, ids, n, k, r, r', LoadedStats(x));
  }

  // Loading a tried entry is creating it and moving it to its slot.
  lemma TriedIsPromoted(env: Env, s: State, x: Saved)
    requires x.service in env.valid && TriedSlot(env, x.service) !in s.tried
    ensures var s1 := Create(env, s, x.service, LoadedStats(x));
      s.idCount in s1.infos && LoadOneTried(env, s, x) == Promote(env, s1, s.idCount)
  {
    var s1 := Create(env, s, x.service, LoadedStats(x));
    var r, p := LoadOneTried(env, s, x), Promote(env, s1, s.idCount);
    assert r.infos == p.infos;
    assert r.tally.on == p.tally.on;
  }

  lemma LoadedTried(env: Env, s: State, ids: seq<nat>, n: nat, k: nat, r: State, r': State, x: Saved)
    requires Orderly(env, s) && Renumbers(s.infos, ids, n) && n <= k < |ids|
    requires Orderly(env, r) && Loaded(s.infos, ids, n, k, r) && x == SavedOf(s.infos[ids[k]])
    requires x.service in env.valid && r' == LoadOneTried(env, r, x)
    ensures Orderly(env, r') && Loaded(s.infos, ids, n, k + 1, r')
  {
    hide Orderly, Loaded, Create, Promote, LoadOneTried;
    LoadedCount(s.infos, ids, n, k, r);
    NotYet(env, s, ids, n, k, r);
    TriedIsPromoted(env, r, x);
    var r1 := Create(env, r, x.service, LoadedStats(x));
    CreateKeeps(env, r, r1, x.service, LoadedStats(x));
    LoadedCreate(env, s.infos, ids, n, k, r, r1, LoadedStats(x));
    CreatedTried(env, r, r1, x.service, LoadedStats(x));
    PromoteKeeps(env, r1, r', k);
  }

  lemma LoadedCount(infos: Infos, ids: seq<nat>, n: nat, k: nat, r: State)
    requires Loaded(infos, ids, n, k, r)
    ensures r.idCount == k
  {
  }

  lemma CreatedTried(env: Env, s: State, r: State, a: Service, stats: Stats)
    requires r == Create(env, s, a, stats)
    ensures r.tried == s.tried
  {
  }

  // The file lists the entries with these ids.
  ghost predicate Lists(infos: Infos, ids: seq<nat>, xs: seq<Saved>) {
    |xs| == |ids| && forall i | 0 <= i < |ids| :: ids[i] in infos && xs[i] == SavedOf(infos[ids[i]])
  }

  lemma {:induction false} LoadsNew(env: Env, s: State, ids: seq<nat>, n: nat, xs: seq<Saved>)
    requires Orderly(env, s) && Renumbers(s.infos, ids, n) && |xs| <= n && Lists(s.infos, ids[..|xs|], xs)
    ensures Orderly(env, LoadNew(env, xs)) && Loaded(s.infos, ids, n, |xs|, LoadNew(env, xs))
    decreases |xs|
  {
    hide Orderly, Loaded, Create;
    if xs == [] {
      EmptyOrderly(env);
      LoadedNothing(s.infos, ids, n);
    } else {
      var k := |xs| - 1;
      assert ids[..k + 1][..k] == ids[..k];
      LoadsNew(env, s, ids, n, xs[..k]);
      assert xs[k] == SavedOf(s.infos[ids[..k + 1][k]]);
      LoadedNew(env, s, ids, n, k, LoadNew(env, xs[..k]), LoadNew(env, xs), xs[k]);
    }
  }

  lemma LoadedNothing(infos: Infos, ids: seq<nat>, n: nat)
    ensures Loaded(infos, ids, n, 0, Empty())
  {
  }

  lemma {:induction false} LoadsTried(env: Env, s: State, ids: seq<nat>, n: nat, r: State, xs: seq<Saved>)
    requires Orderly(env, s) && Renumbers(s.infos, ids, n)
    requires n + |xs| <= |ids| && Lists(s.infos, ids[n..n + |xs|], xs)
    requires forall i | 0 <= i < |xs| :: xs[i].service in env.valid
    requires Orderly(env, r) && Loaded(s.infos, ids, n, n, r)
    ensures Orderly(env, LoadTried(env, r, xs)) && Loaded(s.infos, ids, n, n + |xs|, LoadTried(env, r, xs))
    decreases |xs|
  {
    hide Orderly, Loaded, LoadOneTried;
    if xs != [] {
      var k := |xs| - 1;
      assert ids[n..n + k + 1][..k] == ids[n..n + k];
      LoadsTried(env, s, ids, n, r, xs[..k]);
      assert xs[k] == SavedOf(s.infos[ids[n..n + k + 1][k]]);
      LoadedTried(env, s, ids, n, n + k, LoadTried(env, r, xs[..k]), LoadTried(env, r, xs), xs[k]);
    }
  }

  // ----- The references -----

  // What the file says of the first c cells of the new table.
  function CellReferences(untested: Table, news: seq<nat>, c: nat): (r: seq<Reference>) {
    if c == 0 then []
    else
      CellReferences(untested, news, c - 1) +
      if c - 1 in untested then [Reference((c - 1) / 64, Index(news, untested[c - 1]))] else []
  }

  lemma {:induction false} BucketIsCells(untested: Table, news: seq<nat>, b: nat, n: nat)
    requires n <= 64 && forall sl | sl in untested :: untested[sl] in news
    ensures CellReferences(untested, news, b * 64 + n)
         == CellReferences(untested, news, b * 64) + BucketReferences(b, Bucket(untested, news, b, n), |news|)
  {
    if n > 0 {
      BucketIsCells(untested, news, b, n - 1);
      var before, all := Bucket(untested, news, b, n - 1), Bucket(untested, news, b, n);
      var c := b * 64 + n - 1;
      assert c / 64 == b;
      if c in untested {
        assert all[..|all| - 1] == before;
      } else {
        assert all == before;
      }
    }
  }

  lemma {:induction false} FileIsCells(untested: Table, news: seq<nat>, buckets: seq<seq<int>>)
    requires forall sl | sl in untested :: untested[sl] in news
    requires forall b | 0 <= b < |buckets| :: buckets[b] == Bucket(untested, news, b, 64)
    ensures References(buckets, |news|) == CellReferences(untested, news, 64 * |buckets|)
    decreases |buckets|
  {
    hide BucketReferences, Bucket;
    if buckets != [] {
      var b := |buckets| - 1;
      FileIsCells(untested, news, buckets[..b]);
      BucketIsCells(untested, news, b, 64);
      assert b * 64 + 64 == 64 * |buckets|;
    } else {
      assert CellReferences(untested, news, 0) == [];
    }
  }

  function Below(table: Table, c: nat): Table {
    map sl | sl in table && sl < c :: table[sl]
  }

  lemma BelowNext(table: Table, c: nat, id: nat)
    ensures c in table ==> Below(table, c + 1) == Below(table, c)[c := table[c]]
    ensures c !in table ==> Below(table, c + 1) == Below(table, c)
    ensures c in table ==>
      |Slots(Below(table, c + 1), id)| == |Slots(Below(table, c), id)| + if id == table[c] then 1 else 0
  {
    if c in table {
      assert Below(table, c + 1) == Below(table, c)[c := table[c]];
      SlotsAdd(Below(table, c), Below(table, c + 1), c, table[c], id);
    }
  }

  lemma BelowSize(table: Table, c: nat, id: nat)
    ensures |Slots(Below(table, c), id)| <= |Slots(table, id)|
  {
    assert Slots(Below(table, c), id) <= Slots(table, id);
    SizeMono(Slots(Below(table, c), id), Slots(table, id));
  }

  // All entries are loaded, with the references of the first c cells.
  ghost predicate Linked(infos: Infos, untested: Table, ids: seq<nat>, n: nat, c: nat, r: State) {
    EntriesLinked(infos, untested, ids, n, c, r.infos) && CellsLinked(untested, ids, n, c, r.untested)
  }

  ghost predicate EntriesLinked(infos: Infos, untested: Table, ids: seq<nat>, n: nat, c: nat, loaded: Infos) {
    && (forall x: nat :: x in loaded <==> x < |ids|)
    && (forall x: nat | x < |ids| ::
          && ids[x] in infos && Same(infos[ids[x]], loaded[x], x >= n)
          && loaded[x].refCount == |Slots(Below(untested, c), ids[x])|)
  }

  ghost predicate CellsLinked(untested: Table, ids: seq<nat>, n: nat, c: nat, table: Table) {
    && n <= |ids|
    && (forall sl :: sl in table <==> sl in untested && sl < c)
    && (forall sl | sl in table :: table[sl] < n && ids[table[sl]] == untested[sl])
  }

  lemma LinkedStart(infos: Infos, untested: Table, ids: seq<nat>, n: nat, r: State)
    requires Loaded(infos, ids, n, |ids|, r) && n <= |ids|
    ensures Linked(infos, untested, ids, n, 0, r)
  {
    assert Below(untested, 0) == map[];
    assert forall id :: Slots(Below(untested, 0), id) == {};
  }

  lemma LinkedSkip(infos: Infos, untested: Table, ids: seq<nat>, n: nat, c: nat, r: State)
    requires Linked(infos, untested, ids, n, c, r) && c !in untested
    ensures Linked(infos, untested, ids, n, c + 1, r)
  {
    BelowNext(untested, c, 0);
  }

  lemma LinkedLink(infos: Infos, untested: Table, ids: seq<nat>, n: nat, c: nat, r: State, r': State, k: nat)
    requires Linked(infos, untested, ids, n, c, r) && c in untested && k < n <= |ids| && ids[k] == untested[c]
    requires Once(ids) && k in r.infos && r' == Link(r, k, c)
    ensures Linked(infos, untested, ids, n, c + 1, r')
  {
    EntryLinks(infos, untested, ids, n, c, r.infos, r'.infos, k);
    CellLinks(untested, ids, n, c, r.untested, k);
  }

  lemma EntryLinks(infos: Infos, untested: Table, ids: seq<nat>, n: nat, c: nat, loaded: Infos, loaded': Infos, k: nat)
    requires EntriesLinked(infos, untested, ids, n, c, loaded) && c in untested && k < |ids| && ids[k] == untested[c]
    requires Once(ids) && k in loaded && loaded' == loaded[k := loaded[k].(refCount := loaded[k].refCount + 1)]
    ensures EntriesLinked(infos, untested, ids, n, c + 1, loaded')
  {
    hide Below, Slots;
    forall x: nat | x < |ids|
      ensures x in loaded' && Same(infos[ids[x]], loaded'[x], x >= n)
      ensures loaded'[x].refCount == |Slots(Below(untested, c + 1), ids[x])|
    {
      BelowNext(untested, c, ids[x]);
    }
  }

  lemma CellLinks(untested: Table, ids: seq<nat>, n: nat, c: nat, table: Table, k: nat)
    requires CellsLinked(untested, ids, n, c, table) && c in untested && k < n && ids[k] == untested[c]
    ensures CellsLinked(untested, ids, n, c + 1, table[c := k])
  {
  }

  // The place of an entry in the new table, and how many there are.
  lemma InItsPlace(env: Env, s: State, c: nat)
    requires Orderly(env, s) && c in s.untested
    ensures var id := s.untested[c];
      && id in s.infos && !s.infos[id].inTried && c < 1024 * 64 && c % 64 == env.NewPosition(s.infos[id].service, c / 64)
      && |Slots(s.untested, id)| <= NEW_BUCKETS_PER_ADDRESS && |Slots(s.untested, id)| == s.infos[id].refCount
  {
  }

  lemma LinkedAt(infos: Infos, untested: Table, ids: seq<nat>, n: nat, c: nat, r: State, k: nat)
    requires Linked(infos, untested, ids, n, c, r) && c in untested && k < n <= |ids| && ids[k] == untested[c]
    requires |Slots(untested, untested[c])| <= NEW_BUCKETS_PER_ADDRESS
    ensures c !in r.untested && k in r.infos && ids[k] in infos && !r.infos[k].inTried
    ensures r.infos[k].service == infos[ids[k]].service && r.infos[k].refCount < NEW_BUCKETS_PER_ADDRESS
  {
    hide Below, Slots;
    BelowNext(untested, c, untested[c]);
    BelowSize(untested, c + 1, untested[c]);
  }

  // An entry gets its cell back.
  lemma Relinked(env: Env, s: State, ids: seq<nat>, n: nat, c: nat, r: State, r': State, k: nat)
    requires Orderly(env, s) && Once(ids) && c in s.untested && k < n <= |ids| && ids[k] == s.untested[c]
    requires Orderly(env, r) && Linked(s.infos, s.untested, ids, n, c, r)
    requires s.untested[c] in s.infos && s.infos[s.untested[c]].service in env.valid
    requires r' == Restored(env, r, Reference(c / 64, k), true)
    ensures Orderly(env, r') && Linked(s.infos, s.untested, ids, n, c + 1, r')
  {
    hide Orderly, Link, Once, Linked, Slots;
    InItsPlace(env, s, c);
    LinkedAt(s.infos, s.untested, ids, n, c, r, k);
    assert c / 64 * 64 + c % 64 == c;
    LinkKeeps(env, r, r', k, c);
    LinkedLink(s.infos, s.untested, ids, n, c, r, r', k);
  }

  lemma {:induction false} RestoresCells(env: Env, s: State, ids: seq<nat>, n: nat, c: nat, r: State)
    requires Orderly(env, s) && Renumbers(s.infos, ids, n)
    requires forall id | id in s.infos :: s.infos[id].service in env.valid
    requires Orderly(env, r) && Linked(s.infos, s.untested, ids, n, 0, r)
    ensures var t := RestoredAll(env, r, CellReferences(s.untested, ids[..n], c), true);
      Orderly(env, t) && Linked(s.infos, s.untested, ids, n, c, t)
    decreases c
  {
    hide Orderly, Linked, Restored;
    if c > 0 {
      RestoresCells(env, s, ids, n, c - 1, r);
      var before, all := CellReferences(s.untested, ids[..n], c - 1), CellReferences(s.untested, ids[..n], c);
      if c - 1 in s.untested {
        InItsPlace(env, s, c - 1);
        var k := Index(ids[..n], s.untested[c - 1]);
        NewIsEarly(s.infos, ids, n, s.untested[c - 1]);
        assert all[..|all| - 1] == before;
        Relinked(env, s, ids, n, c - 1, RestoredAll(env, r, before, true), RestoredAll(env, r, all, true), k);
      } else {
        assert all == before;
        LinkedSkip(s.infos, s.untested, ids, n, c - 1, RestoredAll(env, r, before, true));
      }
    }
  }

  lemma NewIsEarly(infos: Infos, ids: seq<nat>, n: nat, id: nat)
    requires Renumbers(infos, ids, n) && id in infos && !infos[id].inTried
    ensures id in ids[..n]
  {
    var k :| 0 <= k < |ids| && ids[k] == id;
    assert ids[..n][k] == id;
  }

  // ----- The whole -----

  // The same manager with other ids: entry x of r is entry ids[x] of s.
  ghost predicate Renamed(s: State, r: State, ids: seq<nat>, n: nat) {
    && Renumbers(s.infos, ids, n) && Copied(s.infos, r.infos, ids, n)
    && (forall x: nat | x < |ids| :: r.infos[x].refCount == s.infos[ids[x]].refCount)
    && SameTable(s.untested, r.untested, ids) && SameTable(s.tried, r.tried, ids)
    && r.tally.all == s.tally.all && forall m: Network :: CountOf(r.tally.on, m) == CountOf(s.tally.on, m)
  }

  ghost predicate SameTable(table: Table, table': Table, ids: seq<nat>) {
    && (forall sl :: sl in table' <==> sl in table)
    && (forall sl | sl in table :: table'[sl] < |ids| && ids[table'[sl]] == table[sl])
  }

  lemma BelowAll(env: Env, s: State)
    requires Orderly(env, s)
    ensures Below(s.untested, 1024 * 64) == s.untested
  {
    hide Orderly;
    forall sl | sl in s.untested
      ensures sl < 1024 * 64
    {
      InItsPlace(env, s, sl);
    }
  }

  // The entries are copied, up to references and list positions.
  ghost predicate Copied(s: Infos, r: Infos, ids: seq<nat>, n: nat) {
    && (forall x: nat :: x in r <==> x < |ids|)
    && (forall x: nat | x < |ids| :: ids[x] in s && Same(s[ids[x]], r[x], x >= n))
  }

  lemma LinkedCopied(infos: Infos, untested: Table, ids: seq<nat>, n: nat, c: nat, r: State)
    requires Linked(infos, untested, ids, n, c, r)
    ensures Copied(infos, r.infos, ids, n)
  {
  }

  // With all cells, every entry has its references back.
  lemma RefsBack(env: Env, s: State, loaded: Infos, ids: seq<nat>, n: nat)
    requires Orderly(env, s) && EntriesLinked(s.infos, s.untested, ids, n, 1024 * 64, loaded)
    ensures forall x: nat | x < |ids| :: ids[x] in s.infos && x in loaded && loaded[x].refCount == s.infos[ids[x]].refCount
  {
    hide Orderly, Slots, Below, Same;
    BelowAll(env, s);
    forall x: nat | x < |ids|
      ensures ids[x] in s.infos && x in loaded && loaded[x].refCount == s.infos[ids[x]].refCount
    {
      Referencing(env, s, ids[x]);
    }
  }

  lemma CellsBack(env: Env, s: State, ids: seq<nat>, n: nat, table: Table)
    requires Orderly(env, s) && CellsLinked(s.untested, ids, n, 1024 * 64, table)
    ensures SameTable(s.untested, table, ids)
  {
    hide Orderly;
    forall sl | sl in s.untested
      ensures sl in table
    {
      InItsPlace(env, s, sl);
    }
  }

  lemma Referencing(env: Env, s: State, id: nat)
    requires Orderly(env, s) && id in s.infos
    ensures s.infos[id].refCount == |Slots(s.untested, id)|
  {
  }

  lemma CopiedAt(s: Infos, r: Infos, ids: seq<nat>, n: nat, x: nat)
    requires Copied(s, r, ids, n) && Renumbers(s, ids, n) && x < |ids|
    ensures x in r && ids[x] in s && r[x].service == s[ids[x]].service && r[x].inTried == s[ids[x]].inTried
  {
  }

  // The tried table follows from the entries.
  lemma TriedFollows(env: Env, s: State, r: State, ids: seq<nat>, n: nat)
    requires Orderly(env, s) && Orderly(env, r) && Renumbers(s.infos, ids, n) && Copied(s.infos, r.infos, ids, n)
    ensures SameTable(s.tried, r.tried, ids)
  {
    hide Orderly, Copied, Renumbers;
    forall sl | sl in r.tried
      ensures sl in s.tried
    {
      TriedHolds(env, r, sl);
      CopiedSize(s.infos, r.infos, ids, n, r.tried[sl]);
      CopiedAt(s.infos, r.infos, ids, n, r.tried[sl]);
      HasSlot(env, s, ids[r.tried[sl]]);
    }
    forall sl | sl in s.tried
      ensures sl in r.tried && r.tried[sl] < |ids| && ids[r.tried[sl]] == s.tried[sl]
    {
      TriedHolds(env, s, sl);
      var x := NumberOf(s.infos, ids, n, s.tried[sl]);
      CopiedAt(s.infos, r.infos, ids, n, x);
      HasSlot(env, r, x);
    }
  }

  lemma CopiedSize(s: Infos, r: Infos, ids: seq<nat>, n: nat, x: nat)
    requires Copied(s, r, ids, n)
    ensures x in r <==> x < |ids|
  {
  }

  lemma NumberOf(infos: Infos, ids: seq<nat>, n: nat, id: nat) returns (x: nat)
    requires Renumbers(infos, ids, n) && id in infos
    ensures x < |ids| && ids[x] == id
  {
    assert id in ids;
    x :| x < |ids| && ids[x] == id;
  }

  lemma HasSlot(env: Env, s: State, id: nat)
    requires Orderly(env, s) && id in s.infos && s.infos[id].inTried
    ensures TriedSlot(env, s.infos[id].service) in s.tried && s.tried[TriedSlot(env, s.infos[id].service)] == id
  {
  }

  // Renumbering keeps sizes.
  lemma {:induction false} ImageSize(ids: seq<nat>, a: set<nat>, b: set<nat>)
    requires Once(ids) && (forall x | x in a :: x < |ids| && ids[x] in b)
    requires forall y | y in b :: exists x | x in a :: x < |ids| && ids[x] == y
    ensures |a| == |b|
    decreases a
  {
    if a == {} {
      assert b == {};
    } else {
      var x :| x in a;
      assert forall z | z in a && z != x :: ids[z] != ids[x];
      forall y | y in b - {ids[x]}
        ensures exists z | z in a - {x} :: z < |ids| && ids[z] == y
      {
        var z :| z in a && z < |ids| && ids[z] == y;
        assert z in a - {x};
      }
      ImageSize(ids, a - {x}, b - {ids[x]});
    }
  }

  lemma SizesFollow(s: Infos, r: Infos, ids: seq<nat>, n: nat, a: set<nat>, b: set<nat>)
    requires Renumbers(s, ids, n) && Copied(s, r, ids, n) && (forall x | x in a :: x in r) && (forall y | y in b :: y in s)
    requires forall x: nat | x < |ids| :: x in a <==> ids[x] in b
    ensures |a| == |b|
  {
    hide Copied, Renumbers;
    forall x | x in a
      ensures x < |ids|
    {
      CopiedSize(s, r, ids, n, x);
    }
    forall y | y in b
      ensures exists x | x in a :: x < |ids| && ids[x] == y
    {
      var x := NumberOf(s, ids, n, y);
    }
    NumbersOnce(s, ids, n);
    ImageSize(ids, a, b);
  }

  lemma NumbersOnce(s: Infos, ids: seq<nat>, n: nat)
    requires Renumbers(s, ids, n)
    ensures Once(ids)
  {
  }

  lemma CountsFollow(env: Env, s: State, r: State, ids: seq<nat>, n: nat)
    requires CountsSane(env, s.infos, s.tally) && CountsSane(env, r.infos, r.tally)
    requires Renumbers(s.infos, ids, n) && Copied(s.infos, r.infos, ids, n)
    ensures r.tally.all == s.tally.all && forall m: Network :: CountOf(r.tally.on, m) == CountOf(s.tally.on, m)
  {
    hide Ids, IdsOn, Copied, Renumbers;
    IdsFollow(s.infos, r.infos, ids, n, true);
    IdsFollow(s.infos, r.infos, ids, n, false);
    forall m: Network
      ensures CountOf(r.tally.on, m) == CountOf(s.tally.on, m)
    {
      IdsOnFollow(env, s.infos, r.infos, ids, n, true, m);
      IdsOnFollow(env, s.infos, r.infos, ids, n, false, m);
    }
  }

  lemma IdsFollow(s: Infos, r: Infos, ids: seq<nat>, n: nat, t: bool)
    requires Renumbers(s, ids, n) && Copied(s, r, ids, n)
    ensures |Ids(r, t)| == |Ids(s, t)|
  {
    hide Copied, Renumbers;
    forall x: nat | x < |ids|
      ensures x in Ids(r, t) <==> ids[x] in Ids(s, t)
    {
      CopiedAt(s, r, ids, n, x);
    }
    SizesFollow(s, r, ids, n, Ids(r, t), Ids(s, t));
  }

  lemma IdsOnFollow(env: Env, s: Infos, r: Infos, ids: seq<nat>, n: nat, t: bool, m: Network)
    requires Renumbers(s, ids, n) && Copied(s, r, ids, n)
    ensures |IdsOn(env, r, t, m)| == |IdsOn(env, s, t, m)|
  {
    hide Copied, Renumbers;
    forall x: nat | x < |ids|
      ensures x in IdsOn(env, r, t, m) <==> ids[x] in IdsOn(env, s, t, m)
    {
      CopiedAt(s, r, ids, n, x);
    }
    SizesFollow(s, r, ids, n, IdsOn(env, r, t, m), IdsOn(env, s, t, m));
  }

  lemma {:induction false} NothingPruned(env: Env, s: State, order: seq<nat>)
    requires Referenced(s.infos, {})
    ensures Pruned(env, s, order) == s
    decreases |order|
  {
    hide Delete, RandomSane;
    if order != [] {
      NothingPruned(env, s, order[..|order| - 1]);
    }
  }

  // The times that are saved are acceptable.
  ghost predicate SavedTimesSane(infos: Infos) {
    forall id | id in infos ::
      infos[id].stats.lastSuccess >= 0 && (infos[id].inTried ==> infos[id].stats.lastSuccess > 0)
  }

  lemma LoadedReferenced(env: Env, s: State, r: State, ids: seq<nat>, n: nat)
    requires Referenced(s.infos, {}) && Renamed(s, r, ids, n)
    ensures Referenced(r.infos, {})
    ensures TimesSane(r.infos) <==> SavedTimesSane(s.infos)
  {
    hide SameTable;
    if TimesSane(r.infos) {
      forall id | id in s.infos
        ensures s.infos[id].stats.lastSuccess >= 0 && (s.infos[id].inTried ==> s.infos[id].stats.lastSuccess > 0)
      {
        var x := NumberOf(s.infos, ids, n, id);
        assert x in r.infos;
      }
    }
  }

  // The file that is written, in terms of the numbering.
  ghost predicate Written(s: State, ids: seq<nat>, n: nat, file: File) {
    && n <= |ids| && Lists(s.infos, ids[..n], file.untested) && Lists(s.infos, ids[n..], file.tried)
    && |file.buckets| == 1024
    && forall b | 0 <= b < 1024 :: file.buckets[b] == Bucket(s.untested, ids[..n], b, 64)
  }

  lemma SaveWrites(env: Env, s: State, order: seq<nat>, asmap: AsmapVersion, ids: seq<nat>, n: nat)
    requires Walk(s.infos, order) && ids == Old(s, order) && n == |Chosen(s.infos, order, false)|
    ensures Written(s, ids, n, Save(s, order, asmap))
  {
    hide Bucket, Chosen;
    assert ids[..n] == Chosen(s.infos, order, false) && ids[n..] == Chosen(s.infos, order, true);
  }

  // What loading does before it prunes.
  lemma LoadedFile(env: Env, s: State, ids: seq<nat>, n: nat, file: File, r: State)
    requires Orderly(env, s) && Renumbers(s.infos, ids, n) && Written(s, ids, n, file)
    requires forall id | id in s.infos :: s.infos[id].service in env.valid
    requires r == RestoredAll(env, LoadTried(env, LoadNew(env, file.untested), file.tried),
                              References(file.buckets, |file.untested|), true)
    ensures Orderly(env, r) && Linked(s.infos, s.untested, ids, n, 1024 * 64, r)
  {
    hide Orderly, Loaded, Linked, Bucket, Renumbers, LoadNew, LoadTried, RestoredAll, References;
    NumberedTo(s.infos, ids, n);
    LoadsNew(env, s, ids, n, file.untested);
    var r1 := LoadNew(env, file.untested);
    assert ids[n..] == ids[n..n + |file.tried|];
    LoadsTried(env, s, ids, n, r1, file.tried);
    var r2 := LoadTried(env, r1, file.tried);
    LinkedStart(s.infos, s.untested, ids, n, r2);
    RestoresCells(env, s, ids, n, 1024 * 64, r2);
    NewsHoldCells(env, s, ids, n);
    FileIsCells(s.untested, ids[..n], file.buckets);
  }

  lemma NumberedTo(infos: Infos, ids: seq<nat>, n: nat)
    requires Renumbers(infos, ids, n)
    ensures n <= |ids|
  {
  }

  lemma NewsHoldCells(env: Env, s: State, ids: seq<nat>, n: nat)
    requires Orderly(env, s) && Renumbers(s.infos, ids, n)
    ensures forall sl | sl in s.untested :: s.untested[sl] in ids[..n]
  {
    hide Orderly;
    forall sl | sl in s.untested
      ensures s.untested[sl] in ids[..n]
    {
      InItsPlace(env, s, sl);
      NewIsEarly(s.infos, ids, n, s.untested[sl]);
    }
  }

  // As many entries are written as the counters say, so that saving never runs over and loading
  // reads what was written.
  lemma SaveCounts(env: Env, s: State, order: seq<nat>)
    requires Orderly(env, s) && Referenced(s.infos, {}) && Walk(s.infos, order)
    ensures |Chosen(s.infos, order, false)| == s.tally.all.untested
    ensures |Chosen(s.infos, order, true)| == s.tally.all.tried
  {
    hide Orderly, Chosen;
    var news, tried := Chosen(s.infos, order, false), Chosen(s.infos, order, true);
    ChosenFrom(s.infos, order, false);
    ChosenFrom(s.infos, order, true);
    ChosenOnce(s.infos, order, false);
    ChosenOnce(s.infos, order, true);
    Distinct(news);
    Distinct(tried);
    forall id | id in s.infos
      ensures s.infos[id].refCount != 0 <==> !s.infos[id].inTried
    {
      RefsOrTried(env, s, id);
    }
    assert Elements(news) == Ids(s.infos, false) && Elements(tried) == Ids(s.infos, true);
    Tallies(env, s);
  }

  lemma Tallies(env: Env, s: State)
    requires Orderly(env, s)
    ensures s.tally.all == Count(|Ids(s.infos, false)|, |Ids(s.infos, true)|)
  {
  }

  // A consistent manager of valid addresses that is saved, in whatever order its map is
  // walked, and loaded with the same buckets and network groups, is the same manager up to the
  // numbering of its entries; it loads exactly if the recorded successes are acceptable.
  lemma Reloads(env: Env, s: State, order: seq<nat>, asmap: AsmapVersion, pruning: seq<nat>)
    requires Orderly(env, s) && Referenced(s.infos, {}) && Walk(s.infos, order)
    requires forall id | id in s.infos :: s.infos[id].service in env.valid
    ensures var loaded := Load(env, Save(s, order, asmap), asmap, pruning);
      && (loaded.Some? <==> SavedTimesSane(s.infos))
      && (loaded.Some? ==>
            && Orderly(env, loaded.value) && Referenced(loaded.value.infos, {})
            && Renamed(s, loaded.value, Old(s, order), |Chosen(s.infos, order, false)|))
  {
    hide Orderly, Linked, Renumbers, Copied, SameTable, CheckOk, SavedTimesSane, References, TimesSane, LoadNew, LoadTried,
      RestoredAll;
    var file := Save(s, order, asmap);
    var ids, n := Old(s, order), |Chosen(s.infos, order, false)|;
    var r := RestoredAll(env, LoadTried(env, LoadNew(env, file.untested), file.tried),
                         References(file.buckets, |file.untested|), true);
    OldIs(env, s, order);
    SaveWrites(env, s, order, asmap, ids, n);
    LoadedFile(env, s, ids, n, file, r);
    LinkedRenamed(env, s, r, ids, n);
    LoadedReferenced(env, s, r, ids, n);
    NothingPruned(env, r, pruning);
    PassesIfTimes(env, r);
  }

  lemma LinkedRenamed(env: Env, s: State, r: State, ids: seq<nat>, n: nat)
    requires Orderly(env, s) && Orderly(env, r) && Renumbers(s.infos, ids, n)
    requires Linked(s.infos, s.untested, ids, n, 1024 * 64, r)
    ensures Renamed(s, r, ids, n)
  {
    hide EntriesLinked, CellsLinked, Copied, SameTable, CountsSane, Renumbers, TriedSane, NewSane, IdsSane, RandomSane;
    LinkedCopied(s.infos, s.untested, ids, n, 1024 * 64, r);
    RefsBack(env, s, r.infos, ids, n);
    CellsBack(env, s, ids, n, r.untested);
    TriedFollows(env, s, r, ids, n);
    CountsFollow(env, s, r, ids, n);
  }
}
