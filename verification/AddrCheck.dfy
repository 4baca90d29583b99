/**
The address manager's consistency check, which walks all its structures and returns an
error code, and what it means for that code to be zero.
*/
module AddrCheck {
  import opened AddrState
  import opened AddrTables
  import opened AddrCells

  // What is asked of one entry.
  predicate EntryOk(ids: map<Service, nat>, random: seq<nat>, id: nat, i: Info) {
    && (if i.inTried then i.stats.lastSuccess != 0 && i.refCount == 0
        else 0 < i.refCount <= NEW_BUCKETS_PER_ADDRESS)
    && i.service in ids && ids[i.service] == id
    && i.randomPos < |random| && random[i.randomPos] == id
    && i.stats.lastTry >= 0 && i.stats.lastSuccess >= 0
  }

  ghost predicate EntriesOk(infos: Infos, ids: map<Service, nat>, random: seq<nat>) {
    forall id | id in infos :: EntryOk(ids, random, id, infos[id])
  }

  // The networks some entry is on.
  ghost function Networks(env: Env, infos: Infos): set<Network> {
    set id | id in infos :: env.Network(infos[id].service)
  }

  ghost predicate CountsOf(env: Env, infos: Infos, on: Counts) {
    forall n: Network :: CountOf(on, n) == Count(|IdsOn(env, infos, false, n)|, |IdsOn(env, infos, true, n)|)
  }

  ghost predicate Sorted(infos: Infos, tried: set<nat>, refs: map<nat, nat>) {
    && tried == Ids(infos, true)
    && refs.Keys == Ids(infos, false) && (forall id | id in refs :: refs[id] == infos[id].refCount)
  }

  // What the entries add up to.
  ghost predicate Gathered(env: Env, infos: Infos, tried: set<nat>, refs: map<nat, nat>, on: Counts) {
    Sorted(infos, tried, refs) && CountsOf(env, infos, on) && on.Keys == Networks(env, infos)
  }

  function Part(infos: Infos, done: set<nat>): Infos {
    map id | id in infos && id in done :: infos[id]
  }

  // One entry more.
  function Tallied(on: Counts, n: Network, inTried: bool): Counts {
    var c := CountOf(on, n);
    on[n := if inTried then Count(c.untested, c.tried + 1) else Count(c.untested + 1, c.tried)]
  }

  lemma GatherOn(env: Env, infos: Infos, infos': Infos, on: Counts, id: nat, i: Info)
    requires id !in infos && infos' == infos[id := i] && CountsOf(env, infos, on)
    ensures CountsOf(env, infos', Tallied(on, env.Network(i.service), i.inTried))
  {
    forall n: Network
      ensures CountOf(Tallied(on, env.Network(i.service), i.inTried), n) ==
              Count(|IdsOn(env, infos', false, n)|, |IdsOn(env, infos', true, n)|)
    {
      SizeLess(IdsOn(env, infos', i.inTried, n), IdsOn(env, infos, i.inTried, n), id);
      assert IdsOn(env, infos', !i.inTried, n) == IdsOn(env, infos, !i.inTried, n);
    }
  }

  lemma GatherNetworks(env: Env, infos: Infos, infos': Infos, id: nat, i: Info)
    requires id !in infos && infos' == infos[id := i]
    ensures Networks(env, infos') == Networks(env, infos) + {env.Network(i.service)}
  {
    forall n | n in Networks(env, infos) ensures n in Networks(env, infos') {
      var x :| x in infos && env.Network(infos[x].service) == n;
      assert infos'[x] == infos[x];
    }
    assert infos'[id] == i;
  }

  lemma GatherSorted(infos: Infos, infos': Infos, id: nat, i: Info, tried: set<nat>, refs: map<nat, nat>)
    requires Sorted(infos, tried, refs) && id !in infos && infos' == infos[id := i]
    ensures Sorted(infos', if i.inTried then tried + {id} else tried,
                   if i.inTried then refs else refs[id := i.refCount])
  {
  }

  lemma GatherStep(env: Env, infos: Infos, infos': Infos, id: nat, i: Info, tried: set<nat>, refs: map<nat, nat>,
                   on: Counts)
    requires Gathered(env, infos, tried, refs, on) && id !in infos && infos' == infos[id := i]
    ensures Gathered(env, infos', if i.inTried then tried + {id} else tried,
                     if i.inTried then refs else refs[id := i.refCount],
                     Tallied(on, env.Network(i.service), i.inTried))
  {
    hide Sorted, CountsOf;
    GatherOn(env, infos, infos', on, id, i);
    GatherNetworks(env, infos, infos', id, i);
    GatherSorted(infos, infos', id, i, tried, refs);
  }

  // The first walk, over all entries.
  method CheckEntries(env: Env, infos: Infos, ids: map<Service, nat>, random: seq<nat>)
    returns (err: int, tried: set<nat>, refs: map<nat, nat>, on: Counts)
    ensures err == 0 <==> EntriesOk(infos, ids, random)
    ensures err == 0 ==> Gathered(env, infos, tried, refs, on)
  {
    hide Gathered;
    tried, refs, on := {}, map[], map[];
    var todo := infos.Keys;
    ghost var done := {};
    GatherNone(env, infos);
    while todo != {}
      invariant todo <= infos.Keys && done == infos.Keys - todo
      invariant EntriesOk(Part(infos, done), ids, random)
      invariant Gathered(env, Part(infos, done), tried, refs, on)
      decreases todo
    {
      var id :| id in todo;
      var info := infos[id];
      assert Part(infos, done + {id}) == Part(infos, done)[id := info];
      GatherStep(env, Part(infos, done), Part(infos, done + {id}), id, info, tried, refs, on);
      err := CheckEntry(ids, random, id, info);
      if err != 0 {
        return;
      }
      if info.inTried {
        tried := tried + {id};
      } else {
        refs := refs[id := info.refCount];
      }
      on := Tallied(on, env.Network(info.service), info.inTried);
      todo, done := todo - {id}, done + {id};
    }
    assert Part(infos, done) == infos;
    err := 0;
  }

  lemma GatherNone(env: Env, infos: Infos)
    ensures Part(infos, {}) == map[] && Gathered(env, map[], {}, map[], map[])
  {
    assert forall t :: Ids(map[], t) == {};
    assert forall t, n :: IdsOn(env, map[], t, n) == {};
    assert Networks(env, map[]) == {};
  }

  method CheckEntry(ids: map<Service, nat>, random: seq<nat>, id: nat, info: Info) returns (err: int)
    ensures err == 0 <==> EntryOk(ids, random, id, info)
  {
    if info.inTried {
      if info.stats.lastSuccess == 0 {
        return -1;
      }
      if info.refCount != 0 {
        return -2;
      }
    } else {
      if info.refCount > NEW_BUCKETS_PER_ADDRESS {
        return -3;
      }
      if info.refCount == 0 {
        return -4;
      }
    }
    if info.service !in ids || ids[info.service] != id {
      return -5;
    }
    if info.randomPos >= |random| || random[info.randomPos] != id {
      return -14;
    }
    if info.stats.lastTry < 0 {
      return -6;
    }
    if info.stats.lastSuccess < 0 {
      return -8;
    }
    return 0;
  }

  // ----- The tried table -----

  predicate TriedCellOk(env: Env, infos: Infos, slot: Slot, id: nat) {
    id in infos && infos[id].inTried && slot == TriedSlot(env, infos[id].service)
  }

  ghost predicate TriedCellsOk(env: Env, infos: Infos, table: Table) {
    forall slot | slot in table :: TriedCellOk(env, infos, slot, table[slot])
  }

  // The entries that have a slot.
  ghost function Held(table: Table): set<nat> {
    set slot | slot in table :: table[slot]
  }

  lemma HeldSnoc(table: Table, slot: Slot, id: nat)
    requires slot !in table
    ensures Held(table[slot := id]) == Held(table) + {id}
  {
    var table' := table[slot := id];
    forall x | x in Held(table) ensures x in Held(table') {
      var sl :| sl in table && table[sl] == x;
      assert table'[sl] == x;
    }
    assert table'[slot] == id;
  }

  // An entry found twice cannot be in its own slot both times.
  lemma FoundTwice(env: Env, infos: Infos, a: seq<Cell>, k: nat)
    requires k < |a| && a[k] >= 0
    requires a[k] in infos && infos[a[k] as nat].inTried ==> a[k] in Held(TableOf(a[..k]))
    ensures !TriedCellsOk(env, infos, TableOf(a))
  {
    var full, id: nat := TableOf(a), a[k];
    if TriedCellOk(env, infos, k, id) {
      var sl :| sl in TableOf(a[..k]) && TableOf(a[..k])[sl] == id;
      assert sl in full && full[sl] == id && !TriedCellOk(env, infos, sl, id);
    } else {
      assert k in full && full[k] == id;
    }
  }

  lemma TriedSnoc(env: Env, infos: Infos, a: seq<Cell>, k: nat)
    requires k < |a| && TriedCellsOk(env, infos, TableOf(a[..k]))
    ensures TriedCellsOk(env, infos, TableOf(a[..k + 1])) <==> (a[k] >= 0 ==> TriedCellOk(env, infos, k, a[k]))
    ensures TriedCellsOk(env, infos, TableOf(a)) ==> TriedCellsOk(env, infos, TableOf(a[..k + 1]))
  {
    TableSnoc(a, k);
    var full, more := TableOf(a), TableOf(a[..k + 1]);
    assert a[k] >= 0 ==> k in more && more[k] == a[k];
    if TriedCellsOk(env, infos, full) {
      forall slot | slot in more ensures TriedCellOk(env, infos, slot, more[slot]) {
        assert slot in full && full[slot] == more[slot];
      }
    }
  }

  method CheckTried(env: Env, infos: Infos, cells: array<Cell>, tried: set<nat>) returns (err: int, left: set<nat>)
    requires tried == Ids(infos, true)
    ensures err == 0 <==> TriedCellsOk(env, infos, TableOf(cells[..]))
    ensures err == 0 ==> left == tried - Held(TableOf(cells[..]))
  {
    hide TableOf, TriedCellsOk, Held;
    left := tried;
    ghost var a := cells[..];
    TriedNone(env, infos);
    assert a[..0] == [];
    for k := 0 to cells.Length
      invariant cells[..] == a
      invariant TriedCellsOk(env, infos, TableOf(a[..k])) && left == tried - Held(TableOf(a[..k]))
    {
      TriedSnoc(env, infos, a, k);
      TableSnoc(a, k);
      if cells[k] != -1 {
        var id: nat := cells[k];
        HeldSnoc(TableOf(a[..k]), k, id);
        if id !in left {
          FoundTwice(env, infos, a, k);
          return -11, left;
        }
        if TriedSlot(env, infos[id].service) / 64 != k / 64 {
          return -17, left;
        }
        if TriedSlot(env, infos[id].service) != k {
          return -18, left;
        }
        left := left - {id};
      }
    }
    assert a[..cells.Length] == a;
    err := 0;
  }

  lemma TriedNone(env: Env, infos: Infos)
    ensures TableOf([]) == map[] && TriedCellsOk(env, infos, map[]) && Held(map[]) == {}
  {
  }

  // ----- The new table -----

  predicate NewCellOk(env: Env, infos: Infos, slot: Slot, id: nat) {
    id in infos && !infos[id].inTried && InPlace(env, infos[id].service, slot)
  }

  ghost predicate NewCellsOk(env: Env, infos: Infos, table: Table) {
    forall slot | slot in table :: NewCellOk(env, infos, slot, table[slot])
  }

  // No entry has more slots than references.
  ghost predicate Within(refs: map<nat, nat>, table: Table) {
    forall id | id in refs :: |Slots(table, id)| <= refs[id]
  }

  // The references not yet found.
  ghost predicate Remaining(refs: map<nat, nat>, table: Table, left: map<nat, nat>) {
    && (forall id | id in left :: id in refs)
    && (forall id | id in refs ::
          if |Slots(table, id)| < refs[id] then id in left && left[id] == refs[id] - |Slots(table, id)|
          else id !in left)
  }

  lemma SlotsPrefix(a: seq<Cell>, k: nat, id: nat)
    requires k <= |a|
    ensures |Slots(TableOf(a[..k]), id)| <= |Slots(TableOf(a), id)|
  {
    assert Slots(TableOf(a[..k]), id) <= Slots(TableOf(a), id);
    SizeMono(Slots(TableOf(a[..k]), id), Slots(TableOf(a), id));
  }

  lemma SizeMono<T>(a: set<T>, b: set<T>)
    requires a <= b
    ensures |a| <= |b|
  {
    if a != {} {
      var x :| x in a;
      SizeMono(a - {x}, b - {x});
    }
  }

  lemma NewSnoc(env: Env, infos: Infos, a: seq<Cell>, k: nat)
    requires k < |a| && NewCellsOk(env, infos, TableOf(a[..k]))
    ensures NewCellsOk(env, infos, TableOf(a[..k + 1])) <==> (a[k] >= 0 ==> NewCellOk(env, infos, k, a[k]))
    ensures NewCellsOk(env, infos, TableOf(a)) ==> NewCellsOk(env, infos, TableOf(a[..k + 1]))
  {
    TableSnoc(a, k);
    var full, more := TableOf(a), TableOf(a[..k + 1]);
    assert a[k] >= 0 ==> k in more && more[k] == a[k];
    if NewCellsOk(env, infos, full) {
      forall slot | slot in more ensures NewCellOk(env, infos, slot, more[slot]) {
        assert slot in full && full[slot] == more[slot];
      }
    }
  }

  // One more reference found.
  lemma OneFound(refs: map<nat, nat>, table: Table, left: map<nat, nat>, slot: Slot, id: nat)
    requires Within(refs, table) && Remaining(refs, table, left) && slot !in table && id in left
    ensures Within(refs, table[slot := id])
    ensures Remaining(refs, table[slot := id], if left[id] == 1 then left - {id} else left[id := left[id] - 1])
  {
    forall x | x in refs
      ensures |Slots(table[slot := id], x)| == |Slots(table, x)| + if x == id then 1 else 0
    {
      SlotsAdd(table, table[slot := id], slot, id, x);
    }
  }

  // A reference too many.
  lemma TooMany(env: Env, infos: Infos, refs: map<nat, nat>, left: map<nat, nat>, a: seq<Cell>, k: nat)
    requires k < |a| && a[k] >= 0 && refs.Keys == Ids(infos, false)
    requires Remaining(refs, TableOf(a[..k]), left) && a[k] !in left
    ensures !(NewCellsOk(env, infos, TableOf(a)) && Within(refs, TableOf(a)))
  {
    var id: nat := a[k];
    TableSnoc(a, k);
    SlotsAdd(TableOf(a[..k]), TableOf(a[..k + 1]), k, id, id);
    SlotsPrefix(a, k + 1, id);
    assert k in TableOf(a) && TableOf(a)[k] == id;
  }

  method CheckNew(env: Env, infos: Infos, cells: array<Cell>, refs: map<nat, nat>)
    returns (err: int, left: map<nat, nat>)
    requires refs.Keys == Ids(infos, false) && forall id | id in refs :: refs[id] > 0
    ensures err == 0 <==> NewCellsOk(env, infos, TableOf(cells[..])) && Within(refs, TableOf(cells[..]))
    ensures err == 0 ==> Remaining(refs, TableOf(cells[..]), left)
  {
    hide TableOf, NewCellsOk, Within, Remaining;
    left := refs;
    ghost var a := cells[..];
    NewNone(env, infos, refs);
    assert a[..0] == [];
    for k := 0 to cells.Length
      invariant cells[..] == a
      invariant NewCellsOk(env, infos, TableOf(a[..k])) && Within(refs, TableOf(a[..k]))
      invariant Remaining(refs, TableOf(a[..k]), left)
    {
      NewSnoc(env, infos, a, k);
      TableSnoc(a, k);
      if cells[k] != -1 {
        var id: nat := cells[k];
        if id !in left {
          TooMany(env, infos, refs, left, a, k);
          return -12, left;
        }
        RemainingIn(refs, TableOf(a[..k]), left, id);
        if !InPlace(env, infos[id].service, k) {
          return -19, left;
        }
        OneFound(refs, TableOf(a[..k]), left, k, id);
        left := if left[id] == 1 then left - {id} else left[id := left[id] - 1];
      }
    }
    assert a[..cells.Length] == a;
    err := 0;
  }

  lemma RemainingIn(refs: map<nat, nat>, table: Table, left: map<nat, nat>, id: nat)
    requires Remaining(refs, table, left) && id in left
    ensures id in refs && left[id] > 0
  {
  }

  lemma NewNone(env: Env, infos: Infos, refs: map<nat, nat>)
    requires forall id | id in refs :: refs[id] > 0
    ensures TableOf([]) == map[] && NewCellsOk(env, infos, map[]) && Within(refs, map[]) && Remaining(refs, map[], refs)
  {
    assert forall id :: Slots(map[], id) == {};
  }

  // ----- The counts on each network -----

  ghost predicate CountsMatch(counts: Counts, on: Counts) {
    |on| <= |counts| && forall n | n in counts :: counts[n] == CountOf(on, n)
  }

  method CheckCounts(counts: Counts, on: Counts) returns (err: int)
    ensures err == 0 <==> CountsMatch(counts, on)
  {
    if |counts| < |on| {
      return -20;
    }
    var todo := counts.Keys;
    while todo != {}
      invariant todo <= counts.Keys
      invariant forall n | n in counts && n !in todo :: counts[n] == CountOf(on, n)
      decreases todo
    {
      var n :| n in todo;
      if counts[n] != CountOf(on, n) {
        return -21;
      }
      todo := todo - {n};
    }
    return 0;
  }

  // ----- The whole check -----

  // What a zero error code says.
  ghost predicate CheckOk(env: Env, s: State) {
    && |s.random| == s.tally.all.tried + s.tally.all.untested
    && EntriesOk(s.infos, s.ids, s.random)
    && s.tally.all == Count(|Ids(s.infos, false)|, |Ids(s.infos, true)|)
    && TablesOk(env, s.infos, s.tried, s.untested)
    && NetworksOk(env, s.infos, s.tally.on)
  }

  // Each filled slot holds an entry that belongs there, each tried entry has its slot, and
  // each new entry has as many slots as references.
  ghost predicate TablesOk(env: Env, infos: Infos, tried: Table, untested: Table) {
    && TriedCellsOk(env, infos, tried) && Ids(infos, true) <= Held(tried)
    && NewCellsOk(env, infos, untested) && AllFound(infos, untested)
  }

  ghost predicate AllFound(infos: Infos, untested: Table) {
    forall id | id in Ids(infos, false) :: |Slots(untested, id)| == infos[id].refCount
  }

  ghost predicate NetworksOk(env: Env, infos: Infos, on: Counts) {
    && |Networks(env, infos)| <= |on|
    && forall n | n in on :: on[n] == Count(|IdsOn(env, infos, false, n)|, |IdsOn(env, infos, true, n)|)
  }

  // Nothing left over means that every reference was found, and none too many.
  lemma NothingLeft(infos: Infos, refs: map<nat, nat>, untested: Table, left: map<nat, nat>)
    requires refs.Keys == Ids(infos, false) && forall id | id in refs :: refs[id] == infos[id].refCount
    ensures AllFound(infos, untested) ==> Within(refs, untested)
    ensures Remaining(refs, untested, left) && Within(refs, untested) ==> (|left| == 0 <==> AllFound(infos, untested))
  {
    if Remaining(refs, untested, left) && Within(refs, untested) {
      if AllFound(infos, untested) {
        assert left.Keys == {};
        assert |left| == |left.Keys|;
      } else {
        var id :| id in Ids(infos, false) && |Slots(untested, id)| != infos[id].refCount;
        assert id in left;
      }
    }
  }

  lemma NoneOver(a: set<nat>, b: set<nat>)
    ensures a - b == {} <==> a <= b
  {
    assert forall x | x in a :: x in b || x in a - b;
  }

  method CheckTables(env: Env, infos: Infos, vvTried: array<Cell>, vvNew: array<Cell>, tried: set<nat>,
                     refs: map<nat, nat>)
    returns (err: int)
    requires tried == Ids(infos, true) && refs.Keys == Ids(infos, false)
    requires forall id | id in refs :: refs[id] == infos[id].refCount > 0
    ensures err == 0 <==> TablesOk(env, infos, TableOf(vvTried[..]), TableOf(vvNew[..]))
  {
    hide TriedCellsOk, NewCellsOk, AllFound, Within, Remaining, Held, TableOf;
    var noSlot, noRef;
    err, noSlot := CheckTried(env, infos, vvTried, tried);
    if err != 0 {
      return;
    }
    NothingLeft(infos, refs, TableOf(vvNew[..]), map[]);
    err, noRef := CheckNew(env, infos, vvNew, refs);
    if err != 0 {
      return;
    }
    NothingLeft(infos, refs, TableOf(vvNew[..]), noRef);
    NoneOver(tried, Held(TableOf(vvTried[..])));
    if noSlot != {} {
      return -13;
    }
    if |noRef| != 0 {
      return -15;
    }
  }

  lemma CountsVerdict(env: Env, infos: Infos, counts: Counts, on: Counts)
    requires CountsOf(env, infos, on) && on.Keys == Networks(env, infos)
    ensures CountsMatch(counts, on) <==> NetworksOk(env, infos, counts)
  {
    assert |on| == |on.Keys|;
  }

  // ----- Consistent states pass -----

  ghost function Elements(s: seq<nat>): set<nat> {
    set x | x in s
  }

  lemma {:induction false} Distinct(s: seq<nat>)
    requires forall i, j | 0 <= i < j < |s| :: s[i] != s[j]
    ensures |Elements(s)| == |s|
  {
    if s != [] {
      var n := |s| - 1;
      var rest := s[..n];
      Distinct(rest);
      assert s == rest + [s[n]];
      SizeLess(Elements(s), Elements(rest), s[n]);
    }
  }

  // A list without repetitions that misses no entry has as many ids as there are entries.
  lemma RandomSize(infos: Infos, random: seq<nat>)
    requires RandomSane(infos, random)
    ensures |random| == |infos.Keys|
  {
    assert forall i | 0 <= i < |random| :: random[i] in infos && infos[random[i]].randomPos == i;
    Distinct(random);
    forall id | id in infos ensures id in random {
      assert random[infos[id].randomPos] == id;
    }
    assert Elements(random) == infos.Keys;
  }

  lemma Split(infos: Infos)
    ensures |infos.Keys| == |Ids(infos, true)| + |Ids(infos, false)|
  {
    assert infos.Keys == Ids(infos, true) + Ids(infos, false);
  }

  lemma CountedNetworks(env: Env, infos: Infos, tally: Tally)
    requires CountsSane(env, infos, tally)
    ensures Networks(env, infos) <= tally.on.Keys && NetworksOk(env, infos, tally.on)
  {
    forall n | n in Networks(env, infos) ensures n in tally.on {
      var id :| id in infos && env.Network(infos[id].service) == n;
      assert id in IdsOn(env, infos, infos[id].inTried, n);
    }
    SizeMono(Networks(env, infos), tally.on.Keys);
    assert |tally.on| == |tally.on.Keys|;
  }

  lemma EntriesPass(env: Env, s: State)
    requires Orderly(env, s) && Referenced(s.infos, {}) && TimesSane(s.infos)
    ensures EntriesOk(s.infos, s.ids, s.random)
  {
    forall id | id in s.infos && s.infos[id].inTried ensures s.infos[id].refCount == 0 {
      assert Slots(s.untested, id) == {};
    }
  }

  lemma TablesPass(env: Env, s: State)
    requires Orderly(env, s)
    ensures TriedCellsOk(env, s.infos, s.tried) && Ids(s.infos, true) <= Held(s.tried)
    ensures NewCellsOk(env, s.infos, s.untested) && AllFound(s.infos, s.untested)
  {
    forall id | id in Ids(s.infos, true) ensures id in Held(s.tried) {
      assert s.tried[TriedSlot(env, s.infos[id].service)] == id;
    }
  }

  lemma ConsistentPasses(env: Env, s: State)
    requires Orderly(env, s) && Referenced(s.infos, {}) && TimesSane(s.infos)
    ensures CheckOk(env, s)
  {
    RandomSize(s.infos, s.random);
    Split(s.infos);
    CountedNetworks(env, s.infos, s.tally);
    EntriesPass(env, s);
    TablesPass(env, s);
  }

  // ----- States that pass are consistent -----

  // What the check does not look at: that the index has no stale addresses, that ids are
  // below the next id, and that every network in use is counted.
  ghost predicate Unchecked(env: Env, s: State) {
    && (forall a | a in s.ids :: s.ids[a] in s.infos && s.infos[s.ids[a]].service == a)
    && (forall id | id in s.infos :: id < s.idCount)
    && Networks(env, s.infos) <= s.tally.on.Keys
  }

  // As many entries as list positions, each with a position of its own, fill the list.
  lemma Filled(infos: Infos, random: seq<nat>)
    requires |random| == |infos.Keys|
    requires forall id | id in infos :: infos[id].randomPos < |random| && random[infos[id].randomPos] == id
    ensures RandomSane(infos, random)
  {
    assert infos.Keys <= Elements(random);
    SizeAtLength(random);
    SubsetFull(infos.Keys, Elements(random));
    NoRepeats(random);
    forall i | 0 <= i < |random| ensures random[i] in infos && infos[random[i]].randomPos == i {
      assert random[i] in Elements(random);
    }
  }

  lemma {:induction false} SizeAtLength(s: seq<nat>)
    ensures |Elements(s)| <= |s|
  {
    if s != [] {
      var n := |s| - 1;
      SizeAtLength(s[..n]);
      assert s == s[..n] + [s[n]];
      assert Elements(s) == Elements(s[..n]) + {s[n]};
    }
  }

  lemma SubsetFull<T>(a: set<T>, b: set<T>)
    requires a <= b && |b| <= |a|
    ensures a == b
  {
    if x :| x in b && x !in a {
      SizeMono(a, b - {x});
    }
  }

  // A list with as many different elements as positions repeats none.
  lemma {:induction false} NoRepeats(s: seq<nat>)
    requires |Elements(s)| == |s|
    ensures forall i, j | 0 <= i < j < |s| :: s[i] != s[j]
  {
    if s != [] {
      var n := |s| - 1;
      var rest := s[..n];
      assert s == rest + [s[n]];
      SizeAtLength(rest);
      assert Elements(s) == Elements(rest) + {s[n]};
      assert s[n] !in Elements(rest);
      NoRepeats(rest);
      assert forall i | 0 <= i < n :: s[i] in Elements(rest);
    }
  }

  lemma PassedIds(env: Env, s: State)
    requires EntriesOk(s.infos, s.ids, s.random) && Unchecked(env, s)
    ensures IdsSane(s.infos, s.ids, s.idCount) && TimesSane(s.infos) && Referenced(s.infos, {})
  {
    forall id | id in s.infos
      ensures s.infos[id].service in s.ids && s.ids[s.infos[id].service] == id
      ensures s.infos[id].inTried || s.infos[id].refCount > 0
      ensures s.infos[id].stats.lastTry >= 0 && s.infos[id].stats.lastSuccess >= 0
      ensures s.infos[id].inTried ==> s.infos[id].stats.lastSuccess > 0
    {
      assert EntryOk(s.ids, s.random, id, s.infos[id]);
    }
  }

  lemma PassedTables(env: Env, s: State)
    requires CheckOk(env, s)
    ensures TriedSane(env, s.infos, s.tried) && NewSane(env, s.infos, s.untested)
  {
    forall id | id in s.infos && s.infos[id].inTried
      ensures TriedSlot(env, s.infos[id].service) in s.tried && s.tried[TriedSlot(env, s.infos[id].service)] == id
      ensures Slots(s.untested, id) == {}
    {
      assert id in Held(s.tried);
    }
    forall id | id in s.infos ensures s.infos[id].refCount == |Slots(s.untested, id)| <= NEW_BUCKETS_PER_ADDRESS {
      assert EntryOk(s.ids, s.random, id, s.infos[id]);
      assert !s.infos[id].inTried ==> id in Ids(s.infos, false);
    }
  }

  lemma PassedCounts(env: Env, s: State)
    requires CheckOk(env, s) && Unchecked(env, s)
    ensures CountsSane(env, s.infos, s.tally)
  {
    forall n: Network
      ensures CountOf(s.tally.on, n) == Count(|IdsOn(env, s.infos, false, n)|, |IdsOn(env, s.infos, true, n)|)
    {
      if n !in s.tally.on {
        assert forall t :: IdsOn(env, s.infos, t, n) == {};
      }
    }
  }

  // Apart from what it does not look at, the check passes exactly the consistent states with
  // acceptable times.
  lemma CheckIsExact(env: Env, s: State)
    requires Unchecked(env, s)
    ensures CheckOk(env, s) <==> Orderly(env, s) && Referenced(s.infos, {}) && TimesSane(s.infos)
  {
    hide Unchecked;
    if CheckOk(env, s) {
      PassedIds(env, s);
      Split(s.infos);
      Filled(s.infos, s.random);
      PassedTables(env, s);
      PassedCounts(env, s);
    }
    if Orderly(env, s) && Referenced(s.infos, {}) && TimesSane(s.infos) {
      ConsistentPasses(env, s);
    }
  }

  // So it passes a consistent state exactly if the recorded times are acceptable.
  lemma PassesIfTimes(env: Env, s: State)
    requires Orderly(env, s) && Referenced(s.infos, {})
    ensures CheckOk(env, s) <==> TimesSane(s.infos)
  {
    hide CheckOk;
    CountedNetworks(env, s.infos, s.tally);
    CheckIsExact(env, s);
  }
}
