/**
Runs of a stack of coin caches against a stack of plain maps.

The plain model keeps one outpoint-to-coin map per level, the top first.  Adding and
spending change the top map, flushing or syncing a level copies its map one level down,
and everything else changes nothing.  `RunRefines` says that every run whose
non-overwriting additions target absent outpoints gives each level of the real stack
exactly that map, and never raises an error.
*/
module CoinsRuns {
  import opened Options
  import opened CoinsView

  type Plain = map<OutPoint, Coin>

  // ----- The map a level stands for -----

  function Domain(v: View): set<OutPoint> {
    match v
    case Database(coins) => coins.Keys
    case Cache(layer, base, _) => layer.Keys + Domain(base)
  }

  function Snapshot(v: View): Plain {
    map o | o in Domain(v) && Lookup(v, o).Some? :: Lookup(v, o).value
  }

  // The number of caches in a stack.
  function Depth(v: View): nat {
    match v
    case Database(_) => 0
    case Cache(_, base, _) => 1 + Depth(base)
  }

  function Snapshots(v: View): (levels: seq<Plain>)
    ensures |levels| == Depth(v) + 1
  {
    match v
    case Database(_) => [Snapshot(v)]
    case Cache(_, base, _) => [Snapshot(v)] + Snapshots(base)
  }

  ghost predicate SameCoins(v: View, w: View) {
    forall o :: Lookup(v, o) == Lookup(w, o)
  }

  lemma {:induction false} LookupInDomain(v: View, o: OutPoint)
    ensures Lookup(v, o).Some? ==> o in Domain(v)
  {
    if v.Cache? && o !in v.layer {
      LookupInDomain(v.base, o);
    }
  }

  lemma SnapshotIsLookup(v: View, o: OutPoint)
    ensures At(Snapshot(v), o) == Lookup(v, o)
  {
    LookupInDomain(v, o);
  }

  lemma SameCoinsSameSnapshot(v: View, w: View)
    requires SameCoins(v, w)
    ensures Snapshot(v) == Snapshot(w)
  {
    forall o ensures At(Snapshot(v), o) == At(Snapshot(w), o) {
      SnapshotIsLookup(v, o);
      SnapshotIsLookup(w, o);
    }
    SameAt(Snapshot(v), Snapshot(w));
  }

  // A stack pinned down by its lookups: the top map is `m`.
  lemma SnapshotIs(v: View, m: Plain)
    requires forall o :: Lookup(v, o) == At(m, o)
    ensures Snapshot(v) == m
  {
    forall o ensures At(Snapshot(v), o) == At(m, o) {
      SnapshotIsLookup(v, o);
    }
    SameAt(Snapshot(v), m);
  }

  // ----- Replacing the base by one with the same coins -----

  lemma Rebase(v: View, base: View)
    requires v.Cache? && Coherent(v)
    requires Coherent(base) && SameCoins(v.base, base)
    ensures Coherent(v.(base := base))
    ensures SameCoins(v, v.(base := base))
  {
    var w := v.(base := base);
    forall o ensures Lookup(v, o) == Lookup(w, o) {
      assert Lookup(v.base, o) == Lookup(base, o);
    }
    forall o | o in w.layer ensures EntryAgrees(w.layer[o], Lookup(base, o)) {
      assert Lookup(v.base, o) == Lookup(base, o);
    }
  }

  // ----- Each operation on a coherent stack -----

  lemma {:induction false} CoherentUnspent(v: View, o: OutPoint)
    requires Coherent(v)
    ensures Lookup(v, o).Some? ==> !Lookup(v, o).value.IsSpent()
  {
    if v.Cache? && o !in v.layer {
      CoherentUnspent(v.base, o);
    }
  }

  // Fetching fills caches and changes no lookup at any level.
  lemma {:induction false} FetchKeeps(v: View, o: OutPoint)
    requires Coherent(v)
    ensures Coherent(Fetch(v, o))
    ensures SameCoins(v, Fetch(v, o))
    ensures Snapshots(Fetch(v, o)) == Snapshots(v)
    ensures v.Cache? ==> (o in Fetch(v, o).layer <==> o in v.layer || Lookup(v, o).Some?)
  {
    if v.Cache? && o !in v.layer {
      var base' := if v.peeks then v.base else Fetch(v.base, o);
      if !v.peeks {
        FetchKeeps(v.base, o);
      }
      Rebase(v, base');
      var w := v.(base := base');
      CoherentUnspent(v.base, o);
      assert Lookup(base', o) == Lookup(v.base, o);
      var f := Fetch(v, o);
      forall p ensures Lookup(f, p) == Lookup(w, p) {
      }
      forall p ensures Lookup(v, p) == Lookup(f, p) {
        assert Lookup(v, p) == Lookup(w, p);
      }
      SameCoinsSameSnapshot(v, f);
    }
  }

  // A non-overwriting AddCoin of a spendable coin throws exactly when the cache holds the
  // coin unspent, and when it does not throw it keeps the flags truthful exactly when
  // the view had no coin there.
  lemma AddExactly(v: View, o: OutPoint, coin: Coin)
    requires v.Cache? && Coherent(v) && !coin.IsSpent() && !coin.IsUnspendable()
    ensures Add(v, o, coin, false).Threw? <==> o in v.layer && Lookup(v, o).Some?
    ensures Add(v, o, coin, false).Done? ==>
              (Coherent(Add(v, o, coin, false).view) <==> Lookup(v, o) == None)
  {
    if Add(v, o, coin, false).Done? {
      var w := Add(v, o, coin, false).view;
      assert w.layer[o].coin == coin;
      if Lookup(v, o) != None {
        assert !EntryAgrees(w.layer[o], Lookup(w.base, o));
      } else {
        forall p | p in w.layer ensures SaneEntry(w.layer[p]) && EntryAgrees(w.layer[p], Lookup(w.base, p)) {
          if p != o {
            assert w.layer[p] == v.layer[p];
          }
        }
      }
    }
  }

  // What the misuse costs: an uncached coin of the base is added as FRESH, and spending it
  // then brings the base's coin back instead of removing it.
  lemma MisusedAddLosesSpend(v: View, o: OutPoint, coin: Coin)
    requires v.Cache? && Coherent(v) && !coin.IsSpent() && !coin.IsUnspendable()
    requires o !in v.layer && Lookup(v, o).Some?
    ensures Add(v, o, coin, false).Done?
    ensures Lookup(Spend(Add(v, o, coin, false).view, o), o) == Lookup(v, o)
  {
    var w := Add(v, o, coin, false).view;
    assert o in w.layer && w.layer[o].isFresh;
    assert Fetch(w, o) == w;
    assert o !in Spend(w, o).layer;
  }

  lemma AddKeeps(v: View, o: OutPoint, coin: Coin, overwrite: bool)
    requires v.Cache? && Coherent(v) && !coin.IsSpent()
    requires overwrite || coin.IsUnspendable() || Lookup(v, o) == None
    ensures Add(v, o, coin, overwrite).Done?
    ensures Coherent(Add(v, o, coin, overwrite).view)
    ensures Snapshots(Add(v, o, coin, overwrite).view) ==
            if coin.IsUnspendable() then Snapshots(v) else Snapshots(v)[0 := Snapshot(v)[o := coin]]
  {
    if !coin.IsUnspendable() {
      if !overwrite {
        AddExactly(v, o, coin);
      }
      var w := Add(v, o, coin, overwrite).view;
      forall p | p in w.layer ensures SaneEntry(w.layer[p]) && EntryAgrees(w.layer[p], Lookup(w.base, p)) {
        if p != o {
          assert w.layer[p] == v.layer[p];
        }
      }
      TopChanged(v, w, Snapshot(v)[o := coin]);
    }
  }

  // The top layer changed so that the top map is now `m`; the levels below are the same.
  lemma TopChanged(v: View, w: View, m: Plain)
    requires v.Cache? && w.Cache? && w.base == v.base
    requires forall o :: Lookup(w, o) == At(m, o) || (Lookup(w, o) == Lookup(v, o) && At(m, o) == At(Snapshot(v), o))
    ensures Snapshots(w) == Snapshots(v)[0 := m]
  {
    forall o ensures Lookup(w, o) == At(m, o) {
      SnapshotIsLookup(v, o);
    }
    SnapshotIs(w, m);
  }

  lemma EmplaceKeeps(v: View, o: OutPoint, coin: Coin)
    requires v.Cache? && Coherent(v)
    ensures Coherent(Emplace(v, o, coin)) <==> o in v.layer || !coin.IsSpent() || coin.Usage() == 0
    ensures Snapshots(Emplace(v, o, coin)) ==
            if o in v.layer then Snapshots(v)
            else Snapshots(v)[0 := if coin.IsSpent() then Snapshot(v) - {o} else Snapshot(v)[o := coin]]
  {
    if o !in v.layer {
      var w := Emplace(v, o, coin);
      assert w.layer[o] == Entry(coin, true, false);
      if !coin.IsSpent() || coin.Usage() == 0 {
        forall p | p in w.layer ensures SaneEntry(w.layer[p]) && EntryAgrees(w.layer[p], Lookup(w.base, p)) {
          if p != o {
            assert w.layer[p] == v.layer[p];
          }
        }
      }
      TopChanged(v, w, if coin.IsSpent() then Snapshot(v) - {o} else Snapshot(v)[o := coin]);
    }
  }

  lemma SpendKeeps(v: View, o: OutPoint)
    requires v.Cache? && Coherent(v)
    ensures Coherent(Spend(v, o))
    ensures Snapshots(Spend(v, o)) == Snapshots(v)[0 := Snapshot(v) - {o}]
  {
    FetchKeeps(v, o);
    var f := Fetch(v, o);
    var w := Spend(v, o);
    SameCoinsSameSnapshot(v, f);
    forall p | p in w.layer ensures SaneEntry(w.layer[p]) && EntryAgrees(w.layer[p], Lookup(w.base, p)) {
      if p != o {
        assert w.layer[p] == f.layer[p];
      }
    }
    assert Lookup(v, o) == Lookup(f, o);
    assert Lookup(w, o) == None;
    TopChanged(f, w, Snapshot(v) - {o});
  }

  lemma UncacheKeeps(v: View, o: OutPoint)
    requires v.Cache? && Coherent(v)
    ensures Coherent(Uncache(v, o))
    ensures SameCoins(v, Uncache(v, o))
    ensures Snapshots(Uncache(v, o)) == Snapshots(v)
  {
    var w := Uncache(v, o);
    if w != v {
      assert EntryAgrees(v.layer[o], Lookup(v.base, o));
      SameCoinsSameSnapshot(v, w);
    }
  }

  // Writing a coherent layer down is never misapplied, and gives the base the coins of
  // the view above it.
  lemma WriteKeeps(v: View)
    requires v.Cache? && Coherent(v)
    ensures !WriteThrows(v.base, v.layer)
    ensures Coherent(Written(v.base, v.layer))
    ensures SameCoins(v, Written(v.base, v.layer))
  {
    var layer, base := v.layer, v.base;
    var w := Written(base, layer);
    forall o | o in layer ensures EntryAgrees(layer[o], Lookup(base, o)) && SaneEntry(layer[o]) {
    }
    if base.Cache? {
      forall o | o in layer ensures !Misapplied(base.layer, layer, o) {
        assert EntryAgrees(layer[o], Lookup(base, o));
      }
      forall o | o in w.layer
        ensures SaneEntry(w.layer[o]) && EntryAgrees(w.layer[o], Lookup(base.base, o))
      {
        MergedEntrySound(layer, base, o);
      }
      forall o ensures Lookup(v, o) == Lookup(w, o) {
        MergedLookup(v, o);
      }
    } else {
      forall o ensures Lookup(v, o) == Lookup(w, o) {
        if o in layer {
          assert EntryAgrees(layer[o], Lookup(base, o));
        }
      }
    }
  }

  lemma MergedEntrySound(layer: Layer, base: View, o: OutPoint)
    requires base.Cache? && Coherent(base) && SaneLayer(layer) && LayerAgrees(layer, base)
    requires o in Merged(base.layer, layer)
    ensures SaneEntry(Merged(base.layer, layer)[o])
    ensures EntryAgrees(Merged(base.layer, layer)[o], Lookup(base.base, o))
  {
    if o in layer && layer[o].isDirty {
      assert EntryAgrees(layer[o], Lookup(base, o)) && SaneEntry(layer[o]);
      if o in base.layer {
        assert SaneEntry(base.layer[o]) && EntryAgrees(base.layer[o], Lookup(base.base, o));
      }
    }
  }

  lemma MergedLookup(v: View, o: OutPoint)
    requires v.Cache? && v.base.Cache? && Coherent(v)
    ensures Lookup(Written(v.base, v.layer), o) == Lookup(v, o)
  {
    var layer, base := v.layer, v.base;
    if o in layer {
      assert EntryAgrees(layer[o], Lookup(base, o)) && SaneEntry(layer[o]);
    }
    if o in base.layer {
      assert SaneEntry(base.layer[o]) && EntryAgrees(base.layer[o], Lookup(base.base, o));
    }
    var merged := Merged(base.layer, layer);
    assert o in merged <==> MergeAt(base.layer, layer, o).Some?;
  }

  // A level written down, keeping a layer whose entries still say what the view said.
  lemma WriteBackKeeps(v: View, keep: Layer)
    requires v.Cache? && Coherent(v)
    requires SaneLayer(keep)
    requires forall o | o in keep :: !keep[o].isDirty && Lookup(v, o) == Some(keep[o].coin)
    ensures WriteBack(v, keep).Done?
    ensures Coherent(WriteBack(v, keep).view)
    ensures SameCoins(v, WriteBack(v, keep).view)
    ensures Snapshots(WriteBack(v, keep).view) == Snapshots(v)[1 := Snapshot(v)]
  {
    WriteKeeps(v);
    var base' := Written(v.base, v.layer);
    var w := WriteBack(v, keep).view;
    forall o ensures Lookup(v, o) == Lookup(w, o) {
      assert Lookup(v, o) == Lookup(base', o);
    }
    forall o | o in w.layer ensures EntryAgrees(w.layer[o], Lookup(base', o)) {
      assert Lookup(v, o) == Lookup(base', o);
    }
    TopTwoLevels(v, w);
  }

  // Two stacks that differ in their top two levels only, all four showing the same coins
  // except the second level of the first.
  lemma TopTwoLevels(v: View, w: View)
    requires v.Cache? && w.Cache?
    requires v.base.Cache? == w.base.Cache?
    requires v.base.Cache? ==> v.base.base == w.base.base
    requires SameCoins(v, w) && SameCoins(v, w.base)
    ensures Snapshots(w) == Snapshots(v)[1 := Snapshot(v)]
  {
    SameCoinsSameSnapshot(v, w);
    SameCoinsSameSnapshot(v, w.base);
    assert Snapshots(w.base) == Snapshots(v.base)[0 := Snapshot(v)];
  }

  lemma FlushKeeps(v: View)
    requires v.Cache? && Coherent(v)
    ensures Flush(v).Done?
    ensures Coherent(Flush(v).view)
    ensures SameCoins(v, Flush(v).view)
    ensures Snapshots(Flush(v).view) == Snapshots(v)[1 := Snapshot(v)]
  {
    WriteBackKeeps(v, map[]);
  }

  lemma SyncKeeps(v: View)
    requires v.Cache? && Coherent(v)
    ensures Sync(v).Done?
    ensures Coherent(Sync(v).view)
    ensures SameCoins(v, Sync(v).view)
    ensures Snapshots(Sync(v).view) == Snapshots(v)[1 := Snapshot(v)]
  {
    var keep := Cleaned(v.layer);
    forall o | o in keep
      ensures SaneEntry(keep[o]) && !keep[o].isDirty && Lookup(v, o) == Some(keep[o].coin)
    {
      assert SaneEntry(v.layer[o]) && EntryAgrees(v.layer[o], Lookup(v.base, o));
    }
    WriteBackKeeps(v, keep);
  }

  // A Sync forgets the spent entries and nothing else: it keeps, clean, every entry of
  // its own whose coin a lookup finds.
  lemma SyncKeepsEntries(v: View)
    requires v.Cache? && Coherent(v)
    ensures Sync(v).Done? && Sync(v).view.Cache?
    ensures forall o :: o in Sync(v).view.layer <==> o in v.layer && Lookup(v, o).Some?
    ensures forall o | o in Sync(v).view.layer :: Sync(v).view.layer[o] == Entry(Lookup(v, o).value, false, false)
  {
    SyncKeeps(v);
    CleanedFinds(v);
  }

  // ----- Runs -----

  // The operations of one cache that leave its own lookups alone; they may be called on
  // any cache of the stack.
  datatype Upkeep = Get(o: OutPoint) | Drop(o: OutPoint) | DoSync | DoFlush

  datatype Command =
    | Keep(depth: nat, upkeep: Upkeep)
    | AddTo(o: OutPoint, coin: Coin, overwrite: bool)
    | SpendFrom(o: OutPoint)
    | Push(peeks: bool)
    | Discard
    | Pop

  function KeepUp(v: View, u: Upkeep): Outcome
    requires v.Cache?
  {
    match u
    case Get(o) => Done(Fetch(v, o))
    case Drop(o) => Done(Uncache(v, o))
    case DoSync => Sync(v)
    case DoFlush => Flush(v)
  }

  function KeepUpAt(v: View, depth: nat, u: Upkeep): Outcome
    requires depth < Depth(v)
  {
    if depth == 0 then KeepUp(v, u)
    else match KeepUpAt(v.base, depth - 1, u)
      case Threw => Threw
      case Done(base) => Done(v.(base := base))
  }

  // The caches a command names exist, and only unspent coins are added.
  predicate Callable(v: View, c: Command) {
    match c
    case Keep(depth, _) => depth < Depth(v)
    case AddTo(_, coin, _) => v.Cache? && !coin.IsSpent()
    case SpendFrom(_) => v.Cache?
    case Push(_) => true
    case Discard => v.Cache?
    case Pop => v.Cache?
  }

  function Step(v: View, c: Command): Outcome
    requires Callable(v, c)
  {
    match c
    case Keep(depth, u) => KeepUpAt(v, depth, u)
    case AddTo(o, coin, overwrite) => Add(v, o, coin, overwrite)
    case SpendFrom(o) => Done(Spend(v, o))
    case Push(peeks) => Done(Cache(map[], v, peeks))
    case Discard => Done(v.(layer := map[]))
    case Pop => Done(v.base)
  }

  // The same commands on one plain map per level, the top first.
  predicate PlainCallable(m: seq<Plain>, c: Command) {
    && |m| > 0
    && match c
       case Keep(depth, _) => depth < |m| - 1
       case AddTo(o, coin, overwrite) =>
         |m| > 1 && !coin.IsSpent() && (overwrite || coin.IsUnspendable() || o !in m[0])
       case SpendFrom(_) => |m| > 1
       case Push(_) => true
       case Discard => |m| > 1
       case Pop => |m| > 1
  }

  function PlainStep(m: seq<Plain>, c: Command): seq<Plain>
    requires PlainCallable(m, c)
  {
    match c
    case Keep(depth, u) => if u.DoSync? || u.DoFlush? then m[depth + 1 := m[depth]] else m
    case AddTo(o, coin, _) => if coin.IsUnspendable() then m else m[0 := m[0][o := coin]]
    case SpendFrom(o) => m[0 := m[0] - {o}]
    case Push(_) => [m[0]] + m
    case Discard => m[0 := m[1]]
    case Pop => m[1..]
  }

  lemma {:induction false} UpkeepKeeps(v: View, depth: nat, u: Upkeep)
    requires Coherent(v) && depth < Depth(v)
    ensures KeepUpAt(v, depth, u).Done?
    ensures Coherent(KeepUpAt(v, depth, u).view)
    ensures SameCoins(v, KeepUpAt(v, depth, u).view)
    ensures Snapshots(KeepUpAt(v, depth, u).view) == PlainStep(Snapshots(v), Keep(depth, u))
  {
    if depth == 0 {
      match u
      case Get(o) => FetchKeeps(v, o);
      case Drop(o) => UncacheKeeps(v, o);
      case DoSync => SyncKeeps(v);
      case DoFlush => FlushKeeps(v);
    } else {
      UpkeepKeeps(v.base, depth - 1, u);
      var base := KeepUpAt(v.base, depth - 1, u).view;
      Rebase(v, base);
      SameCoinsSameSnapshot(v, v.(base := base));
    }
  }

  lemma StepRefines(v: View, c: Command)
    requires Coherent(v) && PlainCallable(Snapshots(v), c)
    ensures Callable(v, c) && Step(v, c).Done?
    ensures Coherent(Step(v, c).view)
    ensures Snapshots(Step(v, c).view) == PlainStep(Snapshots(v), c)
  {
    match c
    case Keep(depth, u) => UpkeepKeeps(v, depth, u);
    case AddTo(o, coin, overwrite) =>
      SnapshotIsLookup(v, o);
      AddKeeps(v, o, coin, overwrite);
    case SpendFrom(o) => SpendKeeps(v, o);
    case Push(peeks) => SameCoinsSameSnapshot(v, Cache(map[], v, peeks));
    case Discard => SameCoinsSameSnapshot(v.base, v.(layer := map[]));
    case Pop =>
  }

  function PlainRun(m: seq<Plain>, run: seq<Command>): Option<seq<Plain>>
    decreases |run|
  {
    if run == [] then Some(m)
    else if !PlainCallable(m, run[0]) then None
    else PlainRun(PlainStep(m, run[0]), run[1..])
  }

  function Run(v: View, run: seq<Command>): Outcome
    decreases |run|
  {
    if run == [] then Done(v)
    else if !Callable(v, run[0]) then Threw
    else match Step(v, run[0])
      case Threw => Threw
      case Done(w) => Run(w, run[1..])
  }

  // Every run the plain maps allow goes through on the real stack without an error, keeps
  // it coherent and leaves each level with the same coins as its plain map.
  lemma {:induction false} RunRefines(v: View, run: seq<Command>)
    requires Coherent(v)
    requires PlainRun(Snapshots(v), run).Some?
    ensures Run(v, run).Done?
    ensures Coherent(Run(v, run).view)
    ensures Snapshots(Run(v, run).view) == PlainRun(Snapshots(v), run).value
    decreases |run|
  {
    if run != [] {
      StepRefines(v, run[0]);
      RunRefines(Step(v, run[0]).view, run[1..]);
    }
  }

  // ----- Adding a transaction's outputs -----

  function PlainOutputs(m: Plain, txid: int, outs: seq<Output>, i: nat, height: nat, coinbase: bool): Plain
    requires i <= |outs|
    decreases |outs| - i
  {
    if i == |outs| then m
    else
      var coin := Coin(outs[i].value, outs[i].script, height, coinbase);
      var m' := if coin.IsUnspendable() then m else m[OutPoint(txid, i) := coin];
      PlainOutputs(m', txid, outs, i + 1, height, coinbase)
  }

  lemma AddOutputKeeps(v: View, w: View, o: OutPoint, coin: Coin, overwrite: bool)
    requires v.Cache? && Coherent(v) && (w == v || w == Fetch(v, o)) && !coin.IsSpent()
    requires overwrite || coin.IsUnspendable() || Lookup(v, o) == None
    ensures Add(w, o, coin, overwrite).Done?
    ensures Coherent(Add(w, o, coin, overwrite).view)
    ensures Snapshots(Add(w, o, coin, overwrite).view) ==
            Snapshots(v)[0 := if coin.IsUnspendable() then Snapshot(v) else Snapshot(v)[o := coin]]
  {
    FetchKeeps(v, o);
    assert Lookup(v, o) == Lookup(Fetch(v, o), o);
    SameCoinsSameSnapshot(v, w);
    AddKeeps(w, o, coin, overwrite);
    assert Snapshots(v)[0] == Snapshot(v);
  }

  // Setting the top map twice is setting it once.
  lemma TopTwice(levels: seq<Plain>, m: Plain, n: Plain)
    requires |levels| > 0
    ensures levels[0 := m][0 := n] == levels[0 := n]
  {
  }

  // With the check on, or for a coinbase, or when the view has none of the outputs,
  // adding a transaction raises no error and sets exactly its spendable outputs.
  lemma {:induction false} AddOutputsRefines(v: View, txid: int, outs: seq<Output>, i: nat, height: nat, coinbase: bool, check: bool)
    requires v.Cache? && Coherent(v) && i <= |outs|
    requires forall j | 0 <= j < |outs| :: outs[j].value != -1
    requires check || coinbase || forall j: nat | i <= j < |outs| :: OutPoint(txid, j) !in Snapshot(v)
    ensures AddOutputs(v, txid, outs, i, height, coinbase, check).Done?
    ensures Coherent(AddOutputs(v, txid, outs, i, height, coinbase, check).view)
    ensures Snapshots(AddOutputs(v, txid, outs, i, height, coinbase, check).view) ==
            Snapshots(v)[0 := PlainOutputs(Snapshot(v), txid, outs, i, height, coinbase)]
    decreases |outs| - i
  {
    if i < |outs| {
      var o, coin := OutPoint(txid, i), Coin(outs[i].value, outs[i].script, height, coinbase);
      var w := if check then Fetch(v, o) else v;
      var overwrite := if check then Lookup(v, o).Some? else coinbase;
      SnapshotIsLookup(v, o);
      AddOutputKeeps(v, w, o, coin, overwrite);
      var x := Add(w, o, coin, overwrite).view;
      assert Snapshot(x) == Snapshots(x)[0];
      AddOutputsRefines(x, txid, outs, i + 1, height, coinbase, check);
      TopTwice(Snapshots(v), Snapshot(x), PlainOutputs(Snapshot(x), txid, outs, i + 1, height, coinbase));
    }
  }
}
