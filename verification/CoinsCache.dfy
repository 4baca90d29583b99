/**
One coin cache as an object: the map of entries, the list threaded through the dirty
ones, and the running dirty and memory counters.

`Layer()` is the value the cache stands for.  Every method states the new layer as a
function of the old one from `CoinsView` and keeps `Sane()`, which is what the program's
own sanity check tests.
*/
module CoinsCache {
  import opened Options
  import opened CoinsView
  import opened CoinsUsage
  import opened CoinsList

  // The coin database at the bottom of a stack.
  class CoinsViewDB {
    var coins: map<OutPoint, Coin>

    constructor (stored: map<OutPoint, Coin>)
      ensures coins == stored
    {
      coins := stored;
    }

    // Stores a child's dirty entries: a spent one is erased, any other written.
    method BatchWrite(child: CoinsViewCache, willErase: bool)
      requires child.Sane()
      modifies this, child
      ensures coins == Stored(old(coins), old(child.Layer()))
      ensures child.Drained(old(child.linked), old(child.Layer()), old(|child.linked|), willErase)
    {
      hide CoinsViewCache.ListSane, CoinsViewCache.Drained, SaneLayer;
      ghost var todo, was, i := child.linked, child.Layer(), 0;
      child.StartDrain(willErase);
      var it := child.sentinel.next;
      assert Part(was, []) == map[];
      while it != Sentinel
        invariant i <= |todo| && it == Stop(todo, i + 1)
        invariant child.Drained(todo, was, i, willErase)
        invariant coins == Stored(old(coins), Part(was, todo[..i]))
        decreases |todo| - i
      {
        child.NextTodo(todo, was, i, willErase);
        var e := child.cacheCoins[it.o].entry;
        TodoStep(todo, i);
        StoredNext(old(coins), was, todo[..i], it.o);
        if e.isDirty {
          coins := if e.coin.IsSpent() then coins - {it.o} else coins[it.o := e.coin];
        }
        it := child.Advance(it.o, willErase, false, todo, was, i);
        i := i + 1;
      }
      assert todo[..i] == todo;
      StoredAll(old(coins), was, todo);
    }
  }

  class CoinsViewCache {
    var cacheCoins: Pairs
    var sentinel: Ends
    var usage: nat
    var dirtyCount: nat
    // The view below: another cache, or the database if there is none.
    const base: CoinsViewCache?
    const db: CoinsViewDB
    const peeks: bool
    // The dirty outpoints in list order, and the caches of the stack down to the database.
    ghost var linked: seq<OutPoint>
    ghost const Repr: set<object>

    ghost function Layer(): Layer
      reads this`cacheCoins
    {
      LayerOf(cacheCoins)
    }

    ghost predicate ListSane()
      reads this`cacheCoins, this`sentinel, this`linked
    {
      Shaped(cacheCoins, sentinel, linked) && DirtyIfFresh(cacheCoins)
    }

    ghost predicate Sane()
      reads this
    {
      && ListSane()
      && SaneLayer(Layer())
      && dirtyCount == |linked|
      && usage == TotalUsage(Layer())
    }

    // ----- The stack below -----

    ghost predicate Chained()
      decreases Repr
    {
      if base == null then Repr == {this, db}
      else this !in base.Repr && Repr == {this} + base.Repr && base.Chained()
    }

    ghost function Below(): View
      requires Chained()
      reads Repr
      decreases Repr, 0
    {
      if base == null then Database(db.coins) else base.Abs()
    }

    ghost function Abs(): View
      requires Chained()
      reads Repr
      decreases Repr, 1
    {
      Cache(Layer(), Below(), peeks)
    }

    ghost predicate BelowSane()
      requires Chained()
      reads Repr
      decreases Repr, 0
    {
      if base == null then forall o | o in db.coins :: !db.coins[o].IsSpent() else base.AllSane()
    }

    ghost predicate AllSane()
      requires Chained()
      reads Repr
      decreases Repr, 1
    {
      Sane() && BelowSane()
    }

    constructor OnDatabase(db: CoinsViewDB, peeks: bool)
      requires forall o | o in db.coins :: !db.coins[o].IsSpent()
      ensures Chained() && AllSane()
      ensures Abs() == Cache(map[], Database(db.coins), peeks)
    {
      this.base, this.db, this.peeks := null, db, peeks;
      cacheCoins, sentinel, usage, dirtyCount := map[], Ends(Sentinel, Sentinel), 0, 0;
      linked, Repr := [], {this, db};
      new;
      assert LayerOf(map[]) == map[];
    }

    constructor OnCache(base: CoinsViewCache, peeks: bool)
      requires base.Chained() && base.AllSane()
      ensures Chained() && AllSane()
      ensures Abs() == Cache(map[], base.Abs(), peeks)
    {
      this.base, this.db, this.peeks := base, base.db, peeks;
      cacheCoins, sentinel, usage, dirtyCount := map[], Ends(Sentinel, Sentinel), 0, 0;
      linked, Repr := [], {this} + base.Repr;
      new;
      assert LayerOf(map[]) == map[];
    }

    // ----- Entries -----

    method AddFlags(o: OutPoint, dirty: bool, freshly: bool)
      requires Shaped(cacheCoins, sentinel, linked) && o in cacheCoins && (dirty || freshly)
      modifies this`cacheCoins, this`sentinel, this`linked
      ensures Shaped(cacheCoins, sentinel, linked) && o in linked
      ensures old(ListSane()) && (dirty || old(cacheCoins)[o].entry.isDirty) ==> ListSane()
      ensures Layer() == var e := old(cacheCoins)[o].entry;
                         old(Layer())[o := Entry(e.coin, e.isDirty || dirty, e.isFresh || freshly)]
      ensures |linked| == old(|linked|) + (if HasFlags(old(cacheCoins)[o].entry) then 0 else 1)
    {
      hide Flagged;
      FlaggedEffect(Store(cacheCoins, sentinel), linked, o, dirty, freshly);
      assert o in linked <==> HasFlags(cacheCoins[o].entry);
      linked := if o in linked then linked else linked + [o];
      LinkPair(o, dirty, freshly);
    }

    // Puts a pair without flags at the end of the list, and adds flags.
    method LinkPair(o: OutPoint, dirty: bool, freshly: bool)
      requires o in cacheCoins && Points(cacheCoins, sentinel.prev)
      modifies this`cacheCoins, this`sentinel
      ensures Store(cacheCoins, sentinel) == Flagged(old(Store(cacheCoins, sentinel)), o, dirty, freshly)
    {
      var pair := cacheCoins[o];
      if !pair.entry.isDirty && !pair.entry.isFresh {
        var last := sentinel.prev;
        cacheCoins := cacheCoins[o := pair.(prev := last, next := Sentinel)];
        sentinel := sentinel.(prev := To(o));
        if last.Sentinel? {
          sentinel := sentinel.(next := To(o));
        } else {
          cacheCoins := cacheCoins[last.o := cacheCoins[last.o].(next := To(o))];
        }
      }
      var e := pair.entry;
      cacheCoins := cacheCoins[o := cacheCoins[o].(entry := Entry(e.coin, e.isDirty || dirty, e.isFresh || freshly))];
    }

    method SetClean(o: OutPoint)
      requires ListSane() && o in cacheCoins
      modifies this`cacheCoins, this`sentinel, this`linked
      ensures ListSane()
      ensures Layer() == old(Layer())[o := Entry(old(cacheCoins)[o].entry.coin, false, false)]
      ensures |linked| == old(|linked|) - (if old(cacheCoins)[o].entry.isDirty then 1 else 0)
      ensures forall k: nat | k < old(|linked|) && old(linked)[k] == o :: linked == Without(old(linked), k)
    {
      hide Unflagged;
      var pair := cacheCoins[o];
      if pair.entry.isDirty || pair.entry.isFresh {
        ghost var k :| 0 <= k < |linked| && linked[k] == o;
        UnflaggedEffect(Store(cacheCoins, sentinel), linked, k);
        linked := Without(linked, k);
        UnlinkPair(o);
      }
    }

    // Takes a pair out of the list and its flags away.
    method UnlinkPair(o: OutPoint)
      requires o in cacheCoins && HasFlags(cacheCoins[o].entry)
      requires Points(cacheCoins, cacheCoins[o].prev) && Points(cacheCoins, cacheCoins[o].next)
      modifies this`cacheCoins, this`sentinel
      ensures Store(cacheCoins, sentinel) == Unflagged(old(Store(cacheCoins, sentinel)), o)
    {
      var pair := cacheCoins[o];
      if pair.next.Sentinel? {
        sentinel := sentinel.(prev := pair.prev);
      } else {
        cacheCoins := cacheCoins[pair.next.o := cacheCoins[pair.next.o].(prev := pair.prev)];
      }
      if pair.prev.Sentinel? {
        sentinel := sentinel.(next := pair.next);
      } else {
        cacheCoins := cacheCoins[pair.prev.o := cacheCoins[pair.prev.o].(next := pair.next)];
      }
      cacheCoins := cacheCoins[o := Pair(Entry(pair.entry.coin, false, false), Null, Null)];
    }

    // The entry of an outpoint, a new empty one if it had none.
    method TryEmplace(o: OutPoint) returns (inserted: bool)
      requires ListSane()
      modifies this`cacheCoins
      ensures ListSane() && o in cacheCoins
      ensures inserted == (o !in old(cacheCoins))
      ensures Layer() == if inserted then old(Layer())[o := Entry(EMPTY_COIN, false, false)] else old(Layer())
    {
      inserted := o !in cacheCoins;
      if inserted {
        ghost var was := cacheCoins;
        cacheCoins := cacheCoins[o := Pair(Entry(EMPTY_COIN, false, false), Null, Null)];
        RingFrame(was, cacheCoins, sentinel, linked);
        assert FlagsSane(was, linked);
      }
    }

    method SetCoin(o: OutPoint, coin: Coin)
      requires ListSane() && o in cacheCoins
      modifies this`cacheCoins
      ensures ListSane()
      ensures Layer() == old(Layer())[o := old(Layer())[o].(coin := coin)]
    {
      ghost var was := cacheCoins;
      var e := cacheCoins[o].entry;
      cacheCoins := cacheCoins[o := cacheCoins[o].(entry := Entry(coin, e.isDirty, e.isFresh))];
      RingFrame(was, cacheCoins, sentinel, linked);
      assert FlagsSane(was, linked);
    }

    // Erases a map node; destroying its entry unlinks it.
    method Erase(o: OutPoint)
      requires ListSane() && o in cacheCoins
      modifies this`cacheCoins, this`sentinel, this`linked
      ensures ListSane()
      ensures Layer() == old(Layer()) - {o}
      ensures |linked| == old(|linked|) - (if old(cacheCoins)[o].entry.isDirty then 1 else 0)
      ensures forall k: nat | k < old(|linked|) && old(linked)[k] == o :: linked == Without(old(linked), k)
    {
      SetClean(o);
      ghost var was := cacheCoins;
      cacheCoins := cacheCoins - {o};
      assert FlagsSane(was, linked) && !LayerOf(was)[o].isDirty;
      assert LayerOf(cacheCoins) == LayerOf(was) - {o};
      RingFrame(was, cacheCoins, sentinel, linked);
    }

    // Puts a coin into an entry and marks the entry dirty, and fresh if asked.
    method SetDirtyCoin(o: OutPoint, coin: Coin, freshly: bool)
      requires ListSane() && o in cacheCoins
      modifies this`cacheCoins, this`sentinel, this`linked
      ensures ListSane()
      ensures Layer() == old(Layer())[o := Entry(coin, true, old(Layer())[o].isFresh || freshly)]
      ensures |linked| == old(|linked|) + (if old(Layer())[o].isDirty then 0 else 1)
    {
      ghost var was, e := Layer(), Layer()[o];
      SetTwice(was, o, Entry(coin, e.isDirty, e.isFresh), Entry(coin, true, e.isFresh));
      SetTwice(was, o, Entry(coin, true, e.isFresh), Entry(coin, true, true));
      SetCoin(o, coin);
      AddFlags(o, true, false);
      if freshly {
        AddFlags(o, false, true);
      }
    }

    // Takes an entry out of the counters, as every change of it starts with.
    method Discount(o: OutPoint)
      requires Sane() && o in cacheCoins
      modifies this`usage, this`dirtyCount
      ensures usage == TotalUsage(Layer() - {o})
      ensures dirtyCount == |linked| - (if Layer()[o].isDirty then 1 else 0)
    {
      UsageRemove(Layer(), o);
      var e := cacheCoins[o].entry;
      assert e.isDirty ==> o in linked;
      dirtyCount := dirtyCount - (if e.isDirty then 1 else 0);
      usage := usage - e.coin.Usage();
    }

    // A new dirty entry for an outpoint the cache does not hold.
    method InsertDirty(o: OutPoint, coin: Coin, freshly: bool)
      requires Sane() && o !in cacheCoins
      modifies this
      ensures ListSane() && dirtyCount == |linked| && usage == TotalUsage(Layer())
      ensures Layer() == old(Layer())[o := Entry(coin, true, freshly)]
      ensures Sane() <==> SaneEntry(Entry(coin, true, freshly))
    {
      ghost var was := Layer();
      SetTwice(was, o, Entry(EMPTY_COIN, false, false), Entry(coin, true, freshly));
      var _ := TryEmplace(o);
      SetDirtyCoin(o, coin, freshly);
      dirtyCount := dirtyCount + 1;
      usage := usage + coin.Usage();
      UsageSet(was, o, Entry(coin, true, freshly));
      if SaneEntry(Entry(coin, true, freshly)) {
        SaneSet(was, o, Entry(coin, true, freshly));
      } else {
        assert o in Layer() && !SaneEntry(Layer()[o]);
      }
    }

    // A new coin in an entry the cache holds, which keeps its freshness.
    method ReplaceDirty(o: OutPoint, coin: Coin, freshly: bool)
      requires Sane() && o in cacheCoins
      requires SaneEntry(Entry(coin, true, Layer()[o].isFresh || freshly))
      modifies this
      ensures Sane()
      ensures Layer() == old(Layer())[o := Entry(coin, true, old(Layer())[o].isFresh || freshly)]
    {
      ghost var was, e := Layer(), Entry(coin, true, Layer()[o].isFresh || freshly);
      Discount(o);
      SetDirtyCoin(o, coin, freshly);
      dirtyCount := dirtyCount + 1;
      usage := usage + coin.Usage();
      UsageSet(was, o, e);
      SaneSet(was, o, e);
    }

    method RemoveEntry(o: OutPoint)
      requires Sane() && o in cacheCoins
      modifies this
      ensures Sane() && Layer() == old(Layer()) - {o}
    {
      SaneRemove(Layer(), o);
      Discount(o);
      Erase(o);
    }

    // ----- Cache operations -----

    method AddCoin(o: OutPoint, coin: Coin, overwrite: bool) returns (threw: bool)
      requires Sane() && !coin.IsSpent()
      modifies this
      ensures Sane()
      ensures threw == AddThrows(old(Layer()), o, coin, overwrite)
      ensures Layer() == if threw || coin.IsUnspendable() then old(Layer())
                         else AddedLayer(old(Layer()), o, coin, overwrite)
    {
      if coin.IsUnspendable() {
        return false;
      }
      if o !in cacheCoins {
        InsertDirty(o, coin, !overwrite);
        return false;
      }
      var e := cacheCoins[o].entry;
      if !overwrite && !e.coin.IsSpent() {
        return true;
      }
      ReplaceDirty(o, coin, !overwrite && !e.isDirty);
      return false;
    }

    // Loads a coin of a snapshot; an entry already present is kept.
    method EmplaceCoin(o: OutPoint, coin: Coin)
      requires Sane()
      modifies this
      ensures ListSane() && dirtyCount == |linked| && usage == TotalUsage(Layer())
      ensures Sane() <==> o in old(Layer()) || !coin.IsSpent() || coin.Usage() == 0
      ensures Layer() == if o in old(Layer()) then old(Layer()) else old(Layer())[o := Entry(coin, true, false)]
    {
      if o !in cacheCoins {
        InsertDirty(o, coin, false);
      }
    }

    // The part of SpendCoin after the fetch: a fresh entry is erased, any other is kept
    // as a spent one.
    method SpendCached(o: OutPoint) returns (moved: Coin)
      requires Sane() && o in cacheCoins
      modifies this
      ensures Sane()
      ensures moved == old(Layer())[o].coin
      ensures Layer() == SpentLayer(old(Layer()), o)
    {
      var e := cacheCoins[o].entry;
      moved := e.coin;
      if e.isFresh {
        RemoveEntry(o);
      } else {
        ReplaceDirty(o, EMPTY_COIN, false);
      }
    }

    method Uncache(o: OutPoint)
      requires Sane()
      modifies this
      ensures Sane()
      ensures Layer() == if o in old(Layer()) && !old(Layer())[o].isDirty then old(Layer()) - {o} else old(Layer())
    {
      if o in cacheCoins && !cacheCoins[o].entry.isDirty {
        RemoveEntry(o);
      }
    }

    // Discards every entry.  Destroying a flagged entry unlinks it.
    method Clear()
      requires ListSane()
      modifies this
      ensures Sane() && Layer() == map[]
    {
      while cacheCoins != map[]
        invariant ListSane()
        decreases |cacheCoins|
      {
        var o :| o in cacheCoins;
        RestSmaller(Layer(), o);
        ghost var size := |LayerOf(cacheCoins)|;
        SizeOf(cacheCoins);
        Erase(o);
        SizeOf(cacheCoins);
      }
      EmptyRing(cacheCoins, sentinel, linked);
      usage, dirtyCount := 0, 0;
    }

    // ----- Receiving a child's entries -----

    // One dirty entry of a child cache, written into this one.
    method WriteEntry(o: OutPoint, child: Entry) returns (threw: bool)
      requires Sane() && child.isDirty && SaneEntry(child)
      modifies this
      ensures Sane()
      ensures threw == (child.isFresh && o in old(Layer()) && !old(Layer())[o].coin.IsSpent())
      ensures Layer() == if threw then old(Layer()) else MergeInto(old(Layer()), o, child)
    {
      threw := false;
      if o !in cacheCoins {
        if !(child.isFresh && child.coin.IsSpent()) {
          InsertDirty(o, child.coin, child.isFresh);
        }
      } else {
        var e := cacheCoins[o].entry;
        if child.isFresh && !e.coin.IsSpent() {
          return true;
        }
        if e.isFresh && child.coin.IsSpent() {
          RemoveEntry(o);
        } else {
          ReplaceDirty(o, child.coin, false);
        }
      }
    }

    // ----- Walking a cache's own list while it is written down -----

    // Steps from the k-th linked entry to the next one.  A sync erases the entry if it is
    // spent and unlinks it otherwise; a flush leaves it for the caller to wipe.
    method NextAndMaybeErase(o: OutPoint, willErase: bool, ghost k: nat) returns (next: Pointer)
      requires ListSane() && k < |linked| && linked[k] == o && dirtyCount > 0
      modifies this
      ensures next == Stop(old(linked), k + 2)
      ensures dirtyCount == old(dirtyCount) - 1 && usage == old(usage)
      ensures willErase ==> cacheCoins == old(cacheCoins) && sentinel == old(sentinel) && linked == old(linked)
      ensures o in old(Layer()) && ListSane()
      ensures !willErase ==> linked == Without(old(linked), k) && Layer() == CleanedAt(old(Layer()), o)
      ensures !willErase && old(Layer())[o].coin.IsSpent() ==> Layer() == old(Layer()) - {o}
      ensures !willErase && !old(Layer())[o].coin.IsSpent() ==>
        Layer() == old(Layer())[o := Entry(old(Layer())[o].coin, false, false)]
    {
      NeighboursOf(Store(cacheCoins, sentinel), linked, k);
      next := cacheCoins[o].next;
      dirtyCount := dirtyCount - 1;
      if !willErase {
        if cacheCoins[o].entry.coin.IsSpent() {
          Erase(o);
        } else {
          SetClean(o);
        }
      }
    }

    // How far a walk over `todo`, the list of a cache whose value was `was`, has come.
    ghost predicate Drained(todo: seq<OutPoint>, was: Layer, i: nat, willErase: bool)
      requires i <= |todo|
      reads this
    {
      && ListSane()
      && linked == (if willErase then todo else todo[i..])
      && dirtyCount == |todo| - i
      && (forall o | o in todo :: o in was)
      && (willErase ==> forall j | i <= j < |todo| :: todo[j] in Layer() && Layer()[todo[j]] == was[todo[j]])
      && (!willErase ==> Sane() && Layer() == CleanedPart(was, todo[..i]))
    }

    // A cache about to be written down.
    lemma StartDrain(willErase: bool)
      requires Sane()
      ensures Drained(linked, Layer(), 0, willErase) && Distinct(linked)
      ensures sentinel.next == Stop(linked, 1)
      ensures forall o | o in Layer() :: Layer()[o].isDirty <==> o in linked
    {
      assert Joined(cacheCoins, sentinel, Stop(linked, 0), Stop(linked, 1));
      assert linked[..0] == [] && linked[0..] == linked;
      assert CleanedPart(Layer(), []) == Layer();
    }

    // The next entry of a walk has not been touched.
    lemma NextTodo(todo: seq<OutPoint>, was: Layer, i: nat, willErase: bool)
      requires i < |todo| && Distinct(todo) && Drained(todo, was, i, willErase)
      requires forall o | o in was :: was[o].isDirty <==> o in todo
      ensures todo[i] in was && was[todo[i]].isDirty
      ensures todo[i] in cacheCoins && cacheCoins[todo[i]].entry == was[todo[i]]
    {
      TodoStep(todo, i);
      if willErase {
        assert todo[i] in Layer();
      } else {
        CleanedNext(was, todo[..i], todo[i]);
        assert todo[i] in Layer();
      }
    }

    // Writes a child's dirty entries into this cache.
    method BatchWrite(child: CoinsViewCache, willErase: bool) returns (threw: bool)
      requires child != this && Sane() && child.Sane()
      modifies this, child
      ensures threw <==> exists o | o in old(child.Layer()) :: Misapplied(old(Layer()), old(child.Layer()), o)
      ensures !threw ==> Sane() && Layer() == Merged(old(Layer()), old(child.Layer()))
      ensures !threw ==> child.Drained(old(child.linked), old(child.Layer()), old(|child.linked|), willErase)
    {
      hide ListSane, Drained;
      ghost var todo, was, i := child.linked, child.Layer(), 0;
      ghost var parent := Layer();
      child.StartDrain(willErase);
      var it := child.sentinel.next;
      MergedNone(parent, was);
      while it != Sentinel
        invariant i <= |todo| && it == Stop(todo, i + 1)
        invariant child.Drained(todo, was, i, willErase)
        invariant Sane() && Layer() == Merged(parent, Part(was, todo[..i]))
        invariant forall o | o in todo[..i] :: !Misapplied(parent, was, o)
        decreases |todo| - i
      {
        child.NextTodo(todo, was, i, willErase);
        var e := child.cacheCoins[it.o].entry;
        TodoStep(todo, i);
        MergedNext(parent, was, todo[..i], it.o);
        assert At(Layer(), it.o) == At(parent, it.o);
        threw := WriteEntry(it.o, e);
        assert threw == Misapplied(parent, was, it.o);
        if threw {
          return;
        }
        it := child.Advance(it.o, willErase, willErase || e.coin.IsSpent(), todo, was, i);
        i := i + 1;
      }
      assert todo[..i] == todo;
      MergedAll(parent, was, todo);
      threw := false;
    }

    // The receiver is done with the entry at `o`, and moved its coin out if `moved`.
    method Advance(o: OutPoint, willErase: bool, moved: bool, ghost todo: seq<OutPoint>, ghost was: Layer, ghost i: nat)
      returns (next: Pointer)
      requires i < |todo| && todo[i] == o && Distinct(todo)
      requires Drained(todo, was, i, willErase) && SaneLayer(was)
      requires moved ==> willErase || was[o].coin.IsSpent()
      modifies this
      ensures Drained(todo, was, i + 1, willErase)
      ensures next == Stop(todo, i + 2)
    {
      if willErase {
        next := AdvanceFlush(o, moved, todo, was, i);
      } else {
        next := AdvanceSync(o, moved, todo, was, i);
      }
    }

    method AdvanceFlush(o: OutPoint, moved: bool, ghost todo: seq<OutPoint>, ghost was: Layer, ghost i: nat)
      returns (next: Pointer)
      requires i < |todo| && todo[i] == o && Distinct(todo)
      requires Drained(todo, was, i, true)
      modifies this
      ensures Drained(todo, was, i + 1, true)
      ensures next == Stop(todo, i + 2)
    {
      assert o in Layer();
      if moved {
        SetCoin(o, cacheCoins[o].entry.coin.(script := []));
      }
      next := NextAndMaybeErase(o, true, i);
    }

    method AdvanceSync(o: OutPoint, moved: bool, ghost todo: seq<OutPoint>, ghost was: Layer, ghost i: nat)
      returns (next: Pointer)
      requires i < |todo| && todo[i] == o && Distinct(todo)
      requires Drained(todo, was, i, false) && SaneLayer(was)
      requires moved ==> was[o].coin.IsSpent()
      modifies this
      ensures Drained(todo, was, i + 1, false)
      ensures next == Stop(todo, i + 2)
    {
      hide ListSane;
      ghost var before := Layer();
      TodoStep(todo, i);
      CleanedNext(was, todo[..i], o);
      CleanedSane(was, todo[..i + 1]);
      UsageSet(before, o, Entry(was[o].coin, false, false));
      assert before[o] == was[o] && SaneEntry(was[o]);
      if moved {
        SetCoin(o, cacheCoins[o].entry.coin.(script := []));
      }
      next := NextAndMaybeErase(o, false, 0);
      assert Layer() == CleanedAt(before, o);
    }

    // ----- Operations that reach below -----

    lemma {:induction false} LookupUnspent(o: OutPoint)
      requires Chained() && AllSane()
      ensures Lookup(Abs(), o).Some? ==> !Lookup(Abs(), o).value.IsSpent()
      decreases Repr
    {
      if base != null {
        assert base.AllSane();
        base.LookupUnspent(o);
      }
    }

    method PeekCoin(o: OutPoint) returns (coin: Option<Coin>)
      requires Chained() && AllSane()
      ensures coin == Lookup(Abs(), o)
      ensures coin.Some? ==> !coin.value.IsSpent()
      decreases Repr
    {
      if o in cacheCoins {
        coin := if cacheCoins[o].entry.coin.IsSpent() then None else Some(cacheCoins[o].entry.coin);
      } else if base == null {
        coin := if o in db.coins then Some(db.coins[o]) else None;
      } else {
        coin := base.PeekCoin(o);
      }
    }

    // What the view below answers; asking it may fill the caches there.
    method FetchCoinFromBase(o: OutPoint) returns (coin: Option<Coin>)
      requires Chained() && AllSane()
      modifies Repr - {this}
      ensures Sane() && Layer() == old(Layer()) && BelowSane()
      ensures Below() == if peeks then old(Below()) else Fetch(old(Below()), o)
      ensures coin == Lookup(old(Below()), o)
      ensures coin.Some? ==> !coin.value.IsSpent()
      decreases Repr, 0
    {
      if base == null {
        coin := if o in db.coins then Some(db.coins[o]) else None;
      } else {
        assert base.AllSane() && Below() == base.Abs();
        if peeks {
          coin := base.PeekCoin(o);
        } else {
          coin := base.GetCoin(o);
          assert Below() == base.Abs();
        }
      }
    }

    // Brings the entry of an outpoint into this cache, if the stack has a coin there.
    method FetchCoin(o: OutPoint) returns (found: bool)
      requires Chained() && AllSane()
      modifies Repr
      ensures AllSane() && Abs() == Fetch(old(Abs()), o)
      ensures found == (o in Layer())
      decreases Repr, 1
    {
      hide ListSane;
      if o in cacheCoins {
        return true;
      }
      var coin := FetchCoinFromBase(o);
      found := coin.Some?;
      if found {
        ghost var beneath := Below();
        KeepFetched(o, coin.value);
        assert Below() == beneath;
      }
    }

    // The insertion of a fetched coin, clean and counted.
    method KeepFetched(o: OutPoint, coin: Coin)
      requires Sane() && o !in cacheCoins && !coin.IsSpent()
      modifies this
      ensures Sane() && Layer() == old(Layer())[o := Entry(coin, false, false)]
    {
      hide ListSane;
      ghost var was := Layer();
      SetTwice(was, o, Entry(EMPTY_COIN, false, false), Entry(coin, false, false));
      UsageSet(was, o, Entry(coin, false, false));
      SaneSet(was, o, Entry(coin, false, false));
      var _ := TryEmplace(o);
      SetCoin(o, coin);
      usage := usage + coin.Usage();
    }

    method GetCoin(o: OutPoint) returns (coin: Option<Coin>)
      requires Chained() && AllSane()
      modifies Repr
      ensures AllSane() && Abs() == Fetch(old(Abs()), o)
      ensures coin == Lookup(old(Abs()), o)
      ensures coin.Some? ==> !coin.value.IsSpent()
      decreases Repr, 2
    {
      LookupUnspent(o);
      FetchedLookup(Abs(), o);
      var found := FetchCoin(o);
      if found && !cacheCoins[o].entry.coin.IsSpent() {
        coin := Some(cacheCoins[o].entry.coin);
      } else {
        coin := None;
      }
    }

    method HaveCoin(o: OutPoint) returns (have: bool)
      requires Chained() && AllSane()
      modifies Repr
      ensures AllSane() && Abs() == Fetch(old(Abs()), o)
      ensures have == Lookup(old(Abs()), o).Some?
    {
      var coin := GetCoin(o);
      have := coin.Some?;
    }

    // AddCoin, seen from the whole stack.
    method AddCoinTo(o: OutPoint, coin: Coin, overwrite: bool) returns (threw: bool)
      requires Chained() && AllSane() && !coin.IsSpent()
      modifies this
      ensures AllSane()
      ensures threw == Add(old(Abs()), o, coin, overwrite).Threw?
      ensures Abs() == if threw then old(Abs()) else Add(old(Abs()), o, coin, overwrite).view
    {
      ghost var beneath := Below();
      threw := AddCoin(o, coin, overwrite);
      assert Below() == beneath;
    }

    method Reset()
      requires Chained() && AllSane()
      modifies this
      ensures AllSane() && Abs() == Cache(map[], old(Below()), peeks)
    {
      ghost var beneath := Below();
      Clear();
      assert Below() == beneath;
    }

    // Recounts the entries from the map, walks the list, and compares both with the counters.
    method SanityCheck() returns (ok: bool)
      requires ListSane()
      ensures ok <==>
        && (forall o | o in Layer() ::
              if Layer()[o].coin.IsSpent() then Layer()[o].isDirty && !Layer()[o].isFresh
              else Layer()[o].isDirty || !Layer()[o].isFresh)
        && dirtyCount == |linked| && usage == TotalUsage(Layer())
      ensures Sane() <==> ok && forall o | o in Layer() && Layer()[o].coin.IsSpent() :: Layer()[o].coin.Usage() == 0
    {
      var flagsOk := CheckFlags();
      var recomputed, countDirty := Recount();
      var countLinked := WalkList();
      ok := flagsOk && countDirty == countLinked && countDirty == dirtyCount && recomputed == usage;
    }

    // No entry has a forbidden combination of flags.
    method CheckFlags() returns (ok: bool)
      requires ListSane()
      ensures ok <==> forall o | o in cacheCoins ::
                var e := cacheCoins[o].entry;
                if e.coin.IsSpent() then e.isDirty && !e.isFresh else e.isDirty || !e.isFresh
    {
      var todo := cacheCoins.Keys;
      while todo != {}
        invariant todo <= cacheCoins.Keys
        invariant forall o | o in cacheCoins && o !in todo ::
                    var e := cacheCoins[o].entry;
                    if e.coin.IsSpent() then e.isDirty && !e.isFresh else e.isDirty || !e.isFresh
      {
        var o :| o in todo;
        var e := cacheCoins[o].entry;
        if if e.coin.IsSpent() then !(e.isDirty && !e.isFresh) else !(e.isDirty || !e.isFresh) {
          return false;
        }
        todo := todo - {o};
      }
      ok := true;
    }

    method Recount() returns (recomputed: nat, countDirty: nat)
      requires ListSane()
      ensures recomputed == TotalUsage(Layer()) && countDirty == |linked|
    {
      hide RingSane, FlagsSane;
      recomputed, countDirty := 0, 0;
      var todo := cacheCoins.Keys;
      ghost var rest := Layer();
      ghost var seen: set<OutPoint> := {};
      while todo != {}
        invariant todo == rest.Keys && todo <= cacheCoins.Keys
        invariant forall o | o in rest :: rest[o] == cacheCoins[o].entry
        invariant recomputed + TotalUsage(rest) == TotalUsage(Layer())
        invariant seen == (set o | o in cacheCoins && o !in todo && cacheCoins[o].entry.isDirty)
        invariant countDirty == |seen|
      {
        var o :| o in todo;
        var e := cacheCoins[o].entry;
        UsageRemove(rest, o);
        recomputed := recomputed + e.coin.Usage();
        if e.isDirty {
          countDirty := countDirty + 1;
          seen := seen + {o};
        }
        todo, rest := todo - {o}, rest - {o};
      }
      DirtyCount(cacheCoins, sentinel, linked, seen);
    }

    // The list walk of the sanity check: every stop joins its neighbours and is dirty.
    method WalkList() returns (count: nat)
      requires ListSane()
      ensures count == |linked|
    {
      count := 0;
      var it := sentinel.next;
      assert Joined(cacheCoins, sentinel, Stop(linked, 0), Stop(linked, 1));
      while it != Sentinel
        invariant count <= |linked| && it == Stop(linked, count + 1)
        decreases |linked| - count
      {
        NeighboursOf(Store(cacheCoins, sentinel), linked, count);
        assert Joined(cacheCoins, sentinel, Stop(linked, count), it);
        assert Joined(cacheCoins, sentinel, it, Stop(linked, count + 2));
        assert Prev(cacheCoins, sentinel, Next(cacheCoins, sentinel, it)) == it;
        assert Next(cacheCoins, sentinel, Prev(cacheCoins, sentinel, it)) == it;
        assert cacheCoins[it.o].entry.isDirty;
        count := count + 1;
        it := cacheCoins[it.o].next;
      }
    }

    method SpendCoin(o: OutPoint) returns (found: bool, moved: Coin)
      requires Chained() && AllSane()
      modifies Repr
      ensures AllSane() && Abs() == Spend(old(Abs()), o)
      ensures found && Lookup(old(Abs()), o).Some? ==> moved == Lookup(old(Abs()), o).value
      ensures Lookup(old(Abs()), o).Some? ==> found
    {
      LookupUnspent(o);
      FetchedLookup(Abs(), o);
      moved := EMPTY_COIN;
      found := FetchCoin(o);
      if found {
        moved := SpendCached(o);
      }
    }

    // Pushes the dirty entries down; the wiping of a flush and the cleaning of a sync.
    method WriteDown(willErase: bool) returns (threw: bool)
      requires Chained() && AllSane()
      modifies Repr
      ensures threw == WriteThrows(old(Below()), old(Layer()))
      ensures !threw ==> BelowSane() && Below() == Written(old(Below()), old(Layer()))
      ensures !threw ==> Drained(old(linked), old(Layer()), old(|linked|), willErase)
    {
      hide ListSane, SaneLayer;
      if base == null {
        db.BatchWrite(this, willErase);
        threw := false;
      } else {
        assert base.AllSane() && base.BelowSane();
        assert base.Chained();
        assert base.base != null ==> base !in base.base.Repr && this !in base.base.Repr;
        ghost var beneath := base.Below();
        assert Below() == base.Abs();
        threw := base.BatchWrite(this, willErase);
        assert base.Below() == beneath;
        assert Below() == base.Abs();
        assert !threw ==> base.AllSane();
      }
    }

    method Flush() returns (threw: bool)
      requires Chained() && AllSane()
      modifies Repr
      ensures threw == CoinsView.Flush(old(Abs())).Threw?
      ensures !threw ==> AllSane() && Abs() == CoinsView.Flush(old(Abs())).view
    {
      hide ListSane, SaneLayer;
      threw := WriteDown(true);
      if !threw {
        Clear();
      }
    }

    method Sync() returns (threw: bool)
      requires Chained() && AllSane()
      modifies Repr
      ensures threw == CoinsView.Sync(old(Abs())).Threw?
      ensures !threw ==> AllSane() && Abs() == CoinsView.Sync(old(Abs())).view
      ensures !threw ==> sentinel.next == Sentinel && dirtyCount == 0
      ensures !threw ==> forall o :: o in Layer() <==> o in old(Layer()) && Lookup(old(Abs()), o).Some?
      ensures !threw ==> forall o | o in Layer() ::
        Layer()[o] == Entry(Lookup(old(Abs()), o).value, false, false)
    {
      ghost var was, todo := Layer(), linked;
      StartDrain(false);
      threw := WriteDown(false);
      if !threw {
        CleanedAll(was, todo);
        CleanedFinds(old(Abs()));
        assert todo[..|todo|] == todo;
        assert Joined(cacheCoins, sentinel, Stop(linked, 0), Stop(linked, 1));
      }
    }
  }

  // Adds the outputs of a transaction, as coins created at a height.
  method AddCoins(cache: CoinsViewCache, txid: int, outs: seq<Output>, height: nat, coinbase: bool, check: bool)
    returns (threw: bool)
    requires cache.Chained() && cache.AllSane()
    requires forall i | 0 <= i < |outs| :: outs[i].value != -1
    modifies cache.Repr
    ensures cache.AllSane()
    ensures threw == AddOutputs(old(cache.Abs()), txid, outs, 0, height, coinbase, check).Threw?
    ensures !threw ==> cache.Abs() == AddOutputs(old(cache.Abs()), txid, outs, 0, height, coinbase, check).view
  {
    threw := false;
    for i := 0 to |outs|
      invariant cache.AllSane()
      invariant AddOutputs(cache.Abs(), txid, outs, i, height, coinbase, check) ==
                AddOutputs(old(cache.Abs()), txid, outs, 0, height, coinbase, check)
    {
      var o, coin := OutPoint(txid, i), Coin(outs[i].value, outs[i].script, height, coinbase);
      ghost var v := cache.Abs();
      var overwrite := coinbase;
      if check {
        overwrite := cache.HaveCoin(o);
      }
      ghost var w := cache.Abs();
      threw := cache.AddCoinTo(o, coin, overwrite);
      if threw {
        return;
      }
    }
  }

  lemma FetchedLookup(v: View, o: OutPoint)
    requires v.Cache?
    requires Lookup(v, o).Some? ==> !Lookup(v, o).value.IsSpent()
    ensures var f := Fetch(v, o);
            Lookup(v, o) == if o in f.layer && !f.layer[o].coin.IsSpent() then Some(f.layer[o].coin) else None
  {
  }
}
