/**
What the flags of a coins cache save: a coin that is created and spent above a view is never
written to it, and what is clean is held only to be found faster.
*/
module CoinsSaves {
  import opened CoinsView
  import opened CoinsRuns
  import opened Options

  // ----- Keeping what was read -----

  // A read leaves every entry alone and adds the coin it found, clean, so that a second read
  // changes nothing.
  lemma FetchCaches(v: View, o: OutPoint)
    requires v.Cache?
    ensures var r := Fetch(v, o);
            && r.Cache? && r.peeks == v.peeks && (v.peeks ==> r.base == v.base)
            && (forall x | x != o :: x in r.layer <==> x in v.layer)
            && (forall x | x in v.layer :: x in r.layer && r.layer[x] == v.layer[x])
            && (o in r.layer <==> o in v.layer || Lookup(v, o).Some?)
            && (o !in v.layer && Lookup(v, o).Some? ==> r.layer[o] == Entry(Lookup(v, o).value, false, false))
            && (o in r.layer ==> Fetch(r, o) == r)
  {
  }

  // Uncaching drops the entry exactly if it is clean.
  lemma UncacheExactly(v: View, o: OutPoint)
    requires v.Cache?
    ensures var r := Uncache(v, o);
            && r.Cache? && r.base == v.base && r.peeks == v.peeks
            && (forall x | x != o :: x in r.layer <==> x in v.layer)
            && (forall x | x in r.layer :: r.layer[x] == v.layer[x])
            && (o in r.layer <==> o in v.layer && v.layer[o].isDirty)
  {
  }

  // ----- Saving writes -----

  // A coin that is added where the cache knows nothing, and spent again, leaves no trace.
  lemma AddSpendLeavesNothing(v: View, o: OutPoint, coin: Coin)
    requires v.Cache? && o !in v.layer && !coin.IsUnspendable()
    ensures Add(v, o, coin, false).Done? && Spend(Add(v, o, coin, false).view, o) == v
  {
    var w := Add(v, o, coin, false).view;
    assert w.layer - {o} == v.layer;
  }

  lemma MergedWithOne(parent: Layer, child: Layer, o: OutPoint, coin: Coin)
    requires o !in parent && o !in child && !coin.IsSpent()
    ensures Merged(parent, child[o := Entry(coin, true, true)]) == Merged(parent, child)[o := Entry(coin, true, true)]
    ensures o !in Merged(parent, child)
  {
    var more := child[o := Entry(coin, true, true)];
    forall x | x != o ensures MergeAt(parent, more, x) == MergeAt(parent, child, x) {
    }
    assert MergeAt(parent, more, o) == Some(Entry(coin, true, true));
  }

  // The same when it is flushed in between: a coin added to a cache and flushed to the cache
  // below is spent there without a trace, and never reaches the views under that.
  lemma AddFlushSpendLeavesNothing(v: View, o: OutPoint, coin: Coin)
    requires v.Cache? && v.base.Cache? && Coherent(v) && o !in v.layer && o !in v.base.layer
    requires !coin.IsUnspendable() && !coin.IsSpent()
    ensures Add(v, o, coin, false).Done? && Flush(v).Done?
    ensures var w := Add(v, o, coin, false).view;
            && Flush(w).Done? && Flush(w).view.base.Cache?
            && Spend(Flush(w).view.base, o) == Flush(v).view.base
  {
    hide Coherent, Merged, Lookup;
    FlushKeeps(v);
    var w := Add(v, o, coin, false).view;
    assert w.layer == v.layer[o := Entry(coin, true, true)];
    MergedWithOne(v.base.layer, v.layer, o, coin);
    forall x | x in w.layer ensures !Misapplied(v.base.layer, w.layer, x) {
      if x != o {
        assert !Misapplied(v.base.layer, v.layer, x);
      }
    }
    var flushed, plain := Merged(v.base.layer, w.layer), Merged(v.base.layer, v.layer);
    assert flushed - {o} == plain;
  }

  // A coin that is fresh in the parent stays so unless the child spent it, and then it is gone.
  lemma FreshStaysFresh(parent: Layer, child: Layer, o: OutPoint)
    requires o in parent && parent[o].isFresh
    ensures o in Merged(parent, child) <==> !(o in child && child[o].isDirty && child[o].coin.IsSpent())
    ensures o in Merged(parent, child) ==> Merged(parent, child)[o].isFresh
  {
    assert MergeAt(parent, child, o).Some? ==> o in Merged(parent, child);
  }
}
