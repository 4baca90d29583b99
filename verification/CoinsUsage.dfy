/**
The memory accounted to a layer: the sum of the heap bytes of its coins, and how the sum
moves when an entry is set or removed.
*/
module CoinsUsage {
  import opened CoinsView

  ghost function TotalUsage(layer: Layer): nat
    decreases |layer|
  {
    if layer == map[] then 0
    else
      var o :| o in layer;
      RestSmaller(layer, o);
      layer[o].coin.Usage() + TotalUsage(layer - {o})
  }

  lemma RestSmaller(layer: Layer, o: OutPoint)
    requires o in layer
    ensures |layer - {o}| == |layer| - 1
  {
    assert (layer - {o}).Keys == layer.Keys - {o};
    assert |layer.Keys - {o}| == |layer.Keys| - 1;
  }

  lemma {:induction false} UsageRemove(layer: Layer, o: OutPoint)
    requires o in layer
    ensures TotalUsage(layer) == TotalUsage(layer - {o}) + layer[o].coin.Usage()
    decreases |layer|
  {
    var p :| p in layer && TotalUsage(layer) == layer[p].coin.Usage() + TotalUsage(layer - {p});
    if p != o {
      RestSmaller(layer, p);
      RestSmaller(layer, o);
      UsageRemove(layer - {p}, o);
      UsageRemove(layer - {o}, p);
      assert layer - {p} - {o} == layer - {o} - {p};
    }
  }

  lemma UsageSet(layer: Layer, o: OutPoint, e: Entry)
    ensures TotalUsage(layer[o := e]) ==
            TotalUsage(layer - {o}) + e.coin.Usage()
    ensures o !in layer ==> TotalUsage(layer - {o}) == TotalUsage(layer)
    ensures o in layer ==> TotalUsage(layer - {o}) == TotalUsage(layer) - layer[o].coin.Usage()
  {
    UsageRemove(layer[o := e], o);
    assert layer[o := e] - {o} == layer - {o};
    if o in layer {
      UsageRemove(layer, o);
    } else {
      assert layer - {o} == layer;
    }
  }
}
