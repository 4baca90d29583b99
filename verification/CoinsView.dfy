/**
The coins of a node, seen as values.

A view of the unspent outputs is a stack: a database at the bottom, and above it any
number of write-back caches whose entries carry a DIRTY and a FRESH flag.  This module
defines what each cache operation does to such a stack, and what a plain
outpoint-to-coin map would do under the same operation.  `CoinsRuns` relates the two.
*/
module CoinsView {
  import opened Options
  import Bits

  datatype OutPoint = OutPoint(txid: int, index: nat)

  const OP_RETURN: Bits.Byte := 0x6a
  const MAX_SCRIPT_SIZE := 10000
  // Scripts up to this size live inside the coin itself and use no heap memory.
  const INLINE_SCRIPT_SIZE := 36

  datatype Coin = Coin(value: int, script: seq<Bits.Byte>, height: nat, coinbase: bool) {
    predicate IsSpent() {
      value == -1
    }

    predicate IsUnspendable() {
      (|script| > 0 && script[0] == OP_RETURN) || |script| > MAX_SCRIPT_SIZE
    }

    // Bytes a 64-bit allocator hands out for the script.
    function Usage(): nat {
      if |script| <= INLINE_SCRIPT_SIZE then 0 else (|script| + 31) / 16 * 16
    }
  }

  const EMPTY_COIN := Coin(-1, [], 0, false)

  datatype Entry = Entry(coin: Coin, isDirty: bool, isFresh: bool)

  type Layer = map<OutPoint, Entry>

  // A cache whose `peeks` is set fetches from its base without filling the caches below.
  datatype View =
    | Database(coins: map<OutPoint, Coin>)
    | Cache(layer: Layer, base: View, peeks: bool)

  // What a caller sees: the unspent coin at an outpoint, if any.
  function Lookup(v: View, o: OutPoint): Option<Coin> {
    match v
    case Database(coins) => if o in coins then Some(coins[o]) else None
    case Cache(layer, base, _) =>
      if o in layer then
        if layer[o].coin.IsSpent() then None else Some(layer[o].coin)
      else
        Lookup(base, o)
  }

  // ----- Invariants -----

  // The flag combinations the sanity check allows: a spent entry is dirty and not fresh,
  // a fresh one is dirty.
  predicate SaneEntry(e: Entry) {
    if e.coin.IsSpent() then e.isDirty && !e.isFresh && e.coin.Usage() == 0 else e.isFresh ==> e.isDirty
  }

  predicate SaneLayer(layer: Layer) {
    forall o | o in layer :: SaneEntry(layer[o])
  }

  // What the flags mean about the view below: FRESH says it has no such coin,
  // not DIRTY says it has exactly this coin.
  ghost predicate EntryAgrees(e: Entry, below: Option<Coin>) {
    && (e.isFresh ==> below == None)
    && (!e.isDirty ==> below == Some(e.coin))
  }

  ghost predicate LayerAgrees(layer: Layer, base: View) {
    forall o | o in layer :: EntryAgrees(layer[o], Lookup(base, o))
  }

  ghost predicate Coherent(v: View) {
    match v
    case Database(coins) => forall o | o in coins :: !coins[o].IsSpent()
    case Cache(layer, base, _) => SaneLayer(layer) && LayerAgrees(layer, base) && Coherent(base)
  }

  // ----- Operations -----

  // GetCoin: fills every cache between the answer and the caller.
  function Fetch(v: View, o: OutPoint): View {
    match v
    case Database(_) => v
    case Cache(layer, base, peeks) =>
      if o in layer then v
      else
        var base' := if peeks then base else Fetch(base, o);
        match Lookup(base, o)
        case Some(coin) => Cache(layer[o := Entry(coin, false, false)], base', peeks)
        case None => Cache(layer, base', peeks)
  }

  datatype Outcome = Threw | Done(view: View)

  // The layer after AddCoin, when the coin is spendable and the call does not throw.
  function AddedLayer(layer: Layer, o: OutPoint, coin: Coin, overwrite: bool): Layer {
    var keepsFresh :=
      if overwrite then o in layer && layer[o].isFresh
      else (o in layer && layer[o].isFresh) || o !in layer || !layer[o].isDirty;
    layer[o := Entry(coin, true, keepsFresh)]
  }

  predicate AddThrows(layer: Layer, o: OutPoint, coin: Coin, overwrite: bool) {
    !coin.IsUnspendable() && !overwrite && o in layer && !layer[o].coin.IsSpent()
  }

  function Add(v: View, o: OutPoint, coin: Coin, overwrite: bool): Outcome
    requires v.Cache?
  {
    if coin.IsUnspendable() then Done(v)
    else if AddThrows(v.layer, o, coin, overwrite) then Threw
    else Done(v.(layer := AddedLayer(v.layer, o, coin, overwrite)))
  }

  // Loads a coin of a snapshot; an entry already present is kept.
  function Emplace(v: View, o: OutPoint, coin: Coin): View
    requires v.Cache?
  {
    if o in v.layer then v else v.(layer := v.layer[o := Entry(coin, true, false)])
  }

  function SpentLayer(layer: Layer, o: OutPoint): Layer {
    if o !in layer then layer
    else if layer[o].isFresh then layer - {o}
    else layer[o := Entry(EMPTY_COIN, true, false)]
  }

  function Spend(v: View, o: OutPoint): View
    requires v.Cache?
  {
    var fetched := Fetch(v, o);
    fetched.(layer := SpentLayer(fetched.layer, o))
  }

  function Uncache(v: View, o: OutPoint): View
    requires v.Cache?
  {
    if o in v.layer && !v.layer[o].isDirty then v.(layer := v.layer - {o}) else v
  }

  // ----- Writing a layer to the view below -----

  function At<T>(m: map<OutPoint, T>, o: OutPoint): Option<T> {
    if o in m then Some(m[o]) else None
  }

  // One dirty entry of the child written over what the parent cache holds.
  function MergeEntry(parent: Option<Entry>, child: Entry): Option<Entry> {
    match parent
    case None =>
      if child.isFresh && child.coin.IsSpent() then None else Some(Entry(child.coin, true, child.isFresh))
    case Some(e) =>
      if e.isFresh && child.coin.IsSpent() then None else Some(Entry(child.coin, true, e.isFresh))
  }

  function MergeAt(parent: Layer, child: Layer, o: OutPoint): Option<Entry> {
    if o in child && child[o].isDirty then MergeEntry(At(parent, o), child[o]) else At(parent, o)
  }

  function Merged(parent: Layer, child: Layer): Layer {
    map o | o in parent.Keys + child.Keys && MergeAt(parent, child, o).Some? :: MergeAt(parent, child, o).value
  }

  // The parent layer after one dirty entry of the child.
  function MergeInto(parent: Layer, o: OutPoint, child: Entry): Layer {
    match MergeEntry(At(parent, o), child)
    case None => parent - {o}
    case Some(e) => parent[o := e]
  }

  // The error of BatchWrite: a coin marked FRESH exists unspent in the parent cache.
  predicate Misapplied(parent: Layer, child: Layer, o: OutPoint) {
    && o in child && child[o].isDirty && child[o].isFresh
    && o in parent && !parent[o].coin.IsSpent()
  }

  function StoredAt(coins: map<OutPoint, Coin>, child: Layer, o: OutPoint): Option<Coin> {
    if o in child && child[o].isDirty then
      if child[o].coin.IsSpent() then None else Some(child[o].coin)
    else At(coins, o)
  }

  function Stored(coins: map<OutPoint, Coin>, child: Layer): map<OutPoint, Coin> {
    map o | o in coins.Keys + child.Keys && StoredAt(coins, child, o).Some? :: StoredAt(coins, child, o).value
  }

  predicate WriteThrows(base: View, child: Layer) {
    base.Cache? && exists o | o in child :: Misapplied(base.layer, child, o)
  }

  function Written(base: View, child: Layer): View {
    match base
    case Database(coins) => Database(Stored(coins, child))
    case Cache(layer, _, _) => base.(layer := Merged(layer, child))
  }

  // The layer left behind by Sync: dirty spent entries go, the others become clean.
  function Cleaned(layer: Layer): Layer {
    map o | o in layer && !(layer[o].isDirty && layer[o].coin.IsSpent()) ::
      if layer[o].isDirty then Entry(layer[o].coin, false, false) else layer[o]
  }

  // One entry cleaned, and a layer with some of its dirty entries cleaned.
  function CleanedAt(layer: Layer, o: OutPoint): Layer
    requires o in layer
  {
    if layer[o].coin.IsSpent() then layer - {o} else layer[o := Entry(layer[o].coin, false, false)]
  }

  function CleanedPart(layer: Layer, some: seq<OutPoint>): Layer {
    map o | o in layer && !(o in some && layer[o].coin.IsSpent()) ::
      if o in some then Entry(layer[o].coin, false, false) else layer[o]
  }

  lemma CleanedNext(layer: Layer, some: seq<OutPoint>, o: OutPoint)
    requires o in layer && o !in some
    ensures o in CleanedPart(layer, some)
    ensures CleanedPart(layer, some + [o]) == CleanedAt(CleanedPart(layer, some), o)
  {
  }

  lemma CleanedSane(layer: Layer, some: seq<OutPoint>)
    requires SaneLayer(layer)
    ensures SaneLayer(CleanedPart(layer, some))
  {
  }

  lemma CleanedAll(layer: Layer, some: seq<OutPoint>)
    requires forall o | o in layer :: layer[o].isDirty <==> o in some
    ensures CleanedPart(layer, some) == Cleaned(layer)
  {
  }

  // What a Sync leaves in a layer, said by the lookups: the entries whose coin is found.
  lemma CleanedFinds(v: View)
    requires v.Cache? && SaneLayer(v.layer)
    ensures forall o :: o in Cleaned(v.layer) <==> o in v.layer && Lookup(v, o).Some?
    ensures forall o | o in Cleaned(v.layer) :: Cleaned(v.layer)[o] == Entry(Lookup(v, o).value, false, false)
  {
    forall o | o in v.layer
      ensures o in Cleaned(v.layer) <==> Lookup(v, o).Some?
      ensures Lookup(v, o).Some? ==> Cleaned(v.layer)[o] == Entry(Lookup(v, o).value, false, false)
    {
      assert SaneEntry(v.layer[o]);
    }
  }

  lemma MergedAll(parent: Layer, child: Layer, some: seq<OutPoint>)
    requires forall o | o in child :: child[o].isDirty <==> o in some
    ensures Merged(parent, Part(child, some)) == Merged(parent, child)
  {
    forall o ensures MergeAt(parent, Part(child, some), o) == MergeAt(parent, child, o) {
    }
    SameAt(Merged(parent, Part(child, some)), Merged(parent, child));
  }

  // The entries of a layer at some of its outpoints.
  function Part(layer: Layer, some: seq<OutPoint>): Layer {
    map o | o in layer && o in some :: layer[o]
  }

  lemma MergedNext(parent: Layer, child: Layer, some: seq<OutPoint>, o: OutPoint)
    requires o in child && child[o].isDirty && o !in some
    ensures At(Merged(parent, Part(child, some)), o) == At(parent, o)
    ensures Merged(parent, Part(child, some + [o])) == MergeInto(Merged(parent, Part(child, some)), o, child[o])
  {
    var was, now := Part(child, some), Part(child, some + [o]);
    var merged := Merged(parent, was);
    assert At(merged, o) == At(parent, o) by {
      assert MergeAt(parent, was, o) == At(parent, o);
    }
    var next := MergeInto(merged, o, child[o]);
    forall p ensures MergeAt(parent, now, p) == At(next, p) {
      if p != o {
        assert p in now <==> p in was;
        assert MergeAt(parent, was, p) == At(merged, p);
      }
    }
    SameAt(Merged(parent, now), next);
  }

  // An outpoint not yet written is as it was.
  lemma MergedNone(parent: Layer, child: Layer)
    ensures Merged(parent, Part(child, [])) == parent
  {
    forall o ensures MergeAt(parent, Part(child, []), o) == At(parent, o) {
    }
    SameAt(Merged(parent, Part(child, [])), parent);
  }

  lemma StoredNext(coins: map<OutPoint, Coin>, child: Layer, some: seq<OutPoint>, o: OutPoint)
    requires o in child && child[o].isDirty && o !in some
    ensures Stored(coins, Part(child, some + [o])) ==
            if child[o].coin.IsSpent() then Stored(coins, Part(child, some)) - {o}
            else Stored(coins, Part(child, some))[o := child[o].coin]
  {
    var was, now := Part(child, some), Part(child, some + [o]);
    forall p | p != o ensures StoredAt(coins, now, p) == StoredAt(coins, was, p) {
      assert p in now <==> p in was;
    }
  }

  lemma StoredAll(coins: map<OutPoint, Coin>, child: Layer, some: seq<OutPoint>)
    requires forall o | o in child :: child[o].isDirty <==> o in some
    ensures Stored(coins, Part(child, some)) == Stored(coins, child)
    ensures Stored(coins, Part(child, [])) == coins
  {
    forall o ensures StoredAt(coins, Part(child, some), o) == StoredAt(coins, child, o) {
    }
    SameAt(Stored(coins, Part(child, some)), Stored(coins, child));
  }

  lemma SameAt<T>(m: map<OutPoint, T>, n: map<OutPoint, T>)
    requires forall o :: At(m, o) == At(n, o)
    ensures m == n
  {
    forall o ensures (o in m <==> o in n) && (o in m ==> m[o] == n[o]) {
      assert At(m, o) == At(n, o);
    }
  }

  function WriteBack(v: View, keep: Layer): Outcome
    requires v.Cache?
  {
    if WriteThrows(v.base, v.layer) then Threw
    else Done(v.(layer := keep, base := Written(v.base, v.layer)))
  }

  function Flush(v: View): Outcome
    requires v.Cache?
  {
    WriteBack(v, map[])
  }

  function Sync(v: View): Outcome
    requires v.Cache?
  {
    WriteBack(v, Cleaned(v.layer))
  }

  // ----- Adding a transaction -----

  datatype Output = Output(value: int, script: seq<Bits.Byte>)

  // The outputs from the i-th on; an addition counts as an overwrite if the view has the
  // coin (when asked to check) or if the transaction is a coinbase.
  function AddOutputs(v: View, txid: int, outs: seq<Output>, i: nat, height: nat, coinbase: bool, check: bool): Outcome
    requires v.Cache? && i <= |outs|
    decreases |outs| - i
  {
    if i == |outs| then Done(v)
    else
      var o := OutPoint(txid, i);
      var w := if check then Fetch(v, o) else v;
      var overwrite := if check then Lookup(v, o).Some? else coinbase;
      match Add(w, o, Coin(outs[i].value, outs[i].script, height, coinbase), overwrite)
      case Threw => Threw
      case Done(x) => AddOutputs(x, txid, outs, i + 1, height, coinbase, check)
  }
}
