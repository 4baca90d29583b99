/**
The circular doubly linked list threaded through the dirty entries of a coin cache.

A pair of the cache is addressed by its outpoint, so a pointer is null, the sentinel, or
an outpoint.  `linked` lists the pairs from the sentinel's successor to its predecessor.
*/
module CoinsList {
  import opened CoinsView

  datatype Pointer = Null | Sentinel | To(o: OutPoint)

  // A cache entry with its list pointers; the sentinel has the pointers only.
  datatype Pair = Pair(entry: Entry, prev: Pointer, next: Pointer)
  datatype Ends = Ends(prev: Pointer, next: Pointer)

  type Pairs = map<OutPoint, Pair>

  predicate Points(pairs: Pairs, p: Pointer) {
    p.Sentinel? || (p.To? && p.o in pairs)
  }

  function Next(pairs: Pairs, ends: Ends, p: Pointer): Pointer
    requires Points(pairs, p)
  {
    if p.Sentinel? then ends.next else pairs[p.o].next
  }

  function Prev(pairs: Pairs, ends: Ends, p: Pointer): Pointer
    requires Points(pairs, p)
  {
    if p.Sentinel? then ends.prev else pairs[p.o].prev
  }

  // The i-th stop of a walk round the list, which starts and ends at the sentinel.
  function Stop(linked: seq<OutPoint>, i: nat): Pointer
    requires i <= |linked| + 1
  {
    if i == 0 || i == |linked| + 1 then Sentinel else To(linked[i - 1])
  }

  ghost predicate Distinct(linked: seq<OutPoint>) {
    forall i, j | 0 <= i < j < |linked| :: linked[i] != linked[j]
  }

  ghost predicate Joined(pairs: Pairs, ends: Ends, p: Pointer, q: Pointer) {
    && Points(pairs, p) && Points(pairs, q)
    && Next(pairs, ends, p) == q && Prev(pairs, ends, q) == p
  }

  // Walking from the sentinel visits `linked` in order, forwards and backwards.
  ghost predicate RingSane(pairs: Pairs, ends: Ends, linked: seq<OutPoint>) {
    && Distinct(linked)
    && (forall o | o in linked :: o in pairs)
    && (forall i: nat | i <= |linked| :: Joined(pairs, ends, Stop(linked, i), Stop(linked, i + 1)))
  }

  predicate HasFlags(e: Entry) {
    e.isDirty || e.isFresh
  }

  // The list holds exactly the flagged pairs, and any other pair has null pointers.
  ghost predicate FlagsSane(pairs: Pairs, linked: seq<OutPoint>) {
    forall o | o in pairs ::
      && (HasFlags(pairs[o].entry) <==> o in linked)
      && (!HasFlags(pairs[o].entry) ==> pairs[o].prev == Null && pairs[o].next == Null)
  }

  // The FRESH flag never stands alone.
  ghost predicate DirtyIfFresh(pairs: Pairs) {
    forall o | o in pairs :: pairs[o].entry.isFresh ==> pairs[o].entry.isDirty
  }

  ghost predicate Shaped(pairs: Pairs, ends: Ends, linked: seq<OutPoint>) {
    RingSane(pairs, ends, linked) && FlagsSane(pairs, linked)
  }

  // ----- Pointer writes -----

  datatype Store = Store(pairs: Pairs, ends: Ends)

  function SetNext(s: Store, p: Pointer, q: Pointer): Store {
    if p.Sentinel? then s.(ends := s.ends.(next := q))
    else if p.To? && p.o in s.pairs then s.(pairs := s.pairs[p.o := s.pairs[p.o].(next := q)])
    else s
  }

  function SetPrev(s: Store, p: Pointer, q: Pointer): Store {
    if p.Sentinel? then s.(ends := s.ends.(prev := q))
    else if p.To? && p.o in s.pairs then s.(pairs := s.pairs[p.o := s.pairs[p.o].(prev := q)])
    else s
  }

  // AddFlags: a pair without flags is linked in just before the sentinel.
  function Flagged(s: Store, o: OutPoint, dirty: bool, freshly: bool): Store
    requires o in s.pairs
  {
    var was := s.pairs[o];
    var linkedIn :=
      if was.entry.isDirty || was.entry.isFresh then s
      else
        var s1 := s.(pairs := s.pairs[o := was.(prev := s.ends.prev, next := Sentinel)]);
        var s2 := SetPrev(s1, Sentinel, To(o));
        SetNext(s2, s.ends.prev, To(o));
    var now := linkedIn.pairs[o];
    linkedIn.(pairs := linkedIn.pairs[o := now.(entry := Entry(was.entry.coin, was.entry.isDirty || dirty, was.entry.isFresh || freshly))])
  }

  // SetClean: a flagged pair is unlinked and loses its flags.
  function Unflagged(s: Store, o: OutPoint): Store
    requires o in s.pairs
  {
    var was := s.pairs[o];
    if !was.entry.isDirty && !was.entry.isFresh then s
    else
      var s1 := SetPrev(s, was.next, was.prev);
      var s2 := SetNext(s1, was.prev, was.next);
      s2.(pairs := s2.pairs[o := Pair(Entry(was.entry.coin, false, false), Null, Null)])
  }

  // ----- The list after each write -----

  function Without(linked: seq<OutPoint>, k: nat): seq<OutPoint>
    requires k < |linked|
  {
    linked[..k] + linked[k + 1..]
  }

  lemma FlaggedPointers(s: Store, o: OutPoint, dirty: bool, freshly: bool, p: Pointer)
    requires o in s.pairs && !HasFlags(s.pairs[o].entry)
    requires Points(s.pairs, s.ends.prev) && s.ends.prev != To(o) && Points(s.pairs, p)
    ensures var t := Flagged(s, o, dirty, freshly);
            && t.pairs.Keys == s.pairs.Keys
            && Next(t.pairs, t.ends, p) ==
               (if p == To(o) then Sentinel else if p == s.ends.prev then To(o) else Next(s.pairs, s.ends, p))
            && Prev(t.pairs, t.ends, p) ==
               (if p == To(o) then s.ends.prev else if p == Sentinel then To(o) else Prev(s.pairs, s.ends, p))
  {
  }

  lemma FlaggedEntries(s: Store, o: OutPoint, dirty: bool, freshly: bool)
    requires o in s.pairs
    ensures var t, e := Flagged(s, o, dirty, freshly), s.pairs[o].entry;
            && t.pairs.Keys == s.pairs.Keys
            && t.pairs[o].entry == Entry(e.coin, e.isDirty || dirty, e.isFresh || freshly)
            && (forall p | p in s.pairs && p != o :: t.pairs[p].entry == s.pairs[p].entry)
  {
  }

  lemma FlaggedShape(s: Store, linked: seq<OutPoint>, o: OutPoint, dirty: bool, freshly: bool)
    requires Shaped(s.pairs, s.ends, linked) && o in s.pairs && (dirty || freshly)
    ensures var t, linked' := Flagged(s, o, dirty, freshly), if o in linked then linked else linked + [o];
            Shaped(t.pairs, t.ends, linked')
  {
    var t := Flagged(s, o, dirty, freshly);
    FlaggedEntries(s, o, dirty, freshly);
    assert Joined(s.pairs, s.ends, Stop(linked, |linked|), Stop(linked, |linked| + 1));
    if o !in linked {
      FlaggedRing(s, linked, o, dirty, freshly);
      forall p | p in s.pairs && p != o
        ensures !HasFlags(t.pairs[p].entry) ==> t.pairs[p].prev == Null && t.pairs[p].next == Null
      {
        FlaggedPointers(s, o, dirty, freshly, To(p));
      }
    } else {
      forall i: nat | i <= |linked| ensures Joined(t.pairs, t.ends, Stop(linked, i), Stop(linked, i + 1)) {
        assert Joined(s.pairs, s.ends, Stop(linked, i), Stop(linked, i + 1));
      }
    }
  }

  lemma FlaggedRing(s: Store, linked: seq<OutPoint>, o: OutPoint, dirty: bool, freshly: bool)
    requires Shaped(s.pairs, s.ends, linked) && o in s.pairs && o !in linked
    ensures var t := Flagged(s, o, dirty, freshly);
            RingSane(t.pairs, t.ends, linked + [o])
  {
    var t, linked' := Flagged(s, o, dirty, freshly), linked + [o];
    var last := Stop(linked, |linked|);
    assert Joined(s.pairs, s.ends, last, Stop(linked, |linked| + 1));
    FlaggedEntries(s, o, dirty, freshly);
    forall i: nat | i <= |linked'| ensures Joined(t.pairs, t.ends, Stop(linked', i), Stop(linked', i + 1)) {
      FlaggedPointers(s, o, dirty, freshly, Stop(linked', i));
      FlaggedPointers(s, o, dirty, freshly, Stop(linked', i + 1));
      if i < |linked| {
        assert Joined(s.pairs, s.ends, Stop(linked, i), Stop(linked, i + 1));
      }
    }
  }

  lemma UnflaggedPointers(s: Store, o: OutPoint, p: Pointer)
    requires o in s.pairs && HasFlags(s.pairs[o].entry)
    requires Points(s.pairs, s.pairs[o].prev) && Points(s.pairs, s.pairs[o].next)
    requires s.pairs[o].prev != To(o) && s.pairs[o].next != To(o)
    requires Points(s.pairs, p) && p != To(o)
    ensures var t, was := Unflagged(s, o), s.pairs[o];
            && t.pairs.Keys == s.pairs.Keys
            && Next(t.pairs, t.ends, p) == (if p == was.prev then was.next else Next(s.pairs, s.ends, p))
            && Prev(t.pairs, t.ends, p) == (if p == was.next then was.prev else Prev(s.pairs, s.ends, p))
  {
  }

  lemma UnflaggedEntries(s: Store, o: OutPoint)
    requires o in s.pairs
    ensures var t, e := Unflagged(s, o), s.pairs[o].entry;
            && t.pairs.Keys == s.pairs.Keys
            && t.pairs[o].entry == Entry(e.coin, false, false)
            && (HasFlags(e) ==> t.pairs[o].prev == Null && t.pairs[o].next == Null)
            && (forall p | p in s.pairs && p != o :: t.pairs[p].entry == s.pairs[p].entry)
  {
  }

  lemma StopsApart(linked: seq<OutPoint>, i: nat, j: nat)
    requires Distinct(linked) && i <= |linked| + 1 && j <= |linked| + 1
    ensures Stop(linked, i) == Stop(linked, j) ==> i == j || {i, j} == {0, |linked| + 1}
  {
  }

  // Taking the k-th pair out moves the later stops up by one.
  lemma StopWithout(linked: seq<OutPoint>, k: nat, i: nat)
    requires k < |linked| && i <= |linked|
    ensures Stop(Without(linked, k), i) == Stop(linked, if i <= k then i else i + 1)
  {
  }

  lemma UnflaggedJoin(s: Store, linked: seq<OutPoint>, k: nat, i: nat)
    requires Shaped(s.pairs, s.ends, linked) && k < |linked| && i < |linked|
    ensures var t := Unflagged(s, linked[k]);
            Joined(t.pairs, t.ends, Stop(Without(linked, k), i), Stop(Without(linked, k), i + 1))
  {
    var o, j, l := linked[k], if i <= k then i else i + 1, if i < k then i + 1 else i + 2;
    NeighboursOf(s, linked, k);
    StopWithout(linked, k, i);
    StopWithout(linked, k, i + 1);
    StopsApart(linked, j, k);
    StopsApart(linked, l, k + 2);
    StopsApart(linked, j, k + 1);
    StopsApart(linked, l, k + 1);
    assert i != k ==> Joined(s.pairs, s.ends, Stop(linked, j), Stop(linked, l));
    assert Points(s.pairs, Stop(linked, j)) && Points(s.pairs, Stop(linked, l));
    UnflaggedPointers(s, o, Stop(linked, j));
    UnflaggedPointers(s, o, Stop(linked, l));
  }

  lemma NeighboursOf(s: Store, linked: seq<OutPoint>, k: nat)
    requires Shaped(s.pairs, s.ends, linked) && k < |linked|
    ensures var o := linked[k];
            && o in s.pairs && HasFlags(s.pairs[o].entry)
            && s.pairs[o].prev == Stop(linked, k) && s.pairs[o].next == Stop(linked, k + 2)
            && Points(s.pairs, Stop(linked, k)) && Points(s.pairs, Stop(linked, k + 2))
            && Stop(linked, k) != To(o) && Stop(linked, k + 2) != To(o)
  {
    assert Stop(linked, k + 1) == To(linked[k]);
    assert Joined(s.pairs, s.ends, Stop(linked, k), Stop(linked, k + 1));
    assert Joined(s.pairs, s.ends, Stop(linked, k + 1), Stop(linked, k + 2));
    StopsApart(linked, k, k + 1);
    StopsApart(linked, k + 2, k + 1);
  }

  lemma UnflaggedShape(s: Store, linked: seq<OutPoint>, k: nat)
    requires Shaped(s.pairs, s.ends, linked) && k < |linked|
    ensures var t := Unflagged(s, linked[k]);
            Shaped(t.pairs, t.ends, Without(linked, k))
  {
    var o, linked' := linked[k], Without(linked, k);
    var t := Unflagged(s, o);
    NeighboursOf(s, linked, k);
    UnflaggedEntries(s, o);
    forall i: nat | i <= |linked'| ensures Joined(t.pairs, t.ends, Stop(linked', i), Stop(linked', i + 1)) {
      UnflaggedJoin(s, linked, k, i);
    }
    forall p | p in s.pairs && p != o
      ensures !HasFlags(t.pairs[p].entry) ==> t.pairs[p].prev == Null && t.pairs[p].next == Null
      ensures p in linked <==> p in linked'
    {
      UnflaggedPointers(s, o, To(p));
    }
  }

  // ----- The value of the cache -----

  function LayerOf(pairs: Pairs): (layer: Layer)
    ensures layer.Keys == pairs.Keys
  {
    map o | o in pairs :: pairs[o].entry
  }

  lemma FlaggedEffect(s: Store, linked: seq<OutPoint>, o: OutPoint, dirty: bool, freshly: bool)
    requires Shaped(s.pairs, s.ends, linked) && o in s.pairs && (dirty || freshly)
    ensures var t, linked' := Flagged(s, o, dirty, freshly), if o in linked then linked else linked + [o];
            Shaped(t.pairs, t.ends, linked')
    ensures var t, e := Flagged(s, o, dirty, freshly), s.pairs[o].entry;
            LayerOf(t.pairs) == LayerOf(s.pairs)[o := Entry(e.coin, e.isDirty || dirty, e.isFresh || freshly)]
    ensures Points(s.pairs, s.ends.prev)
  {
    FlaggedShape(s, linked, o, dirty, freshly);
    FlaggedEntries(s, o, dirty, freshly);
    assert Joined(s.pairs, s.ends, Stop(linked, |linked|), Stop(linked, |linked| + 1));
  }

  lemma UnflaggedEffect(s: Store, linked: seq<OutPoint>, k: nat)
    requires Shaped(s.pairs, s.ends, linked) && k < |linked|
    ensures var t := Unflagged(s, linked[k]);
            Shaped(t.pairs, t.ends, Without(linked, k))
    ensures var t, o := Unflagged(s, linked[k]), linked[k];
            && o in s.pairs
            && LayerOf(t.pairs) == LayerOf(s.pairs)[o := Entry(s.pairs[o].entry.coin, false, false)]
            && Points(s.pairs, s.pairs[o].prev) && Points(s.pairs, s.pairs[o].next)
  {
    UnflaggedShape(s, linked, k);
    NeighboursOf(s, linked, k);
    UnflaggedEntries(s, linked[k]);
  }

  // Dropping a clean pair from the map, or a pair's coin changing, leaves the list alone.
  lemma RingFrame(pairs: Pairs, pairs': Pairs, ends: Ends, linked: seq<OutPoint>)
    requires Shaped(pairs, ends, linked)
    requires forall o | o in linked :: o in pairs' && pairs'[o].prev == pairs[o].prev && pairs'[o].next == pairs[o].next
    ensures RingSane(pairs', ends, linked)
  {
    forall i: nat | i <= |linked| ensures Joined(pairs', ends, Stop(linked, i), Stop(linked, i + 1)) {
      assert Joined(pairs, ends, Stop(linked, i), Stop(linked, i + 1));
    }
  }

  lemma SetTwice(layer: Layer, o: OutPoint, e: Entry, f: Entry)
    ensures layer[o := e][o := f] == layer[o := f]
    ensures o in layer && layer[o] == e ==> layer[o := e] == layer
  {
  }

  lemma SaneSet(layer: Layer, o: OutPoint, e: Entry)
    requires SaneLayer(layer) && SaneEntry(e)
    ensures SaneLayer(layer[o := e])
  {
  }

  lemma SaneRemove(layer: Layer, o: OutPoint)
    requires SaneLayer(layer)
    ensures SaneLayer(layer - {o})
  {
  }

  lemma SizeOf(pairs: Pairs)
    ensures |LayerOf(pairs)| == |pairs|
  {
    assert |LayerOf(pairs).Keys| == |pairs.Keys|;
  }

  // With no pairs left the sentinel points at itself.
  lemma EmptyRing(pairs: Pairs, ends: Ends, linked: seq<OutPoint>)
    requires Shaped(pairs, ends, linked) && pairs == map[]
    ensures linked == [] && ends == Ends(Sentinel, Sentinel)
  {
    assert Joined(pairs, ends, Stop(linked, 0), Stop(linked, 1));
  }

  lemma TodoStep(todo: seq<OutPoint>, i: nat)
    requires i < |todo| && Distinct(todo)
    ensures todo[..i + 1] == todo[..i] + [todo[i]] && todo[i] !in todo[..i]
    ensures todo[i..][0] == todo[i] && Without(todo[i..], 0) == todo[i + 1..]
    ensures Stop(todo[i..], 2) == Stop(todo, i + 2)
  {
  }

  lemma {:induction false} DistinctSize(linked: seq<OutPoint>)
    requires Distinct(linked)
    ensures |set o | o in linked| == |linked|
  {
    if linked != [] {
      var rest, last := linked[..|linked| - 1], linked[|linked| - 1];
      DistinctSize(rest);
      assert (set o | o in linked) == (set o | o in rest) + {last};
    }
  }

  // The dirty entries of the map are as many as the links.
  lemma DirtyCount(pairs: Pairs, ends: Ends, linked: seq<OutPoint>, dirty: set<OutPoint>)
    requires Shaped(pairs, ends, linked) && DirtyIfFresh(pairs)
    requires dirty == set o | o in pairs && pairs[o].entry.isDirty
    ensures |dirty| == |linked|
  {
    DistinctSize(linked);
    assert dirty == set o | o in linked;
  }
}
