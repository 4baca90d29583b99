/**
What the search for the transactions of a compact block ends with, position by position:
also when short ids collide.
*/
module CompactFinds {
  import opened Bits
  import opened Options
  import opened CompactBlocks

  // A short id is the low 48 bits of the hash.
  lemma ShortIdMasks(siphash: Hasher, tx: Tx)
    ensures ShortId(siphash, tx) == And(siphash(tx.wtxid), 0xffff_ffff_ffff)
  {
    Pow2Values();
    Pow2Add(16, 32);
    AndMask(siphash(tx.wtxid), 48);
  }

  // The transactions among those offered that have a short id, in order.
  function Hits(siphash: Hasher, x: nat, txs: seq<Tx>): seq<Tx> {
    if txs == [] then []
    else
      var n := |txs| - 1;
      Hits(siphash, x, txs[..n]) + if ShortId(siphash, txs[n]) == x then [txs[n]] else []
  }

  // What a position ends up with, given the hits in the pool and then among the extra
  // transactions: the first one, unless the pool had a second, or an extra one differs.
  function Settlement(pool: seq<Tx>, extra: seq<Tx>): Option<Tx> {
    if |pool| <= 1 && pool + extra != [] && forall e | e in extra :: e.wtxid == (pool + extra)[0].wtxid
    then Some((pool + extra)[0])
    else None
  }

  // Every position reached through a short id holds its settlement.
  ghost predicate Tracks(ids: map<nat, nat>, siphash: Hasher, pool: seq<Tx>, extra: seq<Tx>, f: Finding) {
    && |f.txs| == |f.have| && Within(ids, |f.txs|)
    && forall x | x in ids ::
         && (f.have[ids[x]] <==> Hits(siphash, x, pool) + Hits(siphash, x, extra) != [])
         && f.txs[ids[x]] == Settlement(Hits(siphash, x, pool), Hits(siphash, x, extra))
  }

  ghost predicate Separate(ids: map<nat, nat>) {
    forall x, y | x in ids && y in ids && ids[x] == ids[y] :: x == y
  }

  lemma HitsSnoc(siphash: Hasher, x: nat, txs: seq<Tx>, tx: Tx)
    ensures Hits(siphash, x, txs + [tx]) ==
            if ShortId(siphash, tx) == x then Hits(siphash, x, txs) + [tx] else Hits(siphash, x, txs)
    ensures Hits(siphash, x, []) == []
  {
    hide ShortId;
    assert (txs + [tx])[..|txs|] == txs;
  }

  lemma SettlePool(pool: seq<Tx>, tx: Tx)
    ensures Settlement(pool + [tx], []) == if pool == [] then Some(tx) else None
  {
  }

  lemma SettleExtra(pool: seq<Tx>, extra: seq<Tx>, tx: Tx)
    ensures pool + extra == [] ==> Settlement(pool, extra + [tx]) == Some(tx)
    ensures pool + extra != [] && Settlement(pool, extra).None? ==> Settlement(pool, extra + [tx]).None?
    ensures pool + extra != [] && Settlement(pool, extra).Some? ==>
      Settlement(pool, extra + [tx]) ==
      if Settlement(pool, extra).value.wtxid == tx.wtxid then Settlement(pool, extra) else None
  {
    var old', new' := extra, extra + [tx];
    assert forall e :: e in new' <==> e in old' || e == tx;
    if pool + extra != [] {
      assert (pool + new')[0] == (pool + old')[0];
    }
  }

  lemma PoolTracks(ids: map<nat, nat>, siphash: Hasher, pool: seq<Tx>, f: Finding, tx: Tx)
    requires Tracks(ids, siphash, pool, [], f) && Separate(ids)
    ensures Tracks(ids, siphash, pool + [tx], [], Next(f, ids, siphash, tx, false))
  {
    hide Hits, Settlement, ShortId;
    var r, id := Next(f, ids, siphash, tx, false), ShortId(siphash, tx);
    forall x | x in ids
      ensures r.have[ids[x]] <==> Hits(siphash, x, pool + [tx]) + Hits(siphash, x, []) != []
      ensures r.txs[ids[x]] == Settlement(Hits(siphash, x, pool + [tx]), Hits(siphash, x, []))
    {
      HitsSnoc(siphash, x, pool, tx);
      if x == id {
        SettlePool(Hits(siphash, x, pool), tx);
      }
    }
  }

  lemma ExtraTracks(ids: map<nat, nat>, siphash: Hasher, pool: seq<Tx>, extra: seq<Tx>, f: Finding, tx: Tx)
    requires Tracks(ids, siphash, pool, extra, f) && Separate(ids)
    ensures Tracks(ids, siphash, pool, extra + [tx], Next(f, ids, siphash, tx, true))
  {
    hide Hits, Settlement, ShortId;
    var r, id := Next(f, ids, siphash, tx, true), ShortId(siphash, tx);
    forall x | x in ids
      ensures r.have[ids[x]] <==> Hits(siphash, x, pool) + Hits(siphash, x, extra + [tx]) != []
      ensures r.txs[ids[x]] == Settlement(Hits(siphash, x, pool), Hits(siphash, x, extra + [tx]))
    {
      HitsSnoc(siphash, x, extra, tx);
      if x == id {
        SettleExtra(Hits(siphash, x, pool), Hits(siphash, x, extra), tx);
      }
    }
  }

  // ----- The two passes -----

  // A pass over the pool stops after n transactions, early only if nothing is missing.
  lemma {:induction false} PoolPass(ids: map<nat, nat>, siphash: Hasher, before: seq<Tx>, f: Finding, txs: seq<Tx>)
    returns (n: nat)
    requires |f.txs| == |f.have| && Within(ids, |f.txs|) && Tracks(ids, siphash, before, [], f) && Separate(ids)
    ensures n <= |txs| && Tracks(ids, siphash, before + txs[..n], [], Search(f, ids, siphash, txs, false))
    ensures n < |txs| ==> Search(f, ids, siphash, txs, false).count == |ids|
    decreases |txs|
  {
    hide Tracks, Next;
    if txs == [] {
      n := 0;
      assert before + txs[..0] == before;
    } else {
      PoolTracks(ids, siphash, before, f, txs[0]);
      var next := Next(f, ids, siphash, txs[0], false);
      if next.count == |ids| {
        n := 1;
        assert before + txs[..1] == before + [txs[0]];
      } else {
        n := PoolPass(ids, siphash, before + [txs[0]], next, txs[1..]);
        assert before + [txs[0]] + txs[1..][..n] == before + txs[..n + 1];
        n := n + 1;
      }
    }
  }

  lemma {:induction false} ExtraPass(ids: map<nat, nat>, siphash: Hasher, pool: seq<Tx>, before: seq<Tx>, f: Finding,
                                     txs: seq<Tx>) returns (n: nat)
    requires |f.txs| == |f.have| && Within(ids, |f.txs|) && Tracks(ids, siphash, pool, before, f) && Separate(ids)
    ensures n <= |txs| && Tracks(ids, siphash, pool, before + txs[..n], Search(f, ids, siphash, txs, true))
    ensures n < |txs| ==> Search(f, ids, siphash, txs, true).count == |ids|
    decreases |txs|
  {
    hide Tracks, Next;
    if txs == [] {
      n := 0;
      assert before + txs[..0] == before;
    } else {
      ExtraTracks(ids, siphash, pool, before, f, txs[0]);
      var next := Next(f, ids, siphash, txs[0], true);
      if next.count == |ids| {
        n := 1;
        assert before + txs[..1] == before + [txs[0]];
      } else {
        n := ExtraPass(ids, siphash, pool, before + [txs[0]], next, txs[1..]);
        assert before + [txs[0]] + txs[1..][..n] == before + txs[..n + 1];
        n := n + 1;
      }
    }
  }

  // The first m transactions of the pool and the first n of the extra ones are looked at; a
  // pass ends early only if nothing is missing then.  A position that is not prefilled ends
  // up with the first of these that has its short id, unless a second one of the pool has it
  // too, or an extra one with another hash: then, as when none has it, it is asked for.
  lemma FindExactly(a: Announcement, siphash: Hasher, pool: seq<Tx>, extra: seq<Tx>) returns (m: nat, n: nat)
    requires WellPlaced(a) && Distinct(a.shortIds, |a.shortIds|)
    ensures m <= |pool| && n <= |extra|
    ensures var f := FindAll(a, siphash, pool, extra, 0);
            && |FreeOf(a)| == |a.shortIds| && |f.txs| == TxCount(a)
            && (forall i | 0 <= i < |a.shortIds| ::
                  && FreeOf(a)[i] < TxCount(a)
                  && f.txs[FreeOf(a)[i]] ==
                     Settlement(Hits(siphash, a.shortIds[i], pool[..m]), Hits(siphash, a.shortIds[i], extra[..n])))
            && (n < |extra| ==> forall p | 0 <= p < |f.txs| :: f.txs[p].Some?)
    ensures m < |pool| ==> forall i | 0 <= i < |a.shortIds| :: |Hits(siphash, a.shortIds[i], pool[..m])| == 1
  {
    hide AllLaid, AllIds, FreeOf, Search, Hits, Settlement, Found, ShortId, Free, Sound;
    var laid, ids := AllLaid(a), AllIds(a);
    IdsOntoFree(a);
    FreeOfLength(a);
    var start := Finding(laid, seq(TxCount(a), _ => false), 0);
    StartTracks(ids, siphash, laid, start);
    m := PoolPass(ids, siphash, [], start, pool);
    assert [] + pool[..m] == pool[..m];
    var f := Search(start, ids, siphash, pool, false);
    n := ExtraPass(ids, siphash, pool[..m], [], f, extra);
    assert [] + extra[..n] == extra[..n];
    StartSound(laid, ids, siphash, start);
    SearchSound(laid, ids, siphash, [], start, pool, false);
    if m < |pool| {
      AllFound(laid, ids, siphash, [] + pool, f);
      forall i | 0 <= i < |a.shortIds| ensures |Hits(siphash, a.shortIds[i], pool[..m])| == 1 {
        OneHit(ids, siphash, pool[..m], f, a.shortIds[i]);
      }
    }
    if n < |extra| {
      SearchSound(laid, ids, siphash, [] + pool, f, extra, true);
      AllFound(laid, ids, siphash, [] + pool + extra, Search(f, ids, siphash, extra, true));
    }
  }

  lemma StartSound(laid: seq<Option<Tx>>, ids: map<nat, nat>, siphash: Hasher, f: Finding)
    requires f.txs == laid && |f.have| == |laid| && f.count == 0 && forall p | 0 <= p < |laid| :: !f.have[p]
    ensures Sound(laid, ids, siphash, [], f)
  {
    FoundNothing(laid, |laid|);
  }

  lemma AllFound(laid: seq<Option<Tx>>, ids: map<nat, nat>, siphash: Hasher, offered: seq<Tx>, f: Finding)
    requires Sound(laid, ids, siphash, offered, f) && f.count == |ids| == |Free(laid, |laid|)|
    ensures forall p | 0 <= p < |f.txs| :: f.txs[p].Some?
  {
    hide Found, Free;
    FoundAll(laid, f.txs, |laid|);
  }

  lemma OneHit(ids: map<nat, nat>, siphash: Hasher, pool: seq<Tx>, f: Finding, x: nat)
    requires Tracks(ids, siphash, pool, [], f) && x in ids && f.txs[ids[x]].Some?
    ensures |Hits(siphash, x, pool)| == 1
  {
    hide ShortId;
    assert Hits(siphash, x, []) == [];
  }

  lemma StartTracks(ids: map<nat, nat>, siphash: Hasher, laid: seq<Option<Tx>>, f: Finding)
    requires IntoFree(laid, ids) && f.txs == laid && |f.have| == |laid| && forall p | 0 <= p < |laid| :: !f.have[p]
    ensures Tracks(ids, siphash, [], [], f)
  {
  }

  // ----- Indexes on the wire -----

  // Where the next index may start, after the first i.
  function From(shift: nat, indexes: seq<nat>, i: nat): nat
    requires i < |indexes|
  {
    if i == 0 then shift else indexes[i - 1] + 1
  }

  ghost predicate Ascends(shift: nat, indexes: seq<nat>) {
    forall i | 0 <= i < |indexes| :: From(shift, indexes, i) <= indexes[i]
  }

  lemma AscendsTail(shift: nat, indexes: seq<nat>)
    requires indexes != []
    ensures Ascends(shift, indexes) <==> shift <= indexes[0] && Ascends(indexes[0] + 1, indexes[1..])
    ensures forall i | 1 <= i < |indexes| :: From(shift, indexes, i) == From(indexes[0] + 1, indexes[1..], i - 1)
  {
    var rest := indexes[1..];
    if Ascends(shift, indexes) {
      assert From(shift, indexes, 0) <= indexes[0];
      forall i | 0 <= i < |rest| ensures From(indexes[0] + 1, rest, i) <= rest[i] {
        assert From(shift, indexes, i + 1) <= indexes[i + 1];
      }
    }
    if shift <= indexes[0] && Ascends(indexes[0] + 1, rest) {
      forall i | 0 <= i < |indexes| ensures From(shift, indexes, i) <= indexes[i] {
        if i > 0 {
          assert From(indexes[0] + 1, rest, i - 1) <= rest[i - 1];
        }
      }
    }
  }

  // Each index is sent as its distance from the one after its predecessor, and they can be
  // sent exactly if they ascend from the first one allowed.
  lemma {:induction false} DifferencesExactly(shift: nat, indexes: seq<nat>)
    ensures Differences(shift, indexes).Some? <==> Ascends(shift, indexes)
    ensures var d := Differences(shift, indexes);
            d.Some? ==> |d.value| == |indexes| && forall i | 0 <= i < |indexes| ::
              d.value[i] == indexes[i] - From(shift, indexes, i)
    decreases |indexes|
  {
    if indexes != [] {
      DifferencesExactly(indexes[0] + 1, indexes[1..]);
      AscendsTail(shift, indexes);
    }
  }
}
