/**
 * Compact blocks (BIP 152): a block is announced as some transactions in full and short ids
 * for the rest; the receiver looks for the rest among the transactions it knows and asks for
 * what is missing.
 */
module CompactBlocks {
  import opened Options

  type Wtxid(==, !new)
  type Content(==, !new)

  datatype Tx = Tx(wtxid: Wtxid, content: Content, isNull: bool)

  // The index counts the positions skipped since the previous prefilled transaction.
  datatype Prefilled = Prefilled(index: nat, tx: Tx)

  datatype Announcement = Announcement(headerIsNull: bool, shortIds: seq<nat>, prefilled: seq<Prefilled>)

  datatype ReadStatus = Ok | Invalid | Failed

  type Hasher = Wtxid -> nat

  function ShortId(siphash: Hasher, tx: Tx): nat {
    siphash(tx.wtxid) % 0x1_0000_0000_0000
  }

  function TxCount(a: Announcement): nat {
    |a.shortIds| + |a.prefilled|
  }

  // ----- Where the prefilled transactions go -----

  function Position(prefilled: seq<Prefilled>, k: nat): nat
    requires k < |prefilled|
  {
    if k == 0 then prefilled[0].index else Position(prefilled, k - 1) + prefilled[k].index + 1
  }

  predicate InPlace(a: Announcement, k: nat)
    requires k < |a.prefilled|
  {
    && !a.prefilled[k].tx.isNull
    && Position(a.prefilled, k) <= 0xffff
    && Position(a.prefilled, k) <= |a.shortIds| + k
  }

  predicate WellPlaced(a: Announcement) {
    forall k | 0 <= k < |a.prefilled| :: InPlace(a, k)
  }

  lemma {:induction false} PositionsAscend(prefilled: seq<Prefilled>, j: nat, k: nat)
    requires j < k < |prefilled|
    ensures Position(prefilled, j) < Position(prefilled, k)
  {
    if j < k - 1 {
      PositionsAscend(prefilled, j, k - 1);
    }
  }

  // The block with the first k prefilled transactions in it.
  function Laid(a: Announcement, k: nat): (s: seq<Option<Tx>>)
    requires k <= |a.prefilled| && forall j | 0 <= j < k :: InPlace(a, j)
    ensures |s| == TxCount(a)
  {
    if k == 0 then seq(TxCount(a), _ => None)
    else
      assert InPlace(a, k - 1);
      Laid(a, k - 1)[Position(a.prefilled, k - 1) := Some(a.prefilled[k - 1].tx)]
  }

  // The positions below n that hold nothing, in order.
  function Free(s: seq<Option<Tx>>, n: nat): (f: seq<nat>)
    requires n <= |s|
  {
    if n == 0 then [] else Free(s, n - 1) + if s[n - 1].None? then [n - 1] else []
  }

  lemma {:induction false} FreeIs(s: seq<Option<Tx>>, n: nat)
    requires n <= |s|
    ensures forall i | 0 <= i < |Free(s, n)| :: Free(s, n)[i] < n && s[Free(s, n)[i]].None?
    ensures forall i, j | 0 <= i < j < |Free(s, n)| :: Free(s, n)[i] < Free(s, n)[j]
    ensures forall p | 0 <= p < n && s[p].None? :: p in Free(s, n)
  {
    if n > 0 {
      FreeIs(s, n - 1);
      var f := Free(s, n - 1);
      if s[n - 1].None? {
        assert Free(s, n)[|f|] == n - 1;
      }
    }
  }

  lemma {:induction false} FreeGrows(s: seq<Option<Tx>>, m: nat, n: nat)
    requires m <= n <= |s|
    ensures Free(s, m) <= Free(s, n)
  {
    if m < n {
      FreeGrows(s, m, n - 1);
    }
  }

  // Filling one free position leaves one fewer.
  lemma {:induction false} FreeFilled(s: seq<Option<Tx>>, p: nat, tx: Tx, n: nat)
    requires p < |s| && s[p].None? && n <= |s|
    ensures |Free(s[p := Some(tx)], n)| == |Free(s, n)| - if p < n then 1 else 0
  {
    if n > 0 {
      FreeFilled(s, p, tx, n - 1);
    }
  }

  lemma {:induction false} AllFree(s: seq<Option<Tx>>, n: nat)
    requires n <= |s| && forall i | 0 <= i < n :: s[i].None?
    ensures |Free(s, n)| == n
  {
    if n > 0 {
      AllFree(s, n - 1);
    }
  }

  // Positions beyond the last one used are empty, so that exactly as many positions stay free
  // as there are short ids.
  lemma {:induction false} LaidIs(a: Announcement, k: nat)
    requires k <= |a.prefilled| && forall j | 0 <= j < k :: InPlace(a, j)
    ensures forall p | 0 <= p < TxCount(a) :: Laid(a, k)[p].Some? ==> k > 0 && p <= Position(a.prefilled, k - 1)
    ensures forall j | 0 <= j < k :: InPlace(a, j) && Laid(a, k)[Position(a.prefilled, j)] == Some(a.prefilled[j].tx)
    ensures |Free(Laid(a, k), TxCount(a))| == TxCount(a) - k
  {
    if k == 0 {
      AllFree(Laid(a, 0), TxCount(a));
    } else {
      var at := Position(a.prefilled, k - 1);
      LaidIs(a, k - 1);
      assert InPlace(a, k - 1);
      if k > 1 {
        PositionsAscend(a.prefilled, k - 2, k - 1);
      }
      assert Laid(a, k - 1)[at].None?;
      FreeFilled(Laid(a, k - 1), at, a.prefilled[k - 1].tx, TxCount(a));
      forall j | 0 <= j < k - 1
        ensures Position(a.prefilled, j) < at
      {
        PositionsAscend(a.prefilled, j, k - 1);
      }
    }
  }

  // ----- Which position each short id stands for -----

  function Ids(shortIds: seq<nat>, free: seq<nat>, k: nat): (m: map<nat, nat>)
    requires k <= |shortIds| <= |free|
  {
    if k == 0 then map[] else Ids(shortIds, free, k - 1)[shortIds[k - 1] := free[k - 1]]
  }

  // No two of the first k are equal.
  ghost predicate Distinct<T>(s: seq<T>, k: nat)
    requires k <= |s|
  {
    forall i, j | 0 <= i < j < k :: s[i] != s[j]
  }

  lemma {:induction false} IdsKeys(shortIds: seq<nat>, free: seq<nat>, k: nat)
    requires k <= |shortIds| <= |free|
    ensures forall i | 0 <= i < k :: shortIds[i] in Ids(shortIds, free, k)
    ensures forall x | x in Ids(shortIds, free, k) :: exists i | 0 <= i < k :: shortIds[i] == x
  {
    if k > 0 {
      IdsKeys(shortIds, free, k - 1);
    }
  }

  lemma IdsSize(shortIds: seq<nat>, free: seq<nat>, k: nat)
    requires 0 < k <= |shortIds| <= |free|
    ensures |Ids(shortIds, free, k)|
         == |Ids(shortIds, free, k - 1)| + if shortIds[k - 1] in Ids(shortIds, free, k - 1) then 0 else 1
  {
    var m, x := Ids(shortIds, free, k - 1), shortIds[k - 1];
    var r := m[x := free[k - 1]];
    if x in m {
      assert r.Keys == m.Keys;
    } else {
      assert r.Keys == m.Keys + {x};
    }
  }

  // The map has as many entries as there are ids exactly when no two are equal.
  lemma {:induction false} IdsCount(shortIds: seq<nat>, free: seq<nat>, k: nat)
    requires k <= |shortIds| <= |free|
    ensures |Ids(shortIds, free, k)| <= k
    ensures |Ids(shortIds, free, k)| == k <==> Distinct(shortIds, k)
  {
    if k > 0 {
      IdsCount(shortIds, free, k - 1);
      IdsSize(shortIds, free, k);
      IdsKeys(shortIds, free, k - 1);
    }
  }

  // It then sends the i-th id to the i-th free position.
  lemma {:induction false} IdsPair(shortIds: seq<nat>, free: seq<nat>, k: nat)
    requires k <= |shortIds| <= |free| && Distinct(shortIds, k)
    ensures forall i | 0 <= i < k :: shortIds[i] in Ids(shortIds, free, k) && Ids(shortIds, free, k)[shortIds[i]] == free[i]
  {
    if k > 0 {
      IdsPair(shortIds, free, k - 1);
    }
  }

  // ----- Looking for transactions -----

  // The transactions in their positions, which positions were ever matched, and how many are
  // filled beyond the prefilled ones.
  datatype Finding = Finding(txs: seq<Option<Tx>>, have: seq<bool>, count: int)

  // A transaction with the short id of a position: taken if it is the first; otherwise the
  // position is given up, except that a lenient search accepts the same transaction again.
  function Offer(f: Finding, at: nat, tx: Tx, lenient: bool): Finding
    requires at < |f.txs| == |f.have|
  {
    if !f.have[at] then Finding(f.txs[at := Some(tx)], f.have[at := true], f.count + 1)
    else if f.txs[at].Some? && (!lenient || f.txs[at].value.wtxid != tx.wtxid) then
      Finding(f.txs[at := None], f.have, f.count - 1)
    else f
  }

  predicate Within(ids: map<nat, nat>, n: nat) {
    forall x | x in ids :: ids[x] < n
  }

  function Next(f: Finding, ids: map<nat, nat>, siphash: Hasher, tx: Tx, lenient: bool): (r: Finding)
    requires |f.txs| == |f.have| && Within(ids, |f.txs|)
    ensures |r.txs| == |r.have| == |f.txs|
  {
    var id := ShortId(siphash, tx);
    if id in ids then Offer(f, ids[id], tx, lenient) else f
  }

  // Stops as soon as nothing is missing.
  function Search(f: Finding, ids: map<nat, nat>, siphash: Hasher, txs: seq<Tx>, lenient: bool): (r: Finding)
    requires |f.txs| == |f.have| && Within(ids, |f.txs|)
    ensures |r.txs| == |r.have| == |f.txs|
    decreases |txs|
  {
    if txs == [] then f
    else
      var next := Next(f, ids, siphash, txs[0], lenient);
      if next.count == |ids| then next else Search(next, ids, siphash, txs[1..], lenient)
  }

  function Found(laid: seq<Option<Tx>>, txs: seq<Option<Tx>>, n: nat): nat
    requires n <= |laid| == |txs|
  {
    if n == 0 then 0
    else Found(laid, txs, n - 1) + if laid[n - 1].None? && txs[n - 1].Some? then 1 else 0
  }

  lemma {:induction false} FoundChange(laid: seq<Option<Tx>>, txs: seq<Option<Tx>>, p: nat, x: Option<Tx>, n: nat)
    requires p < |laid| == |txs| && n <= |laid| && laid[p].None?
    ensures Found(laid, txs[p := x], n)
         == Found(laid, txs, n) + if p < n then (if x.Some? then 1 else 0) - (if txs[p].Some? then 1 else 0) else 0
  {
    if n > 0 {
      FoundChange(laid, txs, p, x, n - 1);
    }
  }

  lemma {:induction false} FoundAll(laid: seq<Option<Tx>>, txs: seq<Option<Tx>>, n: nat)
    requires n <= |laid| == |txs|
    ensures Found(laid, txs, n) <= |Free(laid, n)|
    ensures Found(laid, txs, n) == |Free(laid, n)| ==> forall p | 0 <= p < n && laid[p].None? :: txs[p].Some?
  {
    if n > 0 {
      FoundAll(laid, txs, n - 1);
    }
  }

  // What the search keeps: prefilled transactions stay; a position holds only a transaction
  // that was offered and has its short id; the count is the number of positions filled.
  ghost predicate Sound(laid: seq<Option<Tx>>, ids: map<nat, nat>, siphash: Hasher, offered: seq<Tx>, f: Finding) {
    && |f.txs| == |f.have| == |laid|
    && (forall p | 0 <= p < |laid| && laid[p].Some? :: f.txs[p] == laid[p] && !f.have[p])
    && (forall p | 0 <= p < |laid| && laid[p].None? && !f.have[p] :: f.txs[p].None?)
    && (forall p | 0 <= p < |laid| && laid[p].None? && f.txs[p].Some? :: Fits(ids, siphash, offered, f.txs[p].value, p))
    && f.count == Found(laid, f.txs, |laid|)
  }

  ghost predicate Fits(ids: map<nat, nat>, siphash: Hasher, offered: seq<Tx>, tx: Tx, p: nat) {
    var id := ShortId(siphash, tx);
    tx in offered && id in ids && ids[id] == p
  }

  ghost predicate IntoFree(laid: seq<Option<Tx>>, ids: map<nat, nat>) {
    && Within(ids, |laid|) && (forall x | x in ids :: laid[ids[x]].None?)
    && (forall x, y | x in ids && y in ids && ids[x] == ids[y] :: x == y)
  }

  lemma NextSound(laid: seq<Option<Tx>>, ids: map<nat, nat>, siphash: Hasher, offered: seq<Tx>, f: Finding, tx: Tx,
                  lenient: bool)
    requires Sound(laid, ids, siphash, offered, f) && IntoFree(laid, ids)
    ensures Sound(laid, ids, siphash, offered + [tx], Next(f, ids, siphash, tx, lenient))
  {
    hide ShortId, Found;
    var id := ShortId(siphash, tx);
    var r := Next(f, ids, siphash, tx, lenient);
    assert tx in offered + [tx];
    assert forall t | t in offered :: t in offered + [tx];
    if id in ids {
      FoundChange(laid, f.txs, ids[id], r.txs[ids[id]], |laid|);
      assert r.txs == f.txs[ids[id] := r.txs[ids[id]]];
    }
  }

  lemma {:induction false} SearchSound(laid: seq<Option<Tx>>, ids: map<nat, nat>, siphash: Hasher, offered: seq<Tx>,
                                       f: Finding, txs: seq<Tx>, lenient: bool)
    requires Sound(laid, ids, siphash, offered, f) && IntoFree(laid, ids)
    ensures Sound(laid, ids, siphash, offered + txs, Search(f, ids, siphash, txs, lenient))
    decreases |txs|
  {
    hide Next;
    if txs == [] {
      assert offered + txs == offered;
    } else {
      var next := Next(f, ids, siphash, txs[0], lenient);
      NextSound(laid, ids, siphash, offered, f, txs[0], lenient);
      assert offered + [txs[0]] + txs[1..] == offered + txs;
      if next.count == |ids| {
        SoundWiden(laid, ids, siphash, offered + [txs[0]], txs[1..], next);
      } else {
        SearchSound(laid, ids, siphash, offered + [txs[0]], next, txs[1..], lenient);
      }
    }
  }

  lemma SoundWiden(laid: seq<Option<Tx>>, ids: map<nat, nat>, siphash: Hasher, offered: seq<Tx>, more: seq<Tx>, f: Finding)
    requires Sound(laid, ids, siphash, offered, f)
    ensures Sound(laid, ids, siphash, offered + more, f)
  {
    hide ShortId, Found;
    assert forall t | t in offered :: t in offered + more;
  }

  // Among the given transactions no two different ones have the same short id of the block.
  ghost predicate Clear(ids: map<nat, nat>, siphash: Hasher, txs: seq<Tx>) {
    forall t, u | t in txs && u in txs && ShortId(siphash, t) in ids && ShortId(siphash, t) == ShortId(siphash, u) :: t == u
  }

  ghost predicate Kept(f: Finding)
    requires |f.txs| == |f.have|
  {
    forall p | 0 <= p < |f.txs| && f.have[p] :: f.txs[p].Some?
  }

  // Each of the transactions that the block announces has its position filled.
  ghost predicate Settled(ids: map<nat, nat>, siphash: Hasher, txs: seq<Tx>, f: Finding)
    requires Within(ids, |f.txs|)
  {
    forall t | t in txs && ShortId(siphash, t) in ids :: f.txs[ids[ShortId(siphash, t)]].Some?
  }

  lemma NextFinds(laid: seq<Option<Tx>>, ids: map<nat, nat>, siphash: Hasher, offered: seq<Tx>, f: Finding, tx: Tx,
                  lenient: bool)
    requires Sound(laid, ids, siphash, offered, f) && IntoFree(laid, ids)
    requires Kept(f) && Settled(ids, siphash, offered, f) && Clear(ids, siphash, offered + [tx])
    requires lenient || tx !in offered
    ensures Kept(Next(f, ids, siphash, tx, lenient))
    ensures Settled(ids, siphash, offered + [tx], Next(f, ids, siphash, tx, lenient))
  {
    hide ShortId, Found;
    var id := ShortId(siphash, tx);
    if id in ids && f.have[ids[id]] {
      var u := f.txs[ids[id]].value;
      assert Fits(ids, siphash, offered, u, ids[id]);
      assert u in offered + [tx] && tx in offered + [tx];
      assert u == tx;
    }
  }

  lemma FullSettles(laid: seq<Option<Tx>>, ids: map<nat, nat>, siphash: Hasher, offered: seq<Tx>, txs: seq<Tx>, f: Finding)
    requires Sound(laid, ids, siphash, offered, f) && IntoFree(laid, ids)
    requires f.count == |ids| == |Free(laid, |laid|)|
    ensures Settled(ids, siphash, txs, f)
  {
    hide ShortId, Found, Free;
    FoundAll(laid, f.txs, |laid|);
  }

  lemma {:induction false} SearchFinds(laid: seq<Option<Tx>>, ids: map<nat, nat>, siphash: Hasher, offered: seq<Tx>,
                                       f: Finding, txs: seq<Tx>, lenient: bool)
    requires Sound(laid, ids, siphash, offered, f) && IntoFree(laid, ids) && |ids| == |Free(laid, |laid|)|
    requires Kept(f) && Settled(ids, siphash, offered, f) && Clear(ids, siphash, offered + txs)
    requires lenient || Distinct(offered + txs, |offered + txs|)
    ensures Kept(Search(f, ids, siphash, txs, lenient))
    ensures Settled(ids, siphash, offered + txs, Search(f, ids, siphash, txs, lenient))
    decreases |txs|
  {
    hide Next, ShortId, Found, Free, Settled, Clear, Kept, Fits;
    if txs == [] {
      assert offered + txs == offered;
    } else {
      var tx := txs[0];
      var next := Next(f, ids, siphash, tx, lenient);
      NextSound(laid, ids, siphash, offered, f, tx, lenient);
      assert offered + [tx] + txs[1..] == offered + txs;
      ClearFewer(ids, siphash, offered + [tx], txs[1..]);
      if !lenient {
        assert (offered + txs)[|offered|] == tx;
        assert forall i | 0 <= i < |offered| :: offered[i] == (offered + txs)[i] != tx;
      }
      NextFinds(laid, ids, siphash, offered, f, tx, lenient);
      if next.count == |ids| {
        FullSettles(laid, ids, siphash, offered + [tx], offered + txs, next);
      } else {
        SearchFinds(laid, ids, siphash, offered + [tx], next, txs[1..], lenient);
      }
    }
  }

  lemma ClearFewer(ids: map<nat, nat>, siphash: Hasher, txs: seq<Tx>, more: seq<Tx>)
    requires Clear(ids, siphash, txs + more)
    ensures Clear(ids, siphash, txs)
  {
    hide ShortId;
    assert forall t | t in txs :: t in txs + more;
  }

  // ----- The whole search -----

  function AllLaid(a: Announcement): (s: seq<Option<Tx>>)
    requires WellPlaced(a)
    ensures |s| == TxCount(a)
  {
    Laid(a, |a.prefilled|)
  }

  function FreeOf(a: Announcement): (f: seq<nat>)
    requires WellPlaced(a)
    ensures |f| == |a.shortIds|
  {
    LaidIs(a, |a.prefilled|);
    Free(AllLaid(a), TxCount(a))
  }

  function AllIds(a: Announcement): (m: map<nat, nat>)
    requires WellPlaced(a)
    ensures Within(m, TxCount(a))
  {
    IdsWithin(a, |a.shortIds|);
    Ids(a.shortIds, FreeOf(a), |a.shortIds|)
  }

  lemma {:induction false} IdsWithin(a: Announcement, k: nat)
    requires WellPlaced(a) && k <= |a.shortIds|
    ensures Within(Ids(a.shortIds, FreeOf(a), k), TxCount(a))
  {
    if k > 0 {
      IdsWithin(a, k - 1);
      FreeIs(AllLaid(a), TxCount(a));
    }
  }

  function FindAll(a: Announcement, siphash: Hasher, pool: seq<Tx>, extra: seq<Tx>, count: int): Finding
    requires WellPlaced(a)
  {
    var start := Finding(AllLaid(a), seq(TxCount(a), _ => false), count);
    Search(Search(start, AllIds(a), siphash, pool, false), AllIds(a), siphash, extra, true)
  }

  lemma IdsInto(shortIds: seq<nat>, free: seq<nat>, laid: seq<Option<Tx>>)
    requires |shortIds| == |free| && Distinct(shortIds, |shortIds|) && Distinct(free, |free|)
    requires forall i | 0 <= i < |free| :: free[i] < |laid| && laid[free[i]].None?
    ensures IntoFree(laid, Ids(shortIds, free, |shortIds|))
  {
    hide Ids;
    var m := Ids(shortIds, free, |shortIds|);
    IdsPair(shortIds, free, |shortIds|);
    IdsKeys(shortIds, free, |shortIds|);
    forall x, y | x in m && y in m && m[x] == m[y]
      ensures x == y
    {
      var i :| 0 <= i < |shortIds| && shortIds[i] == x;
      var j :| 0 <= j < |shortIds| && shortIds[j] == y;
      assert free[i] == free[j];
      assert i == j;
    }
    forall x | x in m
      ensures m[x] < |laid| && laid[m[x]].None?
    {
      var i :| 0 <= i < |shortIds| && shortIds[i] == x;
    }
  }

  lemma FreeOfIs(a: Announcement)
    requires WellPlaced(a)
    ensures Distinct(FreeOf(a), |FreeOf(a)|)
    ensures forall i | 0 <= i < |FreeOf(a)| :: FreeOf(a)[i] < TxCount(a) && AllLaid(a)[FreeOf(a)[i]].None?
    ensures forall p | 0 <= p < TxCount(a) && AllLaid(a)[p].None? :: p in FreeOf(a)
  {
    hide Free, Laid, Position;
    FreeIs(AllLaid(a), TxCount(a));
  }

  // Short ids are mapped one-to-one onto exactly the positions that are not prefilled.
  lemma IdsOntoFree(a: Announcement)
    requires WellPlaced(a) && Distinct(a.shortIds, |a.shortIds|)
    ensures IntoFree(AllLaid(a), AllIds(a)) && |AllIds(a)| == |a.shortIds| == |FreeOf(a)|
    ensures forall i | 0 <= i < |a.shortIds| ::
      a.shortIds[i] in AllIds(a) && AllIds(a)[a.shortIds[i]] == FreeOf(a)[i]
    ensures forall x | x in AllIds(a) :: exists i | 0 <= i < |a.shortIds| :: a.shortIds[i] == x
    ensures forall p | 0 <= p < TxCount(a) && AllLaid(a)[p].None? :: p in FreeOf(a)
  {
    hide Ids, FreeOf, AllLaid;
    var free := FreeOf(a);
    FreeOfIs(a);
    IdsCount(a.shortIds, free, |a.shortIds|);
    IdsPair(a.shortIds, free, |a.shortIds|);
    IdsKeys(a.shortIds, free, |a.shortIds|);
    IdsInto(a.shortIds, free, AllLaid(a));
  }

  lemma FoundNothing(laid: seq<Option<Tx>>, n: nat)
    requires n <= |laid|
    ensures Found(laid, laid, n) == 0
  {
    if n > 0 {
      FoundNothing(laid, n - 1);
    }
  }

  // A search from scratch keeps the prefilled transactions, fills positions only with
  // transactions it was offered and that have their short id, and counts them exactly.
  lemma FindAllSound(a: Announcement, siphash: Hasher, pool: seq<Tx>, extra: seq<Tx>)
    requires WellPlaced(a) && Distinct(a.shortIds, |a.shortIds|)
    ensures Sound(AllLaid(a), AllIds(a), siphash, pool + extra, FindAll(a, siphash, pool, extra, 0))
  {
    hide AllLaid, AllIds, Search, Found, Fits;
    var laid, ids := AllLaid(a), AllIds(a);
    IdsOntoFree(a);
    FoundNothing(laid, |laid|);
    var start := Finding(laid, seq(TxCount(a), _ => false), 0);
    assert Sound(laid, ids, siphash, [], start);
    SearchSound(laid, ids, siphash, [], start, pool, false);
    assert [] + pool == pool;
    SearchSound(laid, ids, siphash, pool, Search(start, ids, siphash, pool, false), extra, true);
  }

  // If no two different transactions share a short id of the block, every transaction of the
  // block that is in the pool or among the extra ones is found.
  lemma FindAllFinds(a: Announcement, siphash: Hasher, pool: seq<Tx>, extra: seq<Tx>)
    requires WellPlaced(a) && Distinct(a.shortIds, |a.shortIds|)
    requires Distinct(pool, |pool|) && Clear(AllIds(a), siphash, pool + extra)
    ensures |FindAll(a, siphash, pool, extra, 0).txs| == TxCount(a)
    ensures Settled(AllIds(a), siphash, pool + extra, FindAll(a, siphash, pool, extra, 0))
  {
    hide AllLaid, AllIds, Search, Found, Fits, ShortId, FreeOf, Clear;
    var laid, ids := AllLaid(a), AllIds(a);
    IdsOntoFree(a);
    FoundNothing(laid, |laid|);
    var start := Finding(laid, seq(TxCount(a), _ => false), 0);
    assert Sound(laid, ids, siphash, [], start);
    ClearFewer(ids, siphash, pool, extra);
    assert [] + pool == pool;
    assert |Free(laid, |laid|)| == |ids| by {
      FreeOfLength(a);
    }
    SearchSound(laid, ids, siphash, [], start, pool, false);
    SearchFinds(laid, ids, siphash, [], start, pool, false);
    SearchFinds(laid, ids, siphash, pool, Search(start, ids, siphash, pool, false), extra, true);
  }

  lemma FreeOfLength(a: Announcement)
    requires WellPlaced(a)
    ensures |Free(AllLaid(a), |AllLaid(a)|)| == |a.shortIds|
  {
    hide Free, AllLaid;
    assert FreeOf(a) == Free(AllLaid(a), TxCount(a));
  }

  // ----- Rebuilding the block -----

  // The announcement is one of this block.
  ghost predicate Describes(a: Announcement, block: seq<Tx>, siphash: Hasher) {
    && WellPlaced(a) && |block| == TxCount(a)
    && (forall p | 0 <= p < |block| && AllLaid(a)[p].Some? :: AllLaid(a)[p].value == block[p])
    && (forall i | 0 <= i < |a.shortIds| :: FreeOf(a)[i] < |block| && a.shortIds[i] == ShortId(siphash, block[FreeOf(a)[i]]))
  }

  // A known transaction with the short id of one of the block's is that one.
  ghost predicate Unmistaken(a: Announcement, block: seq<Tx>, siphash: Hasher, known: seq<Tx>)
    requires Describes(a, block, siphash)
  {
    forall t, p | t in known && p in FreeOf(a) && p < |block| && ShortId(siphash, t) == ShortId(siphash, block[p]) ::
      t == block[p]
  }

  function Request(txs: seq<Option<Tx>>): (positions: seq<nat>) {
    Free(txs, |txs|)
  }

  // The available transactions, and the missing ones in order in between.
  function Filled(txs: seq<Option<Tx>>, missing: seq<Tx>): (block: seq<Tx>)
    requires |Request(txs)| <= |missing|
    ensures |block| == |txs|
  {
    seq(|txs|, i requires 0 <= i < |txs| => FilledAt(txs, missing, i))
  }

  function FilledAt(txs: seq<Option<Tx>>, missing: seq<Tx>, i: nat): Tx
    requires i < |txs| && |Request(txs)| <= |missing|
  {
    if txs[i].Some? then txs[i].value
    else
      FreeGrows(txs, i + 1, |txs|);
      missing[|Free(txs, i)|]
  }

  function Answer(block: seq<Tx>, positions: seq<nat>): (missing: seq<Tx>)
    requires forall i | 0 <= i < |positions| :: positions[i] < |block|
  {
    seq(|positions|, i requires 0 <= i < |positions| => block[positions[i]])
  }

  // Correct transactions filled up with the answer to the request give the block.
  lemma FilledIsBlock(txs: seq<Option<Tx>>, block: seq<Tx>)
    requires |txs| == |block| && forall p | 0 <= p < |txs| && txs[p].Some? :: txs[p].value == block[p]
    ensures forall i | 0 <= i < |Request(txs)| :: Request(txs)[i] < |block|
    ensures Filled(txs, Answer(block, Request(txs))) == block
  {
    hide Free;
    FreeIs(txs, |txs|);
    var missing := Answer(block, Request(txs));
    forall i | 0 <= i < |txs|
      ensures FilledAt(txs, missing, i) == block[i]
    {
      if txs[i].None? {
        FreeNext(txs, i);
        FreeGrows(txs, i + 1, |txs|);
        assert Request(txs)[|Free(txs, i)|] == Free(txs, i + 1)[|Free(txs, i)|] == i;
      }
    }
  }

  lemma FreeNext(txs: seq<Option<Tx>>, i: nat)
    requires i < |txs| && txs[i].None?
    ensures Free(txs, i + 1) == Free(txs, i) + [i]
  {
  }

  // Without mistaken short ids everything found is in its place, and the block is rebuilt
  // from it and the transactions asked for.
  lemma Rebuilds(a: Announcement, block: seq<Tx>, siphash: Hasher, pool: seq<Tx>, extra: seq<Tx>)
    requires Describes(a, block, siphash) && Distinct(a.shortIds, |a.shortIds|)
    requires Unmistaken(a, block, siphash, pool + extra)
    ensures var txs := FindAll(a, siphash, pool, extra, 0).txs;
      && |txs| == |block| && (forall p | 0 <= p < |txs| && txs[p].Some? :: txs[p].value == block[p])
      && (forall i | 0 <= i < |Request(txs)| :: Request(txs)[i] < |block|)
      && Filled(txs, Answer(block, Request(txs))) == block
  {
    hide AllLaid, AllIds, FreeOf, Found, FindAll, ShortId, Free;
    var f := FindAll(a, siphash, pool, extra, 0);
    FindAllSound(a, siphash, pool, extra);
    IdsOntoFree(a);
    forall p | 0 <= p < |f.txs| && f.txs[p].Some?
      ensures f.txs[p].value == block[p]
    {
      if AllLaid(a)[p].None? {
        var t := f.txs[p].value;
        assert Fits(AllIds(a), siphash, pool + extra, t, p);
        var i :| 0 <= i < |a.shortIds| && a.shortIds[i] == ShortId(siphash, t);
        assert FreeOf(a)[i] == p;
        assert p in FreeOf(a);
      }
    }
    FilledIsBlock(f.txs, block);
  }

  // If moreover the pool has no duplicates, exactly the transactions that are neither
  // prefilled nor known are asked for.
  lemma AsksForUnknown(a: Announcement, block: seq<Tx>, siphash: Hasher, pool: seq<Tx>, extra: seq<Tx>, p: nat)
    requires Describes(a, block, siphash) && Distinct(a.shortIds, |a.shortIds|)
    requires Unmistaken(a, block, siphash, pool + extra) && Distinct(pool, |pool|)
    requires p < |block|
    ensures var txs := FindAll(a, siphash, pool, extra, 0).txs;
      && |txs| == |block|
      && (txs[p].None? <==> AllLaid(a)[p].None? && block[p] !in pool + extra)
  {
    hide AllLaid, AllIds, FreeOf, Found, FindAll, ShortId, Free;
    var f := FindAll(a, siphash, pool, extra, 0);
    IdsOntoFree(a);
    KnownIsClear(a, block, siphash, pool + extra);
    FindAllSound(a, siphash, pool, extra);
    FindAllFinds(a, siphash, pool, extra);
    Rebuilds(a, block, siphash, pool, extra);
    if AllLaid(a)[p].None? {
      if f.txs[p].Some? {
        assert Fits(AllIds(a), siphash, pool + extra, f.txs[p].value, p);
      } else {
        assert exists i | 0 <= i < |FreeOf(a)| :: FreeOf(a)[i] == p && a.shortIds[i] == ShortId(siphash, block[p]);
      }
    }
  }

  lemma KnownIsClear(a: Announcement, block: seq<Tx>, siphash: Hasher, known: seq<Tx>)
    requires Describes(a, block, siphash) && Distinct(a.shortIds, |a.shortIds|)
    requires Unmistaken(a, block, siphash, known)
    ensures Clear(AllIds(a), siphash, known)
  {
    hide AllLaid, AllIds, FreeOf, ShortId;
    IdsOntoFree(a);
    forall t, u | t in known && u in known && ShortId(siphash, t) in AllIds(a) && ShortId(siphash, t) == ShortId(siphash, u)
      ensures t == u
    {
      var i :| 0 <= i < |a.shortIds| && a.shortIds[i] == ShortId(siphash, t);
      assert FreeOf(a)[i] in FreeOf(a);
      assert t == block[FreeOf(a)[i]] && u == block[FreeOf(a)[i]];
    }
  }

  // What a node announces itself: the coinbase in full and the short ids of the rest.
  function Announce(block: seq<Tx>, siphash: Hasher): Announcement
    requires block != []
  {
    Announcement(false, seq(|block| - 1, i requires 0 <= i < |block| - 1 => ShortId(siphash, block[i + 1])),
                 [Prefilled(0, block[0])])
  }

  lemma AnnounceDescribes(block: seq<Tx>, siphash: Hasher)
    requires block != [] && !block[0].isNull
    ensures Describes(Announce(block, siphash), block, siphash)
  {
    hide ShortId;
    var a := Announce(block, siphash);
    assert Position(a.prefilled, 0) == 0;
    assert InPlace(a, 0);
    assert Laid(a, 1) == Laid(a, 0)[0 := Some(block[0])];
    FreeAfterFirst(AllLaid(a), |block|);
  }

  lemma {:induction false} FreeAfterFirst(s: seq<Option<Tx>>, n: nat)
    requires 0 < n <= |s| && s[0].Some? && forall i | 1 <= i < n :: s[i].None?
    ensures Free(s, n) == seq(n - 1, i => i + 1)
  {
    if n > 1 {
      FreeAfterFirst(s, n - 1);
    } else {
      assert Free(s, 0) == [];
    }
  }

  // ----- Indexes on the wire -----

  // Each index as the distance from the one after its predecessor; fails if they do not ascend.
  function Differences(shift: nat, indexes: seq<nat>): (r: Option<seq<nat>>)
    decreases |indexes|
  {
    if indexes == [] then Some([])
    else if indexes[0] < shift then None
    else match Differences(indexes[0] + 1, indexes[1..])
      case None => None
      case Some(rest) => Some([indexes[0] - shift] + rest)
  }

  // Fails on an index that is not a 16-bit number.
  function Restored(shift: nat, differences: seq<nat>): (r: Option<seq<nat>>)
    decreases |differences|
  {
    if differences == [] then Some([])
    else
      var index := shift + differences[0];
      if index > 0xffff then None
      else match Restored(index + 1, differences[1..])
        case None => None
        case Some(rest) => Some([index] + rest)
  }

  lemma {:induction false} DifferencesRestore(shift: nat, indexes: seq<nat>)
    requires forall i | 0 <= i < |indexes| :: shift <= indexes[i] <= 0xffff
    requires forall i, j | 0 <= i < j < |indexes| :: indexes[i] < indexes[j]
    ensures Differences(shift, indexes).Some?
    ensures Restored(shift, Differences(shift, indexes).value) == Some(indexes)
    decreases |indexes|
  {
    if indexes != [] {
      DifferencesRestore(indexes[0] + 1, indexes[1..]);
      var rest := Differences(indexes[0] + 1, indexes[1..]).value;
      assert ([indexes[0] - shift] + rest)[1..] == rest;
      assert indexes == [indexes[0]] + indexes[1..];
    }
  }

  // The request for what is missing arrives as it was sent.
  lemma RequestArrives(txs: seq<Option<Tx>>)
    requires |txs| <= 0xffff
    ensures Differences(0, Request(txs)).Some?
    ensures Restored(0, Differences(0, Request(txs)).value) == Some(Request(txs))
  {
    hide Free;
    FreeIs(txs, |txs|);
    DifferencesRestore(0, Request(txs));
  }
}
