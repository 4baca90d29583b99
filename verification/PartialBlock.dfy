/** The receiver's side of compact block relay, as the object that is filled step by step. */
module PartialBlock {
  import opened CompactBlocks
  import opened Options

  const MAX_TRANSACTIONS := 64000000 / 40

  // What the checks before anything is stored accept.
  predicate Plausible(a: Announcement) {
    !a.headerIsNull && 0 < TxCount(a) <= MAX_TRANSACTIONS
  }

  class PartiallyDownloadedBlock {
    var headerIsNull: bool
    var available: seq<Option<Tx>>
    var prefilledCount: nat
    var mempoolCount: int

    constructor ()
      ensures headerIsNull && available == [] && mempoolCount == 0
    {
      headerIsNull, available, prefilledCount, mempoolCount := true, [], 0, 0;
    }

    // Puts the prefilled transactions in their places.
    method Place(a: Announcement) returns (ok: bool)
      requires |available| == TxCount(a) && available == Laid(a, 0)
      modifies this
      ensures mempoolCount == old(mempoolCount) && headerIsNull == old(headerIsNull)
      ensures ok <==> WellPlaced(a)
      ensures ok ==> available == AllLaid(a) && prefilledCount == |a.prefilled|
    {
      var last := -1;
      var i := 0;
      while i < |a.prefilled|
        invariant 0 <= i <= |a.prefilled| && mempoolCount == old(mempoolCount) && headerIsNull == old(headerIsNull)
        invariant forall k | 0 <= k < i :: InPlace(a, k)
        invariant last == if i == 0 then -1 else Position(a.prefilled, i - 1)
        invariant available == Laid(a, i)
      {
        if a.prefilled[i].tx.isNull {
          assert !InPlace(a, i);
          return false;
        }
        last := last + a.prefilled[i].index + 1;
        if last > 0xffff || last > |a.shortIds| + i {
          assert !InPlace(a, i);
          return false;
        }
        assert InPlace(a, i);
        available := available[last := Some(a.prefilled[i].tx)];
        i := i + 1;
      }
      prefilledCount := |a.prefilled|;
      ok := true;
    }

    // Gives the short ids the free positions in order. Positions are 16-bit numbers here.
    method MapIds(a: Announcement, crowdedAt: nat) returns (ok: bool, ids: map<nat, nat>)
      requires WellPlaced(a) && available == AllLaid(a) && TxCount(a) <= 0xffff
      ensures ok <==> |a.shortIds| <= crowdedAt
      ensures ok ==> ids == AllIds(a)
    {
      hide Laid, Position, Free, AllLaid;
      ids := map[];
      var i, offset := 0, 0;
      FreeStart(available);
      while i < |a.shortIds|
        invariant 0 <= i <= |a.shortIds| && 0 <= offset && i + offset <= |available|
        invariant |Free(available, i + offset)| == i <= crowdedAt
        invariant ids == Ids(a.shortIds, FreeOf(a), i)
      {
        while available[i + offset].Some?
          invariant 0 <= offset && i + offset < |available|
          invariant |Free(available, i + offset)| == i
          decreases |available| - offset
        {
          FreeSkips(available, i + offset, |a.shortIds|);
          offset := offset + 1;
        }
        FreeNext(available, i + offset);
        FreeGrows(available, i + offset + 1, |available|);
        assert FreeOf(a)[i] == i + offset <= 0xffff;
        ids := ids[a.shortIds[i] := i + offset];
        if i == crowdedAt {
          return false, ids;
        }
        i := i + 1;
      }
      ok := true;
    }

    // Offers a list of known transactions to the positions with their short ids. In the list
    // of extra transactions one that is there already is no second match.
    method Look(ids: map<nat, nat>, siphash: Hasher, txs: seq<Tx>, lenient: bool, had: seq<bool>) returns (have: seq<bool>)
      requires Within(ids, |available|) && |had| == |available|
      modifies this
      ensures headerIsNull == old(headerIsNull) && prefilledCount == old(prefilledCount)
      ensures Finding(available, have, mempoolCount)
           == Search(Finding(old(available), had, old(mempoolCount)), ids, siphash, txs, lenient)
    {
      hide Search, ShortId, Within;
      have := had;
      var i := 0;
      ghost var goal := Search(Finding(available, have, mempoolCount), ids, siphash, txs, lenient);
      assert txs[0..] == txs;
      while i < |txs|
        invariant 0 <= i <= |txs| && |available| == |have| && Within(ids, |available|)
        invariant headerIsNull == old(headerIsNull) && prefilledCount == old(prefilledCount)
        invariant goal == Search(Finding(available, have, mempoolCount), ids, siphash, txs[i..], lenient)
      {
        var tx := txs[i];
        ghost var now := Finding(available, have, mempoolCount);
        SearchStep(now, ids, siphash, txs, i, lenient);
        var id := ShortId(siphash, tx);
        if id in ids {
          var at := ids[id];
          AtWithin(ids, |available|, id);
          if !have[at] {
            available, have, mempoolCount := available[at := Some(tx)], have[at := true], mempoolCount + 1;
          } else if available[at].Some? && (!lenient || available[at].value.wtxid != tx.wtxid) {
            available, mempoolCount := available[at := None], mempoolCount - 1;
          }
        }
        assert Finding(available, have, mempoolCount) == Next(now, ids, siphash, tx, lenient);
        if mempoolCount == |ids| {
          return;
        }
        i := i + 1;
      }
      SearchEnds(Finding(available, have, mempoolCount), ids, siphash, txs[i..], lenient);
    }

    // A fresh object takes the announcement, or rejects it; a second announcement is invalid.
    // `crowdedAt` is the number of the short id, if any, whose hash bucket is too full.
    method InitData(a: Announcement, siphash: Hasher, pool: seq<Tx>, extra: seq<Tx>, crowdedAt: nat) returns (r: ReadStatus)
      requires TxCount(a) <= 0xffff
      modifies this
      ensures !Plausible(a) || !old(headerIsNull) || old(available) != [] ==> r == Invalid && unchanged(this)
      ensures Plausible(a) && old(headerIsNull) && old(available) == [] ==>
        r == if !WellPlaced(a) then Invalid
             else if crowdedAt < |a.shortIds| || !Distinct(a.shortIds, |a.shortIds|) then Failed
             else Ok
      ensures r == Ok ==>
        && WellPlaced(a) && !headerIsNull && prefilledCount == |a.prefilled|
        && available == FindAll(a, siphash, pool, extra, old(mempoolCount)).txs
        && mempoolCount == FindAll(a, siphash, pool, extra, old(mempoolCount)).count
    {
      hide Laid, AllLaid, Search, Position, Ids, FreeOf;
      if a.headerIsNull || (a.shortIds == [] && a.prefilled == []) {
        return Invalid;
      }
      if |a.shortIds| + |a.prefilled| > MAX_TRANSACTIONS {
        return Invalid;
      }
      if !headerIsNull || available != [] {
        return Invalid;
      }
      headerIsNull := false;
      available := seq(TxCount(a), _ => None);
      NothingLaid(a);
      var placed := Place(a);
      if !placed {
        return Invalid;
      }
      var even, ids := MapIds(a, crowdedAt);
      if !even {
        return Failed;
      }
      IdsCount(a.shortIds, FreeOf(a), |a.shortIds|);
      if |ids| != |a.shortIds| {
        return Failed;
      }
      var have := Look(ids, siphash, pool, false, seq(|available|, _ => false));
      have := Look(ids, siphash, extra, true, have);
      r := Ok;
    }

    // With fewer transactions than are missing it fails half way, having given away some of
    // what it had; otherwise it is used up.
    method FillBlock(missing: seq<Tx>, mutated: seq<Tx> -> bool) returns (r: ReadStatus, block: seq<Tx>)
      modifies this
      ensures old(headerIsNull) ==> r == Invalid && unchanged(this)
      ensures !old(headerIsNull) && |missing| < |Request(old(available))| ==>
        && r == Invalid && !headerIsNull && |available| == |old(available)|
        && forall p | 0 <= p < |available| :: available[p] == None || available[p] == old(available)[p]
      ensures !old(headerIsNull) && |missing| >= |Request(old(available))| ==>
        && headerIsNull && available == [] && block == Filled(old(available), missing)
        && r == if |missing| > |Request(old(available))| then Invalid else if mutated(block) then Failed else Ok
    {
      hide Free;
      block := [];
      if headerIsNull {
        return Invalid, block;
      }
      ghost var had := available;
      var i, next := 0, 0;
      FreeStart(had);
      while i < |available|
        invariant 0 <= i <= |available| == |had| && !headerIsNull && |block| == i
        invariant next == |Free(had, i)| <= |missing|
        invariant forall p | 0 <= p < i :: available[p].None?
        invariant forall p | i <= p < |had| :: available[p] == had[p]
        invariant |missing| >= |Request(had)| ==> forall p | 0 <= p < i :: block[p] == FilledAt(had, missing, p)
      {
        FreeGrows(had, i + 1, |had|);
        FreeStep(had, i);
        if available[i].None? {
          if next >= |missing| {
            return Invalid, block;
          }
          block := block + [missing[next]];
          next := next + 1;
        } else {
          block := block + [available[i].value];
          available := available[i := None];
        }
        i := i + 1;
      }
      headerIsNull := true;
      available := [];
      if |missing| != next {
        return Invalid, block;
      }
      if mutated(block) {
        return Failed, block;
      }
      r := Ok;
    }
  }

  // A whole relay: the announcement of a block is taken, what is missing is asked for and
  // sent, and the block comes out, unless short ids coincide or crowd a bucket.
  method Relay(a: Announcement, block: seq<Tx>, siphash: Hasher, pool: seq<Tx>, extra: seq<Tx>, crowdedAt: nat,
               mutated: seq<Tx> -> bool)
    returns (r: ReadStatus, got: seq<Tx>)
    requires TxCount(a) <= 0xffff && Plausible(a)
    requires Describes(a, block, siphash) && Unmistaken(a, block, siphash, pool + extra)
    ensures r == if crowdedAt < |a.shortIds| || !Distinct(a.shortIds, |a.shortIds|) || mutated(block) then Failed else Ok
    ensures r == Ok ==> got == block
  {
    hide FindAll, AllLaid, FreeOf, Free, Filled, Answer, Unmistaken;
    var partial := new PartiallyDownloadedBlock();
    r := partial.InitData(a, siphash, pool, extra, crowdedAt);
    if r != Ok {
      return r, [];
    }
    Rebuilds(a, block, siphash, pool, extra);
    AnswerLength(block, Request(partial.available));
    r, got := partial.FillBlock(Answer(block, Request(partial.available)), mutated);
  }

  lemma AnswerLength(block: seq<Tx>, positions: seq<nat>)
    requires forall i | 0 <= i < |positions| :: positions[i] < |block|
    ensures |Answer(block, positions)| == |positions|
  {
  }

  lemma FreeStep(s: seq<Option<Tx>>, i: nat)
    requires i < |s|
    ensures |Free(s, i + 1)| == |Free(s, i)| + if s[i].None? then 1 else 0
  {
  }

  lemma NothingLaid(a: Announcement)
    ensures Laid(a, 0) == seq(TxCount(a), _ => None)
  {
  }

  lemma AtWithin(ids: map<nat, nat>, n: nat, id: nat)
    requires Within(ids, n) && id in ids
    ensures ids[id] < n
  {
  }

  lemma SearchStep(f: Finding, ids: map<nat, nat>, siphash: Hasher, txs: seq<Tx>, i: nat, lenient: bool)
    requires |f.txs| == |f.have| && Within(ids, |f.txs|) && i < |txs|
    ensures Search(f, ids, siphash, txs[i..], lenient)
         == var next := Next(f, ids, siphash, txs[i], lenient);
            if next.count == |ids| then next else Search(next, ids, siphash, txs[i + 1..], lenient)
  {
    hide Next;
    assert txs[i..][1..] == txs[i + 1..];
  }

  lemma SearchEnds(f: Finding, ids: map<nat, nat>, siphash: Hasher, txs: seq<Tx>, lenient: bool)
    requires |f.txs| == |f.have| && Within(ids, |f.txs|) && txs == []
    ensures Search(f, ids, siphash, txs, lenient) == f
  {
  }

  lemma FreeStart(s: seq<Option<Tx>>)
    ensures Free(s, 0) == []
  {
  }

  lemma FreeSkips(s: seq<Option<Tx>>, n: nat, total: nat)
    requires n < |s| && s[n].Some? && |Free(s, n)| < |Free(s, |s|)| == total
    ensures n + 1 < |s| && Free(s, n + 1) == Free(s, n)
  {
  }
}
