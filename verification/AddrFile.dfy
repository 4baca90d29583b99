/**
Saving the address manager and loading it again.  The file lists the entries of the two
tables and, for each bucket of the new table, which of its entries are in it; everything
else is rebuilt.
*/
module AddrFile {
  import opened Options
  import opened AddrState
  import opened AddrTables
  import opened AddrCheck

  type AsmapVersion(==, !new)

  // What is written of an entry.
  datatype Saved = Saved(service: Service, services: bv64, time: int, source: NetAddr, lastSuccess: int, attempts: nat)

  datatype File = File(untested: seq<Saved>, tried: seq<Saved>, buckets: seq<seq<int>>, asmap: AsmapVersion)

  function SavedOf(i: Info): Saved {
    Saved(i.service, i.stats.services, i.stats.time, i.stats.source, i.stats.lastSuccess, i.stats.attempts)
  }

  // The times of attempts are not kept.
  function LoadedStats(x: Saved): Stats {
    Stats(x.services, x.time, x.source, 0, 0, x.lastSuccess, x.attempts)
  }

  // ----- Saving -----

  ghost predicate Once(s: seq<nat>) {
    forall i, j | 0 <= i < j < |s| :: s[i] != s[j]
  }

  lemma OnceMore(s: seq<nat>, x: nat)
    requires Once(s) && x !in s
    ensures Once(s + [x])
  {
  }

  // The ids in the order in which the map is walked, each once.
  ghost predicate Walk(infos: Infos, order: seq<nat>) {
    Once(order) && forall id :: id in order <==> id in infos
  }

  // The entries with references, or those that are tried.
  function Chosen(infos: Infos, order: seq<nat>, tried: bool): (ids: seq<nat>)
    requires forall i | 0 <= i < |order| :: order[i] in infos
    ensures forall i | 0 <= i < |ids| :: ids[i] in infos
  {
    if order == [] then []
    else
      var n := |order| - 1;
      var i := infos[order[n]];
      Chosen(infos, order[..n], tried) + if (if tried then i.inTried else i.refCount != 0) then [order[n]] else []
  }

  function Entries(infos: Infos, ids: seq<nat>): (r: seq<Saved>)
    requires forall i | 0 <= i < |ids| :: ids[i] in infos
    ensures |r| == |ids|
  {
    seq(|ids|, i requires 0 <= i < |ids| => SavedOf(infos[ids[i]]))
  }

  // Where an id is in a list; past its end if it is not there.
  function Index(ids: seq<nat>, id: nat): (k: nat)
    ensures k <= |ids| && (k < |ids| <==> id in ids) && (k < |ids| ==> ids[k] == id)
  {
    if ids == [] then 0 else if ids[0] == id then 0 else 1 + Index(ids[1..], id)
  }

  // The filled ones of the first n cells of a bucket.
  function Bucket(untested: Table, ids: seq<nat>, b: nat, n: nat): (r: seq<int>) {
    if n == 0 then []
    else
      Bucket(untested, ids, b, n - 1) +
      if b * 64 + n - 1 in untested then [Index(ids, untested[b * 64 + n - 1])] else []
  }

  function Save(s: State, order: seq<nat>, asmap: AsmapVersion): File
    requires forall i | 0 <= i < |order| :: order[i] in s.infos
  {
    var news := Chosen(s.infos, order, false);
    File(Entries(s.infos, news), Entries(s.infos, Chosen(s.infos, order, true)),
         seq(1024, b requires 0 <= b < 1024 => Bucket(s.untested, news, b, 64)), asmap)
  }

  lemma {:induction false} ChosenFrom(infos: Infos, order: seq<nat>, tried: bool)
    requires forall i | 0 <= i < |order| :: order[i] in infos
    ensures forall id :: id in Chosen(infos, order, tried) <==>
      id in order && if tried then infos[id].inTried else infos[id].refCount != 0
  {
    if order != [] {
      var n := |order| - 1;
      ChosenFrom(infos, order[..n], tried);
      assert order == order[..n] + [order[n]];
    }
  }

  lemma {:induction false} ChosenOnce(infos: Infos, order: seq<nat>, tried: bool)
    requires (forall i | 0 <= i < |order| :: order[i] in infos) && Once(order)
    ensures Once(Chosen(infos, order, tried))
  {
    if order != [] {
      var n := |order| - 1;
      ChosenOnce(infos, order[..n], tried);
      ChosenFrom(infos, order[..n], tried);
      assert forall i | 0 <= i < n :: order[..n][i] == order[i] != order[n];
      OnceMore(Chosen(infos, order[..n], tried), order[n]);
    }
  }

  // ----- Loading -----

  function LoadNew(env: Env, xs: seq<Saved>): State {
    if xs == [] then Empty()
    else
      var x := xs[|xs| - 1];
      Create(env, LoadNew(env, xs[..|xs| - 1]), x.service, LoadedStats(x))
  }

  // An invalid entry, or one whose slot is taken, is lost.
  function LoadOneTried(env: Env, s: State, x: Saved): State {
    var slot := TriedSlot(env, x.service);
    if x.service !in env.valid || slot in s.tried then s
    else
      var c := CountOf(s.tally.on, env.Network(x.service));
      s.(idCount := s.idCount + 1,
         infos := s.infos[s.idCount := Info(x.service, LoadedStats(x), 0, true, |s.random|)],
         ids := s.ids[x.service := s.idCount],
         random := s.random + [s.idCount],
         tried := s.tried[slot := s.idCount],
         tally := Tally(Count(s.tally.all.untested, s.tally.all.tried + 1),
                        s.tally.on[env.Network(x.service) := Count(c.untested, c.tried + 1)]))
  }

  function LoadTried(env: Env, s: State, xs: seq<Saved>): State {
    if xs == [] then s else LoadOneTried(env, LoadTried(env, s, xs[..|xs| - 1]), xs[|xs| - 1])
  }

  datatype Reference = Reference(bucket: nat, index: nat)

  // The references of a bucket to entries that exist.
  function BucketReferences(bucket: nat, indexes: seq<int>, count: nat): (r: seq<Reference>) {
    if indexes == [] then []
    else
      var x := indexes[|indexes| - 1];
      BucketReferences(bucket, indexes[..|indexes| - 1], count) + if 0 <= x < count then [Reference(bucket, x)] else []
  }

  function References(buckets: seq<seq<int>>, count: nat): (r: seq<Reference>) {
    if buckets == [] then []
    else
      var b := |buckets| - 1;
      References(buckets[..b], count) + BucketReferences(b, buckets[b], count)
  }

  // Gives an entry its place in the bucket, if buckets are as they were and it is free, or its
  // place for its own source.
  function Restored(env: Env, s: State, r: Reference, restore: bool): State {
    if r.index !in s.infos then s else
    var i := s.infos[r.index];
    if i.service !in env.valid || i.refCount >= NEW_BUCKETS_PER_ADDRESS then s else
    var slot := r.bucket * 64 + env.NewPosition(i.service, r.bucket);
    if restore && slot !in s.untested then Link(s, r.index, slot)
    else if HomeSlot(env, i) !in s.untested then Link(s, r.index, HomeSlot(env, i))
    else s
  }

  function RestoredAll(env: Env, s: State, rs: seq<Reference>, restore: bool): State {
    if rs == [] then s else Restored(env, RestoredAll(env, s, rs[..|rs| - 1], restore), rs[|rs| - 1], restore)
  }

  // Entries that no bucket refers to are deleted. The list is in order all the time.
  ghost function Pruned(env: Env, s: State, order: seq<nat>): State {
    if order == [] then s
    else
      var r := Pruned(env, s, order[..|order| - 1]);
      var id := order[|order| - 1];
      if id in r.infos && !r.infos[id].inTried && r.infos[id].refCount == 0 && RandomSane(r.infos, r.random)
      then Delete(env, r, id) else r
  }

  // Fails if the check finds the result inconsistent.
  ghost function Load(env: Env, file: File, asmap: AsmapVersion, order: seq<nat>): Option<State> {
    var s := LoadTried(env, LoadNew(env, file.untested), file.tried);
    var restore := |file.buckets| == 1024 && file.asmap == asmap;
    var r := Pruned(env, RestoredAll(env, s, References(file.buckets, |file.untested|), restore), order);
    if CheckOk(env, r) then Some(r) else None
  }
}
