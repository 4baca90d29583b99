/**
What the address manager records about an address it has used: successes, failures,
connections, and what these make of the entry later.
*/
module AddrNews {
  import opened AddrState
  import opened AddrTables
  import opened AddrMan

  // ----- Successes -----

  // A success of a known entry is recorded.  The entry moves to the tried table exactly if it
  // is not there and its slot is free; it becomes a pending collision exactly if it is not
  // there, its slot is taken and fewer than ten collisions are pending.
  lemma GoodExactly(env: Env, s: State, r: (State, bool), a: Service, time: int)
    requires Inv(env, s) && r == Good(env, s, a, true, time)
    ensures r.0.lastGood == time
    ensures a !in s.ids ==> !r.1 && r.0 == s.(lastGood := time)
    ensures a in s.ids ==>
      var id, slot := s.ids[a], TriedSlot(env, a);
      && id in s.infos && id in r.0.infos
      && r.0.infos[id].stats == s.infos[id].stats.(lastSuccess := time, lastTry := time, attempts := 0)
      && (r.1 <==> !s.infos[id].inTried && slot !in s.tried)
      && r.0.tried == (if r.1 then s.tried[slot := id] else s.tried)
      && (r.0.infos[id].inTried <==> s.infos[id].inTried || r.1)
      && (forall x :: x in r.0.collisions <==>
            || x in s.collisions
            || (x == id && !s.infos[id].inTried && slot in s.tried && |s.collisions| < 10))
  {
    hide Orderly, MakeTried, CollisionsSane, WithStats;
    FreshSane(env, s, a);
    if a in s.ids {
      var id := s.ids[a];
      var stats := Succeeded(s.infos[id].stats, time);
      var s1 := WithStats(s, id, stats).(lastGood := time);
      NewsKeeps(env, s, s1, a, stats, time);
      RestatedAt(s, s1, id);
      if r.1 {
        MakeTriedKeeps(env, s1, r.0, id);
      }
    }
  }

  // ----- Failures -----

  // Failed attempts at an address, one after another.
  function Failing(s: State, a: Service, times: seq<int>): (r: State)
    requires a in s.ids && s.ids[a] in s.infos
    ensures r.ids == s.ids && r.infos.Keys == s.infos.Keys && r.lastGood == s.lastGood
  {
    if times == [] then s else
    Attempt(Failing(s, a, times[..|times| - 1]), a, true, times[|times| - 1])
  }

  // However often an address fails, it counts once until something else has worked: after a
  // success later than its last counted failure, any number of failures counts as one.
  lemma {:induction false} FailuresCountOnce(s: State, a: Service, times: seq<int>)
    requires a in s.ids && s.ids[a] in s.infos && times != []
    requires forall i | 0 <= i < |times| :: times[i] >= s.lastGood
    requires s.infos[s.ids[a]].stats.lastCount < s.lastGood
    ensures var i := Failing(s, a, times).infos[s.ids[a]].stats;
            && i.attempts == s.infos[s.ids[a]].stats.attempts + 1
            && i.lastCount == times[0] && i.lastTry == times[|times| - 1]
  {
    var before := times[..|times| - 1];
    if before == [] {
      assert Failing(s, a, before) == s;
    } else {
      FailuresCountOnce(s, a, before);
    }
  }

  // Without a success since the last counted failure, none counts.
  lemma {:induction false} FailuresIgnored(s: State, a: Service, times: seq<int>)
    requires a in s.ids && s.ids[a] in s.infos && s.infos[s.ids[a]].stats.lastCount >= s.lastGood
    ensures var i := Failing(s, a, times).infos[s.ids[a]].stats;
            i.attempts == s.infos[s.ids[a]].stats.attempts && i.lastCount == s.infos[s.ids[a]].stats.lastCount
  {
    if times != [] {
      FailuresIgnored(s, a, times[..|times| - 1]);
    }
  }

  // ----- Connections -----

  // The recorded time of a connected address is at most twenty minutes behind, and moves
  // only to the present, only if it was further behind.
  lemma ConnectedExactly(s: State, a: Service, time: int)
    requires a in s.ids && s.ids[a] in s.infos
    ensures var r, id := Connected(s, a, time), s.ids[a];
            && r == s.(infos := r.infos) && r.infos.Keys == s.infos.Keys
            && (forall x | x in s.infos && x != id :: r.infos[x] == s.infos[x])
            && time - r.infos[id].stats.time <= 1200
            && (r.infos[id] == s.infos[id] ||
                (r.infos[id].stats == s.infos[id].stats.(time := time) && time > s.infos[id].stats.time + 1200))
  {
    assert Connected(s, a, time).infos.Keys == s.infos.Keys;
  }

  // ----- Bad entries -----

  // An entry is bad exactly if it was not tried within the last minute, and it claims a time
  // more than ten minutes ahead, or was last seen more than thirty days ago, or failed three
  // times without any success, or failed ten times with no success for a week.
  lemma TerribleExactly(i: Stats, now: int)
    ensures i.IsTerrible(now) <==>
      && now - i.lastTry > 60
      && (|| i.time > now + 600
          || now - i.time > 2592000
          || (i.lastSuccess == 0 && i.attempts >= 3)
          || (now - i.lastSuccess > 604800 && i.attempts >= 10))
  {
  }

  // A success at a time other than zero keeps an entry that is seen regularly for a week,
  // however often it fails, and after that for as long as fewer than ten failures count.
  lemma SuccessLasts(stats: Stats, success: int, later: Stats, now: int)
    requires later.lastSuccess == Succeeded(stats, success).lastSuccess != 0
    requires now - 2592000 <= later.time <= now + 600
    ensures now - success <= 604800 || later.attempts < 10 ==> !later.IsTerrible(now)
    ensures now - success > 604800 && later.attempts >= 10 && now - later.lastTry > 60 ==> later.IsTerrible(now)
  {
    TerribleExactly(later, now);
  }
}
