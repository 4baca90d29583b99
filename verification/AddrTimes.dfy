/**
When the recorded times let the manager's own check fail: exactly which calls, at which
clock readings, and that over every run of other calls it passes.
*/
module AddrTimes {
  import opened AddrState
  import opened AddrTables
  import opened AddrMan
  import opened AddrRuns
  import opened AddrCheck

  // ----- One call -----

  lemma RestatedTimes(s: State, r: State, id: nat)
    requires TimesSane(s.infos) && id in s.infos && Restated(s, r, id)
    ensures id in r.infos && (TimesSane(r.infos) <==> StatsFit(s.infos[id], r.infos[id].stats))
  {
    assert forall x :: x in r.infos <==> x in s.infos.Keys;
  }

  // An entry that moves to the tried table needs a success at a positive time.
  lemma MadeTimes(env: Env, s: State, r: State, id: nat)
    requires MadeTried(env, s, r, id) && s.infos[id].stats.lastTry >= 0 && s.infos[id].stats.lastSuccess >= 0
    requires forall x | x in s.infos && x != id :: StatsFit(s.infos[x], s.infos[x].stats)
    ensures TimesSane(r.infos) <==> s.infos[id].stats.lastSuccess > 0
  {
  }

  // A success at this time leaves acceptable times: the address is unknown, or the time is
  // positive, or it is zero and the entry stays in the new table as a collision.
  ghost predicate GoodTime(env: Env, s: State, a: Service, testBeforeEvict: bool, time: int)
    requires a in s.ids ==> s.ids[a] in s.infos
  {
    || a !in s.ids
    || time > 0
    || (time == 0 && testBeforeEvict && !s.infos[s.ids[a]].inTried && TriedSlot(env, a) in s.tried)
  }

  lemma GoodTimes(env: Env, s: State, r: (State, bool), a: Service, testBeforeEvict: bool, time: int)
    requires Inv(env, s) && TimesSane(s.infos) && r == Good(env, s, a, testBeforeEvict, time)
    ensures a in s.ids ==> s.ids[a] in s.infos
    ensures TimesSane(r.0.infos) <==> GoodTime(env, s, a, testBeforeEvict, time)
  {
    hide Orderly, MakeTried, CollisionsSane, WithStats;
    FreshSane(env, s, a);
    if a in s.ids {
      var id := s.ids[a];
      var stats := Succeeded(s.infos[id].stats, time);
      var s1 := WithStats(s, id, stats).(lastGood := time);
      NewsKeeps(env, s, s1, a, stats, time);
      RestatedTimes(s, s1, id);
      RestatedAt(s, s1, id);
      if !s1.infos[id].inTried && !(testBeforeEvict && TriedSlot(env, a) in s1.tried) {
        var r1 := MakeTried(env, s1, id);
        MakeTriedKeeps(env, s1, r1, id);
        MadeGood(env, s, s1, r1, id, stats);
      }
    }
  }

  lemma MadeGood(env: Env, s: State, s1: State, r: State, id: nat, stats: Stats)
    requires TimesSane(s.infos) && id in s.infos && !s.infos[id].inTried && Restated(s, s1, id) && id in s1.infos
    requires s1.infos[id].stats == stats && stats.lastTry == stats.lastSuccess && MadeTried(env, s1, r, id)
    ensures TimesSane(r.infos) <==> stats.lastSuccess > 0
  {
    assert forall x :: x in s1.infos <==> x in s.infos.Keys;
    if stats.lastSuccess >= 0 {
      MadeTimes(env, s1, r, id);
    } else {
      assert r.infos[id].stats == stats;
    }
  }

  // An attempt leaves acceptable times exactly if the address is unknown or its time is not
  // negative.
  lemma AttemptTimes(env: Env, s: State, r: State, a: Service, countFailure: bool, time: int)
    requires Inv(env, s) && TimesSane(s.infos) && (a in s.ids ==> s.ids[a] in s.infos)
    requires r == Attempt(s, a, countFailure, time)
    ensures TimesSane(r.infos) <==> a !in s.ids || time >= 0
  {
    hide Orderly, CollisionsSane, Referenced;
    if a in s.ids {
      var id := s.ids[a];
      NewsKeeps(env, s, r, a, r.infos[id].stats, s.lastGood);
      RestatedTimes(s, r, id);
    }
  }

  lemma OtherNewsTimes(env: Env, s: State, r: State, c: Command)
    requires Inv(env, s) && TimesSane(s.infos) && r == Next(env, s, c) && (c.Online? || c.Offers?)
    ensures TimesSane(r.infos)
  {
    hide Orderly, CollisionsSane, Referenced;
    var a := c.service;
    FreshSane(env, s, a);
    if a in s.ids {
      var id := s.ids[a];
      NewsKeeps(env, s, r, a, r.infos[id].stats, s.lastGood);
      RestatedTimes(s, r, id);
    }
  }

  // A collision is settled in favour of the new entry only four hours after a positive time.
  lemma ResolveOneTimes(env: Env, s: State, r: State, id: nat, now: int)
    requires Inv(env, s) && TimesSane(s.infos) && id in s.collisions && r == ResolveOne(env, s, id, now)
    ensures TimesSane(r.infos)
  {
    hide Orderly, Good;
    if id in s.infos && s.infos[id].service in env.valid {
      var slot := TriedSlot(env, s.infos[id].service);
      TriedHolds(env, s, slot);
      var there := s.infos[s.tried[slot]].stats;
      if Overdue(there, s.infos[id].stats, now) {
        assert now > 0;
        GoodTimes(env, s, Good(env, s, s.infos[id].service, false, now), s.infos[id].service, false, now);
      }
    }
  }

  lemma {:induction false} SweepTimes(env: Env, s: State, todo: set<nat>, clock: Clock)
    requires Inv(env, s) && TimesSane(s.infos) && todo <= s.collisions
    ensures TimesSane(Sweep(env, s, todo, clock).infos)
    decreases todo
  {
    hide Orderly, Referenced, CollisionsSane, ResolveOne, Resolved;
    if todo != {} {
      var id := Least(todo);
      var s1 := ResolveOne(env, s, id, clock.At(id));
      ResolveOneKeeps(env, s, s1, id, clock.At(id));
      ResolveOneTimes(env, s, s1, id, clock.At(id));
      SweepTimes(env, s1, todo - {id}, clock);
    }
  }

  // ----- Runs -----

  // The calls that leave acceptable times.
  ghost predicate Timely(env: Env, s: State, c: Command)
    requires Inv(env, s)
  {
    FreshId(env, s, c);
    match c
    case Worked(a, time) => GoodTime(env, s, a, true, time)
    case Tried(a, _, time) => a !in s.ids || time >= 0
    case _ => true
  }

  lemma FreshId(env: Env, s: State, c: Command)
    requires Inv(env, s)
    ensures c.Worked? && c.service in s.ids ==> s.ids[c.service] in s.infos
  {
    if c.Worked? {
      FreshSane(env, s, c.service);
    }
  }

  lemma NextTimes(env: Env, s: State, r: State, c: Command)
    requires Inv(env, s) && TimesSane(s.infos) && r == Next(env, s, c)
    ensures TimesSane(r.infos) <==> Timely(env, s, c)
  {
    hide Orderly, Referenced, CollisionsSane, AddSingle, Good, SwapRandom, Sweep, Attempt, Connected, SetServices;
    match c
    case Heard(a, source, penalty, now, later, lucky) =>
      AddKeeps(env, s, AddSingle(env, s, a, source, penalty, now, later, lucky), a, source, penalty, now, later, lucky);
      ExtendedTimes(s, r);
    case Worked(a, time) =>
      GoodTimes(env, s, Good(env, s, a, true, time), a, true, time);
    case Tried(a, countFailure, time) =>
      KnownId(env, s, a);
      AttemptTimes(env, s, r, a, countFailure, time);
    case Online(_, _) =>
      OtherNewsTimes(env, s, r, c);
    case Offers(_, _) =>
      OtherNewsTimes(env, s, r, c);
    case Resolve(clock) =>
      SweepTimes(env, s, s.collisions, clock);
    case Select(_) =>
    case Shuffle(p, q) =>
      ShuffleTimes(env, s, r, p, q);
  }

  lemma KnownId(env: Env, s: State, a: Service)
    requires Inv(env, s)
    ensures a in s.ids ==> s.ids[a] in s.infos
  {
    FreshSane(env, s, a);
  }

  lemma ShuffleTimes(env: Env, s: State, r: State, p: nat, q: nat)
    requires Inv(env, s) && TimesSane(s.infos) && r == Next(env, s, Shuffle(p, q))
    ensures TimesSane(r.infos)
  {
    hide SwapRandom, Orderly, Referenced, CollisionsSane;
    if p < |s.random| && q < |s.random| {
      SwapKeeps(env, s, r, p, q);
      assert forall x :: x in r.infos <==> x in s.infos.Keys;
    }
  }

  // After a call on a manager that passes its check, the check passes exactly if the call was
  // timely.
  lemma NextPasses(env: Env, s: State, c: Command)
    requires Inv(env, s) && CheckOk(env, s)
    ensures CheckOk(env, Next(env, s, c)) <==> Timely(env, s, c)
  {
    hide CheckOk, Next, Orderly, Timely;
    PassesIfTimes(env, s);
    NextKeeps(env, s, Next(env, s, c), c);
    NextTimes(env, s, Next(env, s, c), c);
    PassesIfTimes(env, Next(env, s, c));
  }

  // Recording a success keeps the check passing exactly if the address is unknown, the time
  // is positive, or it is zero and the entry stays in the new table because its tried slot is
  // taken.
  lemma GoodPasses(env: Env, s: State, a: Service, time: int)
    requires Inv(env, s) && CheckOk(env, s)
    ensures a in s.ids ==> s.ids[a] in s.infos
    ensures CheckOk(env, Good(env, s, a, true, time).0) <==>
      || a !in s.ids
      || time > 0
      || (time == 0 && !s.infos[s.ids[a]].inTried && TriedSlot(env, a) in s.tried)
  {
    hide CheckOk, Good, Orderly;
    KnownId(env, s, a);
    NextPasses(env, s, Worked(a, time));
  }

  // Recording an attempt keeps it passing exactly if the address is unknown or the time is
  // not negative.
  lemma AttemptPasses(env: Env, s: State, a: Service, countFailure: bool, time: int)
    requires Inv(env, s) && CheckOk(env, s)
    ensures a in s.ids ==> s.ids[a] in s.infos
    ensures CheckOk(env, Attempt(s, a, countFailure, time)) <==> a !in s.ids || time >= 0
  {
    hide CheckOk, Attempt, Orderly;
    KnownId(env, s, a);
    NextPasses(env, s, Tried(a, countFailure, time));
  }

  ghost predicate AllTimely(env: Env, cs: seq<Command>) {
    forall k | 0 <= k < |cs| :: Timely(env, Run(env, cs[..k]), cs[k])
  }

  // The check passes after the first k calls.
  ghost predicate PassesAt(env: Env, cs: seq<Command>, k: nat)
    requires k <= |cs|
  {
    CheckOk(env, Run(env, cs[..k]))
  }

  ghost predicate AllPass(env: Env, cs: seq<Command>) {
    forall k | 0 <= k <= |cs| :: PassesAt(env, cs, k)
  }

  lemma PassesBefore(env: Env, cs: seq<Command>, n: nat, k: nat)
    requires k <= n <= |cs|
    ensures PassesAt(env, cs[..n], k) == PassesAt(env, cs, k)
    ensures k == |cs| ==> PassesAt(env, cs, k) == CheckOk(env, Run(env, cs))
  {
    hide CheckOk, Run, Inv;
    assert cs[..n][..k] == cs[..k];
    assert cs[..|cs|] == cs;
  }

  lemma PassLast(env: Env, cs: seq<Command>)
    requires cs != []
    ensures AllPass(env, cs) <==> AllPass(env, cs[..|cs| - 1]) && CheckOk(env, Run(env, cs))
    ensures AllPass(env, cs) ==> CheckOk(env, Run(env, cs[..|cs| - 1]))
  {
    hide CheckOk, Run, PassesAt, Inv;
    var n := |cs| - 1;
    forall k | 0 <= k <= n
      ensures PassesAt(env, cs[..n], k) == PassesAt(env, cs, k)
    {
      PassesBefore(env, cs, n, k);
    }
    PassesBefore(env, cs, |cs|, |cs|);
    PassesBefore(env, cs[..n], n, n);
  }

  lemma TimelyLast(env: Env, cs: seq<Command>)
    requires cs != []
    ensures AllTimely(env, cs) <==>
      AllTimely(env, cs[..|cs| - 1]) && Timely(env, Run(env, cs[..|cs| - 1]), cs[|cs| - 1])
  {
    hide Timely, Run, Inv;
    var before := cs[..|cs| - 1];
    assert forall k | 0 <= k < |before| :: before[..k] == cs[..k] && before[k] == cs[k];
  }

  lemma RunLast(env: Env, cs: seq<Command>)
    requires cs != []
    ensures Run(env, cs) == Next(env, Run(env, cs[..|cs| - 1]), cs[|cs| - 1])
  {
    hide Next, Inv;
  }

  // The check passes all along a run exactly if every call of it was timely.
  lemma {:induction false} CheckNeverFails(env: Env, cs: seq<Command>)
    ensures AllPass(env, cs) <==> AllTimely(env, cs)
    ensures AllTimely(env, cs) ==> CheckOk(env, Run(env, cs))
  {
    hide CheckOk, Next, Inv, Timely, Run, AllPass, AllTimely;
    if cs == [] {
      EmptyPasses(env);
    } else {
      CheckNeverFails(env, cs[..|cs| - 1]);
      PassLast(env, cs);
      TimelyLast(env, cs);
      RunLast(env, cs);
      if CheckOk(env, Run(env, cs[..|cs| - 1])) {
        NextPasses(env, Run(env, cs[..|cs| - 1]), cs[|cs| - 1]);
      }
    }
  }

  lemma EmptyPasses(env: Env)
    ensures CheckOk(env, Run(env, [])) && AllPass(env, []) && AllTimely(env, [])
  {
    hide CheckOk;
    EmptyInv(env);
    PassesIfTimes(env, Empty());
  }

  // ----- A run that fails -----

  lemma HeardFirst(env: Env, a: Address, source: NetAddr, now: int)
    requires a.service in env.routable
    ensures Inv(env, Empty())
    ensures var s := Next(env, Empty(), Heard(a, source, 0, now, now, true));
      a.service in s.ids && s.ids[a.service] in s.infos && !s.infos[s.ids[a.service]].inTried && s.tried == map[]
  {
    hide Orderly, Referenced, CollisionsSane;
    EmptyInv(env);
    var s, stats := Empty(), FirstStats(a, source, 0);
    var s1 := Create(env, s, a.service, stats);
    CreateKeeps(env, s, s1, a.service, stats);
    var slot := NewSlot(env, a.service, source);
    assert ClearNew(env, s1, slot) == s1;
    assert Insert(env, s1, 0, source, now) == (Link(s1, 0, slot), true);
  }

  lemma WorkedFirst(env: Env, s: State, a: Service)
    requires Inv(env, s) && a in s.ids && s.ids[a] in s.infos && !s.infos[s.ids[a]].inTried && s.tried == map[]
    ensures var r := Next(env, s, Worked(a, 1));
      a in r.ids && r.ids[a] in r.infos && r.infos[r.ids[a]].inTried
  {
    hide Orderly, MakeTried, CollisionsSane, WithStats;
    FreshSane(env, s, a);
    var id := s.ids[a];
    var stats := Succeeded(s.infos[id].stats, 1);
    var s1 := WithStats(s, id, stats).(lastGood := 1);
    NewsKeeps(env, s, s1, a, stats, 1);
    RestatedAt(s, s1, id);
    var r := MakeTried(env, s1, id);
    MakeTriedKeeps(env, s1, r, id);
    OwnId(env, r, id);
  }

  // An address heard of, a success at time one and one at time zero: the check passes before
  // the last call and fails after it.
  lemma ZeroTimeFails(env: Env, a: Address, source: NetAddr, now: int)
    requires a.service in env.routable
    ensures var cs := [Heard(a, source, 0, now, now, true), Worked(a.service, 1), Worked(a.service, 0)];
      CheckOk(env, Run(env, cs[..2])) && !CheckOk(env, Run(env, cs))
  {
    hide CheckOk, Next, Inv, Timely, Run;
    var first, second, third := Heard(a, source, 0, now, now, true), Worked(a.service, 1), Worked(a.service, 0);
    var cs := [first, second, third];
    assert cs[..2] == [first, second] && [first, second][..1] == [first] && [first][..0] == [];
    RunLast(env, cs);
    RunLast(env, cs[..2]);
    RunLast(env, [first]);
    EmptyPasses(env);
    RunNothing(env);
    HeardFirst(env, a, source, now);
    WorkedFirst(env, Run(env, [first]), a.service);
    TimelyHere(env, Empty(), first);
    NextPasses(env, Empty(), first);
    TimelyHere(env, Run(env, [first]), second);
    NextPasses(env, Run(env, [first]), second);
    TimelyHere(env, Run(env, cs[..2]), third);
    NextPasses(env, Run(env, cs[..2]), third);
  }

  lemma RunNothing(env: Env)
    ensures Run(env, []) == Empty()
  {
    hide Inv;
  }

  lemma TimelyHere(env: Env, s: State, c: Command)
    requires Inv(env, s)
    ensures c.Heard? || (c.Worked? && c.time > 0) ==> Timely(env, s, c)
    ensures (c.Worked? && c.time == 0 && c.service in s.ids && s.ids[c.service] in s.infos &&
             s.infos[s.ids[c.service]].inTried)
      ==> !Timely(env, s, c)
  {
    hide Inv;
  }
}
