/**
What every run of the check queue keeps: the counters are exact, every added check is
queued, in exactly one batch or done, the verdict of a session is about that session's
checks only, and a blocked master always has someone to wake it.
*/
module CheckQueueRuns {
  import opened Options
  import opened CheckQueue

  // ----- The invariant -----

  // What a thread's unfinished batch says.  `local` may hold an error of an older batch
  // until the first check of the batch has run.
  ghost predicate BatchSane(t: Thread, result: Option<int>) {
    && (t.phase.Running? ==>
          && t.doWork && 0 < |t.phase.left| <= |t.taken|
          && var ran := |t.taken| - |t.phase.left|;
             t.phase.left == t.taken[ran..] && forall i | 0 <= i < ran :: t.taken[i].outcome == None)
    && (t.phase.AtLock? && t.taken != [] ==>
          if !t.doWork then result.Some?
          else if t.local == None then forall c | c in t.taken :: c.outcome == None
          else exists c | c in t.taken :: c.outcome == t.local)
  }

  ghost predicate Session(s: State) {
    && multiset(s.added) == multiset(s.queue) + AllTaken(s.threads) + s.done
    && (s.result == None ==> forall c | c in s.done :: c.outcome == None)
    && (s.result.Some? ==> exists c | c in s.added :: c.outcome == s.result)
    && (forall t | 0 <= t < |s.threads| :: BatchSane(s.threads[t], s.result))
  }

  // A waiting master has nothing queued, and unless it has been notified the last batch
  // is still out.
  ghost predicate MasterSane(s: State)
    requires |s.threads| > 0
  {
    s.threads[0].phase.Waiting? ==> s.queue == [] && (s.threads[0].phase.notified || s.todo > 0)
  }

  ghost predicate Inv(s: State) {
    |s.threads| > 0 && Counted(s) && Session(s) && MasterSane(s)
  }

  // A thread that holds the mutex: it is out of `idle`, in `total`, and has no batch.
  ghost predicate Holding(s: State, t: nat) {
    && t < |s.threads| && s.threads[t].taken == []
    && s.todo == |s.queue| + Sum(TakenCount, s.threads)
    && s.idle == Sum(WaitingCount, s.threads) - WaitingCount(s.threads[t])
    && s.total == Sum(EnteredCount, s.threads) - EnteredCount(s.threads[t]) + 1
    && (forall i | 0 <= i < |s.threads| && i != t :: PhaseSane(s.threads[i]))
    && Session(s)
    && (t != 0 ==> MasterSane(s))
  }

  function Initial(workers: nat, batchSize: nat): State {
    State([], 0, 0, 0, None, seq(workers + 1, _ => Thread(Outside, [], false, None)), batchSize, [], multiset{})
  }

  // ----- Locking, deciding, running -----

  lemma SetThreadSums(s: State, t: nat, x: Thread)
    requires t < |s.threads|
    ensures var ts := SetThread(s, t, x).threads;
            && Sum(TakenCount, ts) == Sum(TakenCount, s.threads) - |s.threads[t].taken| + |x.taken|
            && Sum(WaitingCount, ts) == Sum(WaitingCount, s.threads) - WaitingCount(s.threads[t]) + WaitingCount(x)
            && Sum(EnteredCount, ts) == Sum(EnteredCount, s.threads) - EnteredCount(s.threads[t]) + EnteredCount(x)
            && AllTaken(ts) + multiset(s.threads[t].taken) == AllTaken(s.threads) + multiset(x.taken)
            && (x.taken == s.threads[t].taken ==> AllTaken(ts) == AllTaken(s.threads))
  {
    if x.taken == s.threads[t].taken {
      Cancel(AllTaken(SetThread(s, t, x).threads), AllTaken(s.threads), multiset(x.taken));
    }
    SumUpdate(TakenCount, s.threads, t, x);
    SumUpdate(WaitingCount, s.threads, t, x);
    SumUpdate(EnteredCount, s.threads, t, x);
    AllTakenUpdate(s.threads, t, x);
  }

  // Replacing one thread by a sane one, the result being no less decided.
  lemma OthersSane(ts: seq<Thread>, ts': seq<Thread>, t: nat, x: Thread, result: Option<int>, result': Option<int>)
    requires t < |ts| && ts' == ts[t := x] && (result.Some? ==> result'.Some?)
    requires forall i | 0 <= i < |ts| && i != t :: PhaseSane(ts[i])
    requires forall i | 0 <= i < |ts| :: BatchSane(ts[i], result)
    requires PhaseSane(x) && BatchSane(x, result')
    ensures forall i | 0 <= i < |ts'| :: PhaseSane(ts'[i])
    ensures forall i | 0 <= i < |ts'| :: BatchSane(ts'[i], result')
  {
    forall i | 0 <= i < |ts| && i != t ensures BatchSane(ts[i], result') {
      assert BatchSane(ts[i], result);
    }
  }

  lemma Cancel(a: multiset<Check>, b: multiset<Check>, c: multiset<Check>)
    ensures a + c == b + c ==> a == b
  {
    if a + c == b + c {
      forall x ensures a[x] == b[x] {
        assert (a + c)[x] == (b + c)[x];
      }
    }
  }

  // The error a batch leaves in `local` is one of the session's.
  lemma TakenIsAdded(s: State, t: nat, c: Check)
    requires Session(s) && t < |s.threads| && c in s.threads[t].taken
    ensures c in s.added
  {
    AllTakenHas(s.threads, t, c);
    assert c in multiset(s.added);
  }

  lemma Shifted(queue: multiset<Check>, taken: multiset<Check>, taken': multiset<Check>, done: multiset<Check>, batch: multiset<Check>)
    requires taken' + batch == taken
    ensures queue + taken + done == queue + taken' + (done + batch)
  {
  }

  lemma SettledSession(s: State, t: nat)
    requires Inv(s) && t < |s.threads| && s.threads[t].phase.AtLock? && |s.threads[t].taken| <= s.todo
    requires s.threads[t].taken != []
    ensures Session(Settled(s, t))
  {
    var me, u := s.threads[t], Settled(s, t);
    assert BatchSane(me, s.result);
    SetThreadSums(s, t, u.threads[t]);
    Shifted(multiset(s.queue), AllTaken(s.threads), AllTaken(u.threads), s.done, multiset(me.taken));
    if s.result == None && me.local.Some? {
      var c :| c in me.taken && c.outcome == me.local;
      TakenIsAdded(s, t, c);
    }
    OthersSane(s.threads, u.threads, t, u.threads[t], s.result, u.result);
  }

  lemma SettledHolds(s: State, t: nat)
    requires Inv(s) && t < |s.threads| && s.threads[t].phase.AtLock? && |s.threads[t].taken| <= s.todo
    requires s.threads[t].taken != []
    ensures Holding(MasterTold(Settled(s, t), t), t)
  {
    hide Sum, AllTaken;
    var u := Settled(s, t);
    SettledSession(s, t);
    SetThreadSums(s, t, u.threads[t]);
    if MasterTold(u, t) != u {
      ToldHolds(u, t);
    }
  }

  lemma ToldHolds(u: State, t: nat)
    requires 0 < t < |u.threads| && u.threads[0].phase == Waiting(false) && u.todo == 0 && u.queue == []
    requires u.threads[t].taken == [] && Session(u)
    requires u.todo == |u.queue| + Sum(TakenCount, u.threads)
    requires u.idle == Sum(WaitingCount, u.threads) - WaitingCount(u.threads[t])
    requires u.total == Sum(EnteredCount, u.threads) - EnteredCount(u.threads[t]) + 1
    requires forall i | 0 <= i < |u.threads| && i != t :: PhaseSane(u.threads[i])
    ensures Holding(MasterTold(u, t), t)
  {
    var told := u.threads[0].(phase := Waiting(true));
    SetThreadSums(u, 0, told);
    var v := SetThread(u, 0, told);
    forall i | 0 <= i < |v.threads| ensures BatchSane(v.threads[i], v.result) {
      assert BatchSane(u.threads[i], u.result);
    }
  }

  lemma CleanUpKeeps(s: State, t: nat)
    requires Inv(s) && t < |s.threads| && s.threads[t].phase.AtLock?
    ensures |s.threads[t].taken| <= s.todo
    ensures Holding(CleanUp(s, t), t)
  {
    SumAtLeast(TakenCount, s.threads, t);
    if s.threads[t].taken != [] {
      SettledHolds(s, t);
    }
  }

  lemma WakeHolds(s: State, t: nat)
    requires Inv(s) && t < |s.threads| && s.threads[t].phase.Waiting?
    ensures s.idle > 0 && Holding(s.(idle := s.idle - 1), t)
  {
    SumAtLeast(WaitingCount, s.threads, t);
    assert PhaseSane(s.threads[t]);
  }

  // The verdict: nothing is left of the session, and the result is about its checks.
  lemma VerdictHolds(s: State)
    requires Holding(s, 0) && Leaves(s, 0)
    ensures s.result == None <==> forall c | c in s.added :: c.outcome == None
    ensures s.result.Some? ==> exists c | c in s.added :: c.outcome == s.result
    ensures AllTaken(s.threads) == multiset{} && multiset(s.added) == s.done
  {
    AllTakenNone(s.threads);
    assert multiset(s.queue) == multiset{};
    forall c | c in s.added ensures c in s.done {
      assert c in multiset(s.added);
    }
  }

  lemma LeaveKeeps(s: State)
    requires Holding(s, 0) && Leaves(s, 0)
    ensures s.total > 0 && Inv(Decide(s, 0))
  {
    SumAtLeast(EnteredCount, s.threads, 0);
    var x := s.threads[0].(phase := Outside);
    var u := Decide(s, 0);
    VerdictHolds(s);
    SetThreadSums(s, 0, x);
    forall i | 0 <= i < |u.threads| ensures PhaseSane(u.threads[i]) && BatchSane(u.threads[i], u.result) {
      assert BatchSane(s.threads[i], s.result);
      SumAtLeast(TakenCount, u.threads, i);
    }
  }

  lemma WaitKeeps(s: State, t: nat)
    requires Holding(s, t) && !Leaves(s, t) && s.queue == []
    ensures Inv(Decide(s, t))
  {
    var u := Decide(s, t);
    SetThreadSums(s, t, u.threads[t]);
    OthersSane(s.threads, u.threads, t, u.threads[t], s.result, u.result);
  }

  lemma TakeConserves(s: State, t: nat)
    requires t < |s.threads| && s.queue != [] && s.threads[t].taken == []
    ensures var u := Decide(s, t);
            multiset(s.queue) + AllTaken(s.threads) + s.done == multiset(u.queue) + AllTaken(u.threads) + u.done
  {
    BatchOfFits(s);
    var u := Decide(s, t);
    var n := |s.queue| - BatchOf(s);
    SetThreadSums(s, t, u.threads[t]);
    assert s.queue == s.queue[..n] + s.queue[n..];
    Shifted(multiset(s.queue[..n]), AllTaken(u.threads), AllTaken(s.threads), s.done, multiset(s.queue[n..]));
  }

  lemma TakeKeeps(s: State, t: nat)
    requires Holding(s, t) && s.queue != []
    ensures Inv(Decide(s, t))
  {
    BatchOfFits(s);
    var u := Decide(s, t);
    TakeConserves(s, t);
    SetThreadSums(s, t, u.threads[t]);
    OthersSane(s.threads, u.threads, t, u.threads[t], s.result, u.result);
  }

  lemma DecideKeeps(s: State, t: nat)
    requires Holding(s, t)
    ensures (Leaves(s, t) ==> s.total > 0) && Inv(Decide(s, t))
  {
    if Leaves(s, t) {
      LeaveKeeps(s);
    } else if s.queue == [] {
      WaitKeeps(s, t);
    } else {
      TakeKeeps(s, t);
    }
  }

  lemma RanKeeps(s: State, t: nat)
    requires Inv(s) && t < |s.threads| && s.threads[t].phase.Running?
    ensures s.threads[t].phase.left != [] && Inv(Ran(s, t))
  {
    hide Sum, AllTaken;
    var me := s.threads[t];
    assert BatchSane(me, s.result) && PhaseSane(me);
    var u := Ran(s, t);
    var ran := |me.taken| - |me.phase.left|;
    assert me.phase.left[0] == me.taken[ran];
    SetThreadSums(s, t, u.threads[t]);
    OthersSane(s.threads, u.threads, t, u.threads[t], s.result, u.result);
  }

  // ----- The other steps -----

  // A change of one thread's phase that touches no batch and no counter.
  lemma QuietKeeps(s: State, t: nat, x: Thread)
    requires Inv(s) && t < |s.threads| && s.threads[t].taken == [] == x.taken
    requires WaitingCount(x) == WaitingCount(s.threads[t]) && EnteredCount(x) == EnteredCount(s.threads[t])
    requires !x.phase.Running? && (t == 0 && x.phase.Waiting? ==> x.phase.notified && s.threads[0].phase.Waiting?)
    ensures Inv(SetThread(s, t, x))
  {
    var u := SetThread(s, t, x);
    SetThreadSums(s, t, x);
    OthersSane(s.threads, u.threads, t, u.threads[t], s.result, u.result);
  }

  lemma AddKeeps(s: State, checks: seq<Check>)
    requires Inv(s) && s.threads[0].phase.Outside? && checks != []
    ensures Inv(Next(s, AddChecks(checks)))
  {
    var x := s.threads[0].(phase := Adding(|checks| > 1));
    assert PhaseSane(s.threads[0]);
    QuietKeeps(s, 0, x);
    var u, v := SetThread(s, 0, x), Next(s, AddChecks(checks));
    Shifted(multiset(s.queue), AllTaken(u.threads) + multiset(checks), AllTaken(u.threads), s.done, multiset(checks));
    if u.result.Some? {
      var c :| c in u.added && c.outcome == u.result;
      assert c in v.added;
    }
    forall i | 0 <= i < |v.threads| ensures BatchSane(v.threads[i], v.result) {
      assert BatchSane(u.threads[i], u.result);
    }
  }

  // Notifying the workers from the i-th on, one at a time.
  lemma {:induction false} NotifyKeeps(s: State, i: nat)
    requires Inv(s) && 1 <= i <= |s.threads|
    ensures Inv(s.(threads := s.threads[..i] + NotifyWorkers(s.threads)[i..]))
    decreases |s.threads| - i
  {
    var now := s.threads[..i] + NotifyWorkers(s.threads)[i..];
    if i == |s.threads| {
      assert now == s.threads;
    } else {
      assert PhaseSane(s.threads[i]);
      QuietKeepsAny(s, i);
      var u := SetThread(s, i, Notified(s.threads[i]));
      NotifyKeeps(u, i + 1);
      assert u.threads[..i + 1] + NotifyWorkers(u.threads)[i + 1..] == now;
    }
  }

  lemma QuietKeepsAny(s: State, w: nat)
    requires Inv(s) && 0 < w < |s.threads|
    ensures Inv(SetThread(s, w, Notified(s.threads[w])))
  {
    assert PhaseSane(s.threads[w]);
    if s.threads[w].phase.Waiting? {
      QuietKeeps(s, w, Notified(s.threads[w]));
    } else {
      assert SetThread(s, w, s.threads[w]) == s;
    }
  }

  lemma InitialInv(workers: nat, batchSize: nat)
    ensures Inv(Initial(workers, batchSize))
  {
    var s := Initial(workers, batchSize);
    IdleSums(s.threads);
  }

  lemma {:induction false} IdleSums(ts: seq<Thread>)
    requires forall t | t in ts :: t == Thread(Outside, [], false, None)
    ensures Sum(TakenCount, ts) == Sum(WaitingCount, ts) == Sum(EnteredCount, ts) == 0
    ensures AllTaken(ts) == multiset{}
  {
    if ts != [] {
      assert ts[0] in ts && forall t | t in ts[1..] :: t in ts;
      IdleSums(ts[1..]);
    }
  }

  lemma StepKeeps(s: State, step: Step)
    requires Inv(s) && Enabled(s, step)
    ensures Inv(Next(s, step))
  {
    match step
    case Start(w) =>
      assert PhaseSane(s.threads[w]);
      QuietKeeps(s, w, s.threads[w].(phase := AtLock));
    case AddChecks(checks) =>
      if checks != [] {
        AddKeeps(s, checks);
      }
    case NotifyAll =>
      assert PhaseSane(s.threads[0]);
      var x := s.threads[0].(phase := Outside);
      QuietKeeps(s, 0, x);
      var u := SetThread(s, 0, x);
      NotifyKeeps(u, 1);
      assert u.threads[..1] + NotifyWorkers(u.threads)[1..] == Next(s, step).threads;
    case NotifyOne(w) =>
      assert PhaseSane(s.threads[0]);
      QuietKeepsAny(s, w);
      QuietKeeps(SetThread(s, w, Notified(s.threads[w])), 0, s.threads[0].(phase := Outside));
    case Enter =>
      assert PhaseSane(s.threads[0]);
      QuietKeeps(s, 0, Thread(AtLock, [], false, None));
    case Lock(t) =>
      CleanUpKeeps(s, t);
      DecideKeeps(CleanUp(s, t), t);
    case Wake(t) =>
      WakeHolds(s, t);
      DecideKeeps(s.(idle := s.idle - 1), t);
    case SpuriousWake(t) =>
      WakeHolds(s, t);
      DecideKeeps(s.(idle := s.idle - 1), t);
    case RunCheck(t) =>
      RanKeeps(s, t);
  }

  // ----- Safety over runs -----

  ghost predicate Run(s: State, steps: seq<Step>, end: State)
    decreases |steps|
  {
    if steps == [] then s == end
    else Enabled(s, steps[0]) && Counted(s) && Run(Next(s, steps[0]), steps[1..], end)
  }

  lemma {:induction false} ReachableKeeps(s: State, steps: seq<Step>, end: State)
    requires Inv(s) && Run(s, steps, end)
    ensures Inv(end)
    decreases |steps|
  {
    if steps != [] {
      StepKeeps(s, steps[0]);
      ReachableKeeps(Next(s, steps[0]), steps[1..], end);
    }
  }

  // In every reachable state the counters are exact and no check is lost or run twice.
  lemma ReachableCounted(workers: nat, batchSize: nat, steps: seq<Step>, s: State)
    requires Run(Initial(workers, batchSize), steps, s)
    ensures s.todo == |s.queue| + Sum(TakenCount, s.threads)
    ensures multiset(s.added) == multiset(s.queue) + AllTaken(s.threads) + s.done
  {
    InitialInv(workers, batchSize);
    ReachableKeeps(Initial(workers, batchSize), steps, s);
  }

  // Whenever Complete returns, it returns nothing exactly when every check added since
  // the previous return answers nothing, and otherwise the error of one of those checks.
  lemma CompleteVerdict(workers: nat, batchSize: nat, steps: seq<Step>, s: State, step: Step)
    requires Run(Initial(workers, batchSize), steps, s)
    requires Enabled(s, step) && Counted(s) && Returns(s, step)
    ensures var verdict := AtDecision(s, step).result;
            && (verdict == None <==> forall c | c in s.added :: c.outcome == None)
            && (verdict.Some? ==> exists c | c in s.added :: c.outcome == verdict)
    ensures Next(s, step).added == [] && Next(s, step).result == None
  {
    InitialInv(workers, batchSize);
    ReachableKeeps(Initial(workers, batchSize), steps, s);
    if step.Lock? {
      CleanUpKeeps(s, 0);
    } else {
      WakeHolds(s, 0);
    }
    VerdictHolds(AtDecision(s, step));
  }

  lemma BlockedOnWorker(s: State) returns (w: nat)
    requires Inv(s) && s.threads[0].phase == Waiting(false)
    ensures s.todo > 0 && 0 < w < |s.threads| && s.threads[w].taken != []
    ensures s.threads[w].phase.AtLock? || s.threads[w].phase.Running?
  {
    w := SumPositive(TakenCount, s.threads);
    assert PhaseSane(s.threads[w]) && PhaseSane(s.threads[0]);
  }

  // In every run, a master that is blocked and not notified waits for a worker that holds a
  // batch.
  lemma NoLostWakeup(workers: nat, batchSize: nat, steps: seq<Step>, s: State) returns (w: nat)
    requires Run(Initial(workers, batchSize), steps, s)
    requires |s.threads| > 0 && s.threads[0].phase == Waiting(false)
    ensures s.todo > 0 && 0 < w < |s.threads| && s.threads[w].taken != []
    ensures s.threads[w].phase.AtLock? || s.threads[w].phase.Running?
  {
    InitialInv(workers, batchSize);
    ReachableKeeps(Initial(workers, batchSize), steps, s);
    w := BlockedOnWorker(s);
  }

  // ----- Complete returns -----

  predicate Inside(s: State) {
    && |s.threads| > 0
    && (s.threads[0].phase.AtLock? || s.threads[0].phase.Waiting? || s.threads[0].phase.Running?)
  }

  lemma SomeStep(s: State) returns (step: Step)
    requires Inv(s) && Inside(s)
    ensures Enabled(s, step) && (step.Lock? || step.Wake? || step.RunCheck?)
  {
    match s.threads[0].phase
    case AtLock => step := Lock(0);
    case Running(_) => step := RunCheck(0);
    case Waiting(notified) =>
      if notified {
        step := Wake(0);
      } else {
        var w := BlockedOnWorker(s);
        step := if s.threads[w].phase.AtLock? then Lock(w) else RunCheck(w);
      }
  }

  // In every run, while the master is inside, some thread can go on without a spurious
  // wake-up.
  lemma NotStuck(workers: nat, batchSize: nat, steps: seq<Step>, s: State) returns (step: Step)
    requires Run(Initial(workers, batchSize), steps, s) && Inside(s)
    ensures Enabled(s, step) && (step.Lock? || step.Wake? || step.RunCheck?)
  {
    InitialInv(workers, batchSize);
    ReachableKeeps(Initial(workers, batchSize), steps, s);
    step := SomeStep(s);
  }

  function Weight(t: Thread): nat {
    match t.phase
    case Waiting(notified) => if notified then 1 else 0
    case AtLock => 2
    case Running(left) => 2 + |left|
    case _ => 3
  }

  function Potential(s: State): nat {
    4 * |s.queue| + Sum(Weight, s.threads)
  }

  lemma CleanUpPotential(s: State, t: nat)
    requires Inv(s) && t < |s.threads| && s.threads[t].phase.AtLock? && |s.threads[t].taken| <= s.todo
    ensures var u := CleanUp(s, t);
            && u.queue == s.queue && u.threads[t].phase.AtLock?
            && Potential(u) <= Potential(s) + (if u.queue == [] then 1 else 0)
  {
    if s.threads[t].taken != [] {
      var u := Settled(s, t);
      SumUpdate(Weight, s.threads, t, u.threads[t]);
      if MasterTold(u, t) != u {
        SumUpdate(Weight, u.threads, 0, u.threads[0].(phase := Waiting(true)));
      }
    }
  }

  lemma DecidePotential(s: State, t: nat)
    requires t < |s.threads| && !Leaves(s, t)
    ensures Potential(Decide(s, t)) <= Potential(s) - Weight(s.threads[t]) + (if s.queue == [] then 0 else -1)
  {
    var u := Decide(s, t);
    if s.queue != [] {
      BatchOfFits(s);
    }
    SumUpdate(Weight, s.threads, t, u.threads[t]);
  }

  // A decision that is not the master's return leaves the master inside.
  lemma DecideInside(s: State, t: nat)
    requires t < |s.threads| && !Leaves(s, t) && (t == 0 || Inside(s))
    ensures Inside(Decide(s, t))
  {
    if s.queue != [] {
      BatchOfFits(s);
    }
  }

  lemma LockProgress(s: State, t: nat)
    requires Inv(s) && Inside(s) && Enabled(s, Lock(t)) && !Returns(s, Lock(t))
    ensures Inside(Next(s, Lock(t))) && Potential(Next(s, Lock(t))) < Potential(s)
  {
    SumAtLeast(TakenCount, s.threads, t);
    CleanUpPotential(s, t);
    DecidePotential(CleanUp(s, t), t);
    DecideInside(CleanUp(s, t), t);
  }

  lemma WakeProgress(s: State, t: nat)
    requires Inv(s) && Inside(s) && Enabled(s, Wake(t)) && !Returns(s, Wake(t))
    ensures Inside(Next(s, Wake(t))) && Potential(Next(s, Wake(t))) < Potential(s)
  {
    SumAtLeast(WaitingCount, s.threads, t);
    DecidePotential(s.(idle := s.idle - 1), t);
    DecideInside(s.(idle := s.idle - 1), t);
  }

  lemma RunProgress(s: State, t: nat)
    requires Inv(s) && Inside(s) && Enabled(s, RunCheck(t))
    ensures Inside(Next(s, RunCheck(t))) && Potential(Next(s, RunCheck(t))) < Potential(s)
  {
    assert PhaseSane(s.threads[t]);
    SumUpdate(Weight, s.threads, t, Ran(s, t).threads[t]);
  }

  // Every other step while the master is inside either makes it return or uses up potential.
  lemma StepProgress(s: State, step: Step)
    requires Inv(s) && Inside(s) && Enabled(s, step) && !step.SpuriousWake? && !Returns(s, step)
    ensures Inside(Next(s, step)) && Potential(Next(s, step)) < Potential(s)
  {
    match step
    case Start(w) => SumUpdate(Weight, s.threads, w, s.threads[w].(phase := AtLock));
    case Lock(t) => LockProgress(s, t);
    case Wake(t) => WakeProgress(s, t);
    case RunCheck(t) => RunProgress(s, t);
    case _ =>
  }

  // So a run without spurious wake-ups in which Complete does not return is short.
  lemma {:induction false} CompleteBounded(s: State, steps: seq<Step>, end: State)
    requires Inv(s) && Inside(s) && Run(s, steps, end)
    requires forall step | step in steps :: !step.SpuriousWake?
    requires Quiet(s, steps)
    ensures |steps| <= Potential(s)
    decreases |steps|
  {
    if steps != [] {
      assert steps[0] in steps;
      StepProgress(s, steps[0]);
      StepKeeps(s, steps[0]);
      assert forall step | step in steps[1..] :: step in steps;
      CompleteBounded(Next(s, steps[0]), steps[1..], end);
    }
  }

  // No step of the run makes Complete return.
  ghost predicate Quiet(s: State, steps: seq<Step>)
    decreases |steps|
  {
    steps != [] && Enabled(s, steps[0]) && Counted(s) ==>
      !Returns(s, steps[0]) && Quiet(Next(s, steps[0]), steps[1..])
  }

  lemma DecideAfterError(s: State, t: nat, x: nat)
    requires t < |s.threads| && x < |s.threads| && (Leaves(s, t) ==> s.total > 0)
    ensures |Decide(s, t).threads| == |s.threads|
    ensures s.result.Some? && Decide(s, t).threads[x].phase.Running? ==> s.threads[x].phase.Running?
  {
    hide BatchOf;
  }

  lemma CleanUpAfterError(s: State, t: nat, x: nat)
    requires t < |s.threads| && x < |s.threads| && |s.threads[t].taken| <= s.todo
    ensures |CleanUp(s, t).threads| == |s.threads| && (s.result.Some? ==> CleanUp(s, t).result.Some?)
    ensures CleanUp(s, t).threads[x].phase.Running? ==> s.threads[x].phase.Running?
  {
  }

  lemma DecisionInside(s: State, step: Step)
    requires Enabled(s, step) && Counted(s) && (step.Lock? || step.Wake? || step.SpuriousWake?)
    ensures AtDecision(s, step).total > 0
  {
    SumAtLeast(EnteredCount, s.threads, step.thread);
  }

  // Once an error is recorded no thread starts on another batch, and a thread leaves the rest
  // of its own batch after a check that fails.
  lemma ErrorStopsWork(s: State, step: Step, t: nat)
    requires Enabled(s, step) && Counted(s) && t < |s.threads|
    ensures |Next(s, step).threads| == |s.threads|
    ensures s.result.Some? && Next(s, step).threads[t].phase.Running? ==> s.threads[t].phase.Running?
    ensures step == RunCheck(t) && s.threads[t].phase.left != [] && s.threads[t].phase.left[0].outcome.Some? ==>
      Next(s, step).threads[t].phase.AtLock?
  {
    hide CleanUp, Decide, BatchOf;
    if step.Lock? {
      SumAtLeast(TakenCount, s.threads, step.thread);
      CleanUpAfterError(s, step.thread, t);
    }
    if step.Lock? || step.Wake? || step.SpuriousWake? {
      DecisionInside(s, step);
      DecideAfterError(AtDecision(s, step), step.thread, t);
    }
  }
}
