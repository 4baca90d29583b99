/**
The script-check queue: one master and any number of workers that share a stack of checks
under a mutex, with one condition variable for the workers and one for the master.

A thread's code between acquiring the mutex and releasing it (by waiting, returning or
going off to run a batch) is one step; running a single check is another.  Thread 0 is
the master.  `added` and `done` record, for the current session, the checks handed to
`Add` and those whose batch has been accounted for.
*/
module CheckQueue {
  import opened Options

  // A check is known by what it will answer: nothing, or an error.
  datatype Check = Check(id: nat, outcome: Option<int>)

  datatype Phase =
    | Outside                     // a worker not started, or the master between calls
    | Adding(many: bool)          // the master after unlocking in Add, before it notifies
    | AtLock                      // about to lock the mutex at the top of the loop
    | Waiting(notified: bool)
    | Running(left: seq<Check>)   // checks of the batch still to run

  datatype Thread = Thread(phase: Phase, taken: seq<Check>, doWork: bool, local: Option<int>)

  datatype State = State(
    queue: seq<Check>,
    todo: nat,
    idle: nat,
    total: nat,
    result: Option<int>,
    threads: seq<Thread>,
    batchSize: nat,
    added: seq<Check>,
    done: multiset<Check>)

  datatype Step =
    | Start(worker: nat)
    | AddChecks(checks: seq<Check>)
    | NotifyAll
    | NotifyOne(woken: nat)       // wakes that worker if it is waiting
    | Enter
    | Lock(thread: nat)
    | Wake(thread: nat)
    | SpuriousWake(thread: nat)
    | RunCheck(thread: nat)

  // ----- Sums over the threads -----

  function Sum(f: Thread -> nat, ts: seq<Thread>): nat {
    if ts == [] then 0 else f(ts[0]) + Sum(f, ts[1..])
  }

  lemma {:induction false} SumUpdate(f: Thread -> nat, ts: seq<Thread>, t: nat, x: Thread)
    requires t < |ts|
    ensures Sum(f, ts[t := x]) == Sum(f, ts) - f(ts[t]) + f(x)
  {
    if t == 0 {
      assert ts[0 := x][1..] == ts[1..];
    } else {
      assert ts[t := x][1..] == ts[1..][t - 1 := x];
      SumUpdate(f, ts[1..], t - 1, x);
    }
  }

  lemma {:induction false} SumAtLeast(f: Thread -> nat, ts: seq<Thread>, t: nat)
    requires t < |ts|
    ensures Sum(f, ts) >= f(ts[t])
  {
    if t > 0 {
      SumAtLeast(f, ts[1..], t - 1);
    }
  }

  // A positive sum has a positive term.
  lemma {:induction false} SumPositive(f: Thread -> nat, ts: seq<Thread>) returns (t: nat)
    requires Sum(f, ts) > 0
    ensures t < |ts| && f(ts[t]) > 0
  {
    if f(ts[0]) > 0 {
      t := 0;
    } else {
      t := SumPositive(f, ts[1..]);
      t := t + 1;
    }
  }

  function TakenCount(t: Thread): nat {
    |t.taken|
  }

  function WaitingCount(t: Thread): nat {
    if t.phase.Waiting? then 1 else 0
  }

  // A thread is counted in `total` from its first pass through the mutex on.
  function EnteredCount(t: Thread): nat {
    if t.phase.Waiting? || t.phase.Running? || (t.phase.AtLock? && t.taken != []) then 1 else 0
  }

  function AllTaken(ts: seq<Thread>): multiset<Check> {
    if ts == [] then multiset{} else multiset(ts[0].taken) + AllTaken(ts[1..])
  }

  lemma {:induction false} AllTakenUpdate(ts: seq<Thread>, t: nat, x: Thread)
    requires t < |ts|
    ensures AllTaken(ts[t := x]) + multiset(ts[t].taken) == AllTaken(ts) + multiset(x.taken)
  {
    if t == 0 {
      assert ts[0 := x][1..] == ts[1..];
    } else {
      assert ts[t := x][1..] == ts[1..][t - 1 := x] && ts[t := x][0] == ts[0];
      AllTakenUpdate(ts[1..], t - 1, x);
      var head, rest, rest' := multiset(ts[0].taken), AllTaken(ts[1..]), AllTaken(ts[1..][t - 1 := x]);
      assert head + rest' + multiset(ts[t].taken) == head + (rest' + multiset(ts[t].taken));
      assert head + rest + multiset(x.taken) == head + (rest + multiset(x.taken));
    }
  }

  lemma {:induction false} AllTakenNone(ts: seq<Thread>)
    requires Sum(TakenCount, ts) == 0
    ensures AllTaken(ts) == multiset{}
  {
    if ts != [] {
      AllTakenNone(ts[1..]);
    }
  }

  lemma {:induction false} AllTakenHas(ts: seq<Thread>, t: nat, c: Check)
    requires t < |ts| && c in ts[t].taken
    ensures c in AllTaken(ts)
  {
    if t > 0 {
      AllTakenHas(ts[1..], t - 1, c);
    }
  }

  // ----- The loop -----

  function SetThread(s: State, t: nat, x: Thread): State
    requires t < |s.threads|
  {
    s.(threads := s.threads[t := x])
  }

  // The number of checks a thread takes from a non-empty queue.
  function BatchOf(s: State): nat {
    var share := |s.queue| / (s.total + s.idle + 1);
    var most := if s.batchSize < share then s.batchSize else share;
    if most < 1 then 1 else most
  }

  // A finished batch is accounted for: its error, if it is the first, becomes the result.
  function Settled(s: State, t: nat): State
    requires t < |s.threads| && |s.threads[t].taken| <= s.todo
  {
    var me := s.threads[t];
    var swaps := me.local.Some? && s.result.None?;
    SetThread(s, t, me.(taken := [], local := if swaps then None else me.local))
      .(result := if swaps then me.local else s.result,
        todo := s.todo - |me.taken|,
        done := s.done + multiset(me.taken))
  }

  // A worker that finished the last check tells the master.
  function MasterTold(s: State, t: nat): State
    requires |s.threads| > 0
  {
    if s.todo == 0 && t != 0 && s.threads[0].phase == Waiting(false) then
      SetThread(s, 0, s.threads[0].(phase := Waiting(true)))
    else s
  }

  // The clean-up of the previous batch, at the top of the loop.
  function CleanUp(s: State, t: nat): State
    requires t < |s.threads| && |s.threads[t].taken| <= s.todo
  {
    if s.threads[t].taken == [] then s.(total := s.total + 1) else MasterTold(Settled(s, t), t)
  }

  // The master leaves Complete.
  predicate Leaves(s: State, t: nat) {
    s.queue == [] && t == 0 && s.todo == 0
  }

  // What a thread holding the mutex does next: return, wait, or take a batch.
  function Decide(s: State, t: nat): State
    requires t < |s.threads| && (Leaves(s, t) ==> s.total > 0)
  {
    var me := s.threads[t];
    if Leaves(s, t) then
      SetThread(s, t, me.(phase := Outside)).(total := s.total - 1, result := None, added := [], done := multiset{})
    else if s.queue == [] then
      SetThread(s, t, me.(phase := Waiting(false))).(idle := s.idle + 1)
    else
      BatchOfFits(s);
      var n := |s.queue| - BatchOf(s);
      var batch := s.queue[n..];
      var works := s.result.None?;
      SetThread(s, t, me.(phase := if works then Running(batch) else AtLock, taken := batch, doWork := works))
        .(queue := s.queue[..n])
  }

  lemma BatchOfFits(s: State)
    requires s.queue != []
    ensures 1 <= BatchOf(s) <= |s.queue|
    ensures BatchOf(s) <= s.batchSize || BatchOf(s) == 1
  {
    ShareFits(|s.queue|, s.total + s.idle + 1);
  }

  // A thread takes its share of the queue when that is divided evenly by the threads, the idle
  // ones counted twice, and one more, but at most a full batch and at least one check.
  lemma BatchIsShare(s: State)
    requires s.batchSize > 0
    ensures var d, n := s.total + s.idle + 1, BatchOf(s);
            && 1 <= n <= s.batchSize && (n == 1 || n * d <= |s.queue|)
            && (n == s.batchSize || |s.queue| < (n + 1) * d)
  {
    ShareIs(|s.queue|, s.total + s.idle + 1);
  }

  lemma ShareIs(n: nat, d: nat)
    requires d > 0
    ensures n / d * d <= n < (n / d + 1) * d
  {
  }

  lemma ShareFits(n: nat, d: nat)
    requires d > 0
    ensures n / d <= n
  {
    var q := n / d;
    MulGrows(q, d);
    assert q * d <= n;
  }

  lemma {:induction false} MulGrows(q: nat, d: nat)
    requires d > 0
    ensures q <= q * d
  {
    if d > 1 {
      MulGrows(q, d - 1);
      assert q * d == q * (d - 1) + q;
    }
  }

  // One check of a batch: an error ends the batch early.
  function Ran(s: State, t: nat): State
    requires t < |s.threads| && s.threads[t].phase.Running? && s.threads[t].phase.left != []
  {
    var me := s.threads[t];
    var left := me.phase.left;
    var over := left[0].outcome.Some? || |left| == 1;
    SetThread(s, t, me.(local := left[0].outcome, phase := if over then AtLock else Running(left[1..])))
  }

  // ----- Steps -----

  function Notified(t: Thread): Thread {
    if t.phase.Waiting? then t.(phase := Waiting(true)) else t
  }

  function NotifyWorkers(ts: seq<Thread>): seq<Thread> {
    seq(|ts|, i requires 0 <= i < |ts| => if i == 0 then ts[0] else Notified(ts[i]))
  }

  predicate Enabled(s: State, step: Step) {
    && |s.threads| > 0
    && match step
       case Start(w) => 0 < w < |s.threads| && s.threads[w].phase.Outside?
       case AddChecks(_) => s.threads[0].phase.Outside?
       case NotifyAll => s.threads[0].phase == Adding(true)
       case NotifyOne(w) => s.threads[0].phase == Adding(false) && 0 < w < |s.threads|
       case Enter => s.threads[0].phase.Outside?
       case Lock(t) => t < |s.threads| && s.threads[t].phase.AtLock?
       case Wake(t) => t < |s.threads| && s.threads[t].phase == Waiting(true)
       case SpuriousWake(t) => t < |s.threads| && s.threads[t].phase == Waiting(false)
       case RunCheck(t) => t < |s.threads| && s.threads[t].phase.Running?
  }

  // The state in which the thread of a Lock or Wake step decides.
  function AtDecision(s: State, step: Step): State
    requires Enabled(s, step) && (step.Lock? || step.Wake? || step.SpuriousWake?)
    requires Counted(s)
  {
    SumAtLeast(TakenCount, s.threads, step.thread);
    SumAtLeast(WaitingCount, s.threads, step.thread);
    if step.Lock? then CleanUp(s, step.thread) else s.(idle := s.idle - 1)
  }

  predicate Returns(s: State, step: Step)
    requires Enabled(s, step) && Counted(s)
  {
    (step.Lock? || step.Wake? || step.SpuriousWake?) && Leaves(AtDecision(s, step), step.thread)
  }

  function Next(s: State, step: Step): State
    requires Enabled(s, step) && Counted(s)
  {
    match step
    case Start(w) => SetThread(s, w, s.threads[w].(phase := AtLock))
    case AddChecks(checks) =>
      if checks == [] then s
      else SetThread(s, 0, s.threads[0].(phase := Adding(|checks| > 1)))
             .(queue := s.queue + checks, todo := s.todo + |checks|, added := s.added + checks)
    case NotifyAll =>
      SetThread(s, 0, s.threads[0].(phase := Outside)).(threads := NotifyWorkers(s.threads)[0 := s.threads[0].(phase := Outside)])
    case NotifyOne(w) =>
      SetThread(SetThread(s, w, Notified(s.threads[w])), 0, s.threads[0].(phase := Outside))
    case Enter => SetThread(s, 0, Thread(AtLock, [], false, None))
    case Lock(t) => Decide(AtDecision(s, step), t)
    case Wake(t) => Decide(AtDecision(s, step), t)
    case SpuriousWake(t) => Decide(AtDecision(s, step), t)
    case RunCheck(t) => Ran(s, t)
  }

  // The counters are what their comments say, which is what makes the loop's subtractions safe.
  predicate Counted(s: State) {
    && s.todo == |s.queue| + Sum(TakenCount, s.threads)
    && s.idle == Sum(WaitingCount, s.threads)
    && s.total == Sum(EnteredCount, s.threads)
    && (forall t | 0 <= t < |s.threads| :: PhaseSane(s.threads[t]))
  }

  predicate PhaseSane(t: Thread) {
    match t.phase
    case Running(left) => left != []
    case AtLock => true
    case _ => t.taken == []
  }
}
