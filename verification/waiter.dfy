/** The waiter: a mutex, a condition variable and a quit flag.  Changes to what
    the predicates read are made without the mutex; whoever makes one then locks
    and unlocks the mutex (the barrier) and broadcasts.

    `blocked[t]` is what thread t's predicate would yield if evaluated now. */
module Waiter {
  import Runs

  type Tid = nat

  datatype Pc =
    | Idle
    // wait_if
    | WLock
    | WQuit
    | WPred
    | WSleep
    | Asleep
    | Woken(ok: bool)
    | WUnlock(ret: bool)
    // broadcast, after a change
    | BLock
    | BUnlock
    | BCast

  datatype Owner = Free | Held(t: Tid)

  datatype State = State(
    lock: Owner,
    sleepers: set<Tid>,
    quit: bool,
    blocked: map<Tid, bool>,
    thr: map<Tid, Pc>)

  /** A step of thread `t`. */
  ghost predicate Step(s: State, s': State, t: Tid) {
    && t in s.thr && t in s'.thr
    && s'.blocked.Keys == s.blocked.Keys == s.thr.Keys
    && var pc, pc' := s.thr[t], s'.thr[t];
       var go := s.(thr := s.thr[t := pc']);
       match pc
       case Idle =>
         || (s' == go && pc' == WLock)
         // change what predicates read, then broadcast
         || (s' == go.(blocked := s'.blocked) && pc' == BLock)
         // quit_waiting
         || (s' == go.(quit := true) && pc' == BLock)
         // a change that lets nobody through needs no broadcast
         || (s' == go.(blocked := s'.blocked) && pc' == Idle
               && forall u | u in s.blocked && s.blocked[u] :: s'.blocked[u])
       case WLock => s.lock == Free && s' == go.(lock := Held(t)) && pc' == WQuit
       case WQuit => s' == go && pc' == if s.quit then WUnlock(true) else WPred
       case WPred => s' == go && pc' == if s.blocked[t] then WSleep else WUnlock(true)
       // cond_.wait releases the mutex and sleeps in one step
       case WSleep => s' == go.(lock := Free, sleepers := s.sleepers + {t}) && pc' == Asleep
       case Asleep =>
         // woken by a broadcast, or spuriously, or by the timeout
         || (s' == go.(sleepers := s.sleepers - {t}) && pc' == Woken(true))
         || (s' == go.(sleepers := s.sleepers - {t}) && pc' == Woken(false) && t in s.sleepers)
       case Woken(ok) =>
         s.lock == Free && s' == go.(lock := Held(t)) && pc' == if ok then WQuit else WUnlock(false)
       case WUnlock(ret) => s' == go.(lock := Free) && pc' == Idle
       case BLock => s.lock == Free && s' == go.(lock := Held(t)) && pc' == BUnlock
       case BUnlock => s' == go.(lock := Free) && pc' == BCast
       case BCast => s' == go.(sleepers := {}) && pc' == Idle
  }

  ghost predicate Init(s: State) {
    && s.lock == Free && s.sleepers == {} && s.blocked.Keys == s.thr.Keys
    && (forall t | t in s.thr :: s.thr[t] == Idle)
  }

  predicate HoldsLock(pc: Pc) {
    pc == WQuit || pc == WPred || pc == WSleep || pc.WUnlock? || pc == BUnlock
  }

  // Thread u has made its change and has not reached the barrier yet.
  ghost predicate BeforeBarrier(s: State, u: Tid) {
    u in s.thr && s.thr[u] == BLock
  }

  // Thread u has made its change and has not broadcast yet.
  ghost predicate BeforeBroadcast(s: State, u: Tid) {
    u in s.thr && (s.thr[u] == BLock || s.thr[u] == BUnlock || s.thr[u] == BCast)
  }

  // Nothing keeps t from proceeding any more.
  ghost predicate MayProceed(s: State, t: Tid) {
    s.quit || (t in s.blocked && !s.blocked[t])
  }

  ghost predicate Inv(s: State) {
    && s.blocked.Keys == s.thr.Keys
    && (forall t | t in s.thr :: HoldsLock(s.thr[t]) <==> s.lock == Held(t))
    && (forall t | t in s.sleepers :: t in s.thr && s.thr[t] == Asleep)
    && (forall t | t in s.thr && s.thr[t] == WPred && s.quit :: exists u :: BeforeBarrier(s, u))
    && (forall t | t in s.thr && s.thr[t] == WSleep && MayProceed(s, t) :: exists u :: BeforeBarrier(s, u))
    && (forall t | t in s.sleepers && MayProceed(s, t) :: exists u :: BeforeBroadcast(s, u))
  }

  /** While a thread other than a broadcaster at its barrier moves, those that
      have changed something and not passed the barrier stay there. */
  lemma BarrierStays(s: State, s': State, t: Tid, u: Tid)
    requires Inv(s) && Step(s, s', t) && BeforeBarrier(s, u)
    ensures BeforeBarrier(s', u) || (t == u && s.lock == Free)
  {
  }

  lemma BroadcastStays(s: State, s': State, t: Tid, u: Tid)
    requires Inv(s) && Step(s, s', t) && BeforeBroadcast(s, u)
    ensures BeforeBroadcast(s', u) || (t == u && s.thr[t] == BCast && s'.sleepers == {})
  {
  }

  lemma EvaluatorKept(s: State, s': State, t: Tid, w: Tid)
    requires Inv(s) && Step(s, s', t)
    requires w in s'.thr
    requires (s'.thr[w] == WPred && s'.quit) || (s'.thr[w] == WSleep && MayProceed(s', w))
    ensures exists u :: BeforeBarrier(s', u)
  {
    if s'.thr[t] == BLock && s.thr[t] == Idle {
      assert BeforeBarrier(s', t);
    } else if w != t {
      // w holds the mutex, so nobody passes the barrier
      var u :| BeforeBarrier(s, u);
      BarrierStays(s, s', t, u);
    } else if s.thr[t] == WPred && s.quit {
      var u :| BeforeBarrier(s, u);
      BarrierStays(s, s', t, u);
    }
  }

  lemma SleeperKept(s: State, s': State, t: Tid, w: Tid)
    requires Inv(s) && Step(s, s', t) && w in s'.sleepers && MayProceed(s', w)
    ensures exists u :: BeforeBroadcast(s', u)
  {
    if s'.thr[t] == BLock && s.thr[t] == Idle {
      assert BeforeBroadcast(s', t);
    } else if s.thr[t] == WSleep && w == t {
      var u :| BeforeBarrier(s, u);
      BarrierStays(s, s', t, u);
      assert BeforeBroadcast(s', u);
    } else {
      var u :| BeforeBroadcast(s, u);
      BroadcastStays(s, s', t, u);
    }
  }

  // One holder of the mutex.
  lemma LockKept(s: State, s': State, t: Tid)
    requires Inv(s) && Step(s, s', t)
    ensures forall w | w in s'.thr :: HoldsLock(s'.thr[w]) <==> s'.lock == Held(w)
  {
    assert forall w | w in s.thr && w != t :: s'.thr[w] == s.thr[w];
  }

  // Only threads at the condition sleep.
  lemma SleepersKept(s: State, s': State, t: Tid)
    requires Inv(s) && Step(s, s', t)
    ensures forall w | w in s'.sleepers :: w in s'.thr && s'.thr[w] == Asleep
  {
  }

  lemma StepInv(s: State, s': State, t: Tid)
    requires Inv(s) && Step(s, s', t)
    ensures Inv(s')
  {
    LockKept(s, s', t);
    SleepersKept(s, s', t);
    forall w | w in s'.thr && ((s'.thr[w] == WPred && s'.quit) || (s'.thr[w] == WSleep && MayProceed(s', w)))
      ensures exists u :: BeforeBarrier(s', u)
    {
      EvaluatorKept(s, s', t, w);
    }
    forall w | w in s'.sleepers && MayProceed(s', w)
      ensures exists u :: BeforeBroadcast(s', u)
    {
      SleeperKept(s, s', t, w);
    }
  }

  ghost predicate Next(s: State, s': State) {
    exists t :: Step(s, s', t)
  }

  ghost predicate Run(run: seq<State>) {
    Runs.IsRun(run, Init, Next)
  }

  lemma {:induction false} RunInv(run: seq<State>, i: nat)
    requires Run(run) && i < |run|
    ensures Inv(run[i])
  {
    assert Runs.Lawful(run, Init, Next, i);
    if i > 0 {
      RunInv(run, i - 1);
      var t :| Step(run[i - 1], run[i], t);
      StepInv(run[i - 1], run[i], t);
    }
  }

  /** No lost wake-up: while a thread sleeps although quit is set or its
      predicate would let it go, somebody is still on the way to a broadcast. */
  lemma NoLostWakeup(run: seq<State>, i: nat, t: Tid)
    requires Run(run) && i < |run| && t in run[i].sleepers && MayProceed(run[i], t)
    ensures exists u :: BeforeBroadcast(run[i], u)
  {
    RunInv(run, i);
  }

  /** So once every broadcast has run, whoever still sleeps has reason to. */
  lemma QuietSleepersAreBlocked(run: seq<State>, i: nat, t: Tid)
    requires Run(run) && i < |run| && t in run[i].sleepers
    requires forall u | u in run[i].thr :: !BeforeBroadcast(run[i], u)
    ensures !run[i].quit && t in run[i].blocked && run[i].blocked[t]
  {
    RunInv(run, i);
  }
}
