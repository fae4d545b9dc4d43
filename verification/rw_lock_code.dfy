/** The reader-writer lock as code over the word lc_, with the other threads
    running before every access.  Spinning ends only if the others let it, so a
    call comes with the number of times it is going to yield; when these are
    used up it is still waiting. */
module RwLockCode {
  import opened Basics
  import opened RwLock
  import Runs

  ghost predicate Reachable(s: State) {
    Runs.Reachable(s, Init, Next)
  }

  lemma ReachableInv(s: State)
    requires Reachable(s)
    ensures Inv(s)
  {
    var run := Runs.Witness(s, Init, Next);
    RunInv(run, |run| - 1);
  }

  lemma ReachableStep(s: State, s': State, t: Tid)
    requires Reachable(s) && Step(s, s', t)
    ensures Reachable(s')
  {
    assert Next(s, s');
    Runs.ReachableStep(s, s', Init, Next);
  }

  // Thread t waits for the readers or is inside, with the flag up.
  predicate HasTurn(pc: Pc) { pc == WDrain || pc == WIn }

  // While t has the flag, the readers only leave and nobody else gets it.
  ghost predicate TurnKept(s: State, s': State, t: Tid) {
    t in s.thr && HasTurn(s.thr[t]) ==> s'.writer == Writer(t) && s'.readers <= s.readers
  }

  ghost predicate OtherStep(s: State, s': State, t: Tid) {
    exists u :: u != t && Step(s, s', u)
  }

  lemma OneOtherStep(s: State, s': State, t: Tid)
    requires Reachable(s) && t in s.thr && OtherStep(s, s', t)
    ensures Reachable(s') && t in s'.thr && s'.thr[t] == s.thr[t] && TurnKept(s, s', t)
  {
    var u :| u != t && Step(s, s', u);
    ReachableInv(s);
    ReachableStep(s, s', u);
    WordReads(s);
  }

  /** Any sequence of steps by threads other than `t` keeps to the contract of
      Lock.Others. */
  lemma {:induction false} OthersKeepTheirContract(path: seq<State>, t: Tid, n: nat)
    requires n < |path| && Reachable(path[0]) && t in path[0].thr
    requires forall i | 0 < i < |path| :: OtherStep(path[i - 1], path[i], t)
    ensures var s, s' := path[0], path[n];
            Reachable(s') && t in s'.thr && s'.thr[t] == s.thr[t] && TurnKept(s, s', t)
  {
    if n > 0 {
      OthersKeepTheirContract(path, t, n - 1);
      OneOtherStep(path[n - 1], path[n], t);
    } else {
      ReachableInv(path[0]);
    }
  }

  lemma FlagAdded(w: nat)
    requires w < WORD && !HasFlag(w)
    ensures HasFlag(SetFlag(w)) && Count(SetFlag(w)) == w
  {
  }

  /** A caller that had seen the words in `before` has seen at least n more, and
      the last n it found bad. */
  ghost predicate SawLast(before: seq<nat>, looks: seq<nat>, n: nat, bad: nat -> bool) {
    && before <= looks && |before| + n <= |looks|
    && forall i | |looks| - n <= i < |looks| :: bad(looks[i])
  }

  predicate Busy(w: nat) { Count(w) != 0 }

  // How many of these words have the flag.
  function Flagged(looks: seq<nat>): nat {
    if looks == [] then 0
    else Flagged(looks[..|looks| - 1]) + if HasFlag(looks[|looks| - 1]) then 1 else 0
  }

  lemma OneMoreLook(looks: seq<nat>, w: nat)
    ensures Flagged(looks + [w]) == Flagged(looks) + if HasFlag(w) then 1 else 0
  {
    assert (looks + [w])[..|looks|] == looks;
  }

  ghost function Fresh(threads: set<Tid>): State {
    State(0, map t | t in threads :: Out, Nobody, {})
  }

  lemma FreshIsReachable(threads: set<Tid>)
    requires |threads| < W_FLAG
    ensures Reachable(Fresh(threads))
  {
    var s := Fresh(threads);
    assert s.thr.Keys == threads && |s.thr| == |s.thr.Keys|;
    assert Init(s);
    Runs.ReachableStart(s, Init, Next);
  }

  class Lock {
    var lc: nat
    ghost var st: State
    // Steps that the other threads still take, and failures that still happen.
    ghost var credit: nat
    // The words that the caller's accesses have seen so far.
    ghost var looks: seq<nat>

    /** A free lock for fewer than 2^31 threads. */
    constructor (ghost threads: set<Tid>)
      requires |threads| < W_FLAG
      ensures Valid() && lc == 0 && st.writer == Nobody && st.readers == {}
      ensures forall t | t in threads :: At(t, Out)
    {
      lc := 0;
      st := Fresh(threads);
      credit, looks := *, [];
      new;
      FreshIsReachable(threads);
    }

    ghost predicate Valid()
      reads this
    {
      Reachable(st) && st.lc == lc
    }

    ghost predicate At(t: Tid, pc: Pc)
      reads this
    {
      t in st.thr && st.thr[t] == pc
    }

    /** Before an access the other threads take any number of steps. */
    method Others(t: Tid)
      requires Valid() && t in st.thr
      modifies this
      ensures Valid() && At(t, old(st.thr[t])) && TurnKept(old(st), st, t) && looks == old(looks)
      ensures credit <= old(credit) && (credit == old(credit) ==> st == old(st))
    {
      ReachableInv(st);
    }

    // Whether a weak compare-and-swap fails for no reason.
    method Spurious() returns (b: bool)
      modifies `credit
      ensures credit <= old(credit) && (b ==> credit < old(credit))
    {
      b := false;
    }

    ghost method Moves(t: Tid, s': State)
      requires Reachable(st) && Step(st, s', t)
      modifies `st
      ensures st == s' && Reachable(st) && Inv(st)
    {
      ReachableStep(st, s', t);
      ReachableInv(s');
      st := s';
    }

    ghost function Went(t: Tid, pc: Pc): State
      reads this
    {
      st.(thr := st.thr[t := pc])
    }

    /** The fetch_or of lock: the caller is the writer, or has the flag and
        waits for readers, or goes round again. */
    method RaiseFlag(t: Tid) returns (was: nat)
      requires Valid() && At(t, WSet)
      modifies this
      ensures Valid() && At(t, if was == 0 then WIn else if !HasFlag(was) then WDrain else WSet)
      ensures was < WORD && credit <= old(credit) && looks == old(looks) + [was]
      ensures credit == old(credit) ==> was == old(lc) && lc == SetFlag(was)
    {
      Others(t);
      ReachableInv(st);
      WordReads(st);
      was, looks := lc, looks + [lc];
      lc := SetFlag(was);
      var s' := Went(t, if was == 0 then WIn else if !HasFlag(was) then WDrain else WSet);
      Moves(t, s'.(lc := lc, writer := if HasFlag(was) then st.writer else Writer(t)));
    }

    method LoadReaders(t: Tid) returns (left: nat)
      requires Valid() && At(t, WDrain)
      modifies this
      ensures Valid() && At(t, if left == 0 then WIn else WDrain)
      ensures credit <= old(credit) && (credit == old(credit) ==> lc == old(lc) && left == Count(lc))
      ensures left <= |old(st.readers)|
      ensures exists w: nat :: looks == old(looks) + [w] && left == Count(w)
    {
      ReachableInv(st);
      Others(t);
      ReachableInv(st);
      WordReads(st);
      SubsetSize(st.readers, old(st.readers));
      left, looks := Count(lc), looks + [lc];
      Moves(t, Went(t, if left == 0 then WIn else WDrain));
    }

    /** The first loop of lock: raise the flag until it was not up before. */
    method Contend(t: Tid, patience: nat) returns (was: nat)
      requires Valid() && At(t, WSet)
      modifies this
      ensures Valid() && At(t, if was == 0 then WIn else if !HasFlag(was) then WDrain else WSet)
      ensures was < WORD && credit <= old(credit) && (credit == old(credit) ==> was == old(lc) && lc == SetFlag(was))
      ensures old(looks) < looks && (HasFlag(was) ==> SawLast(old(looks), looks, patience + 1, HasFlag))
    {
      was := RaiseFlag(t);
      var k := 0;
      while HasFlag(was) && k < patience
        invariant Valid() && At(t, if was == 0 then WIn else if !HasFlag(was) then WDrain else WSet)
        invariant was < WORD && credit <= old(credit) && (credit == old(credit) ==> was == old(lc) && lc == SetFlag(was))
        invariant k <= patience && old(looks) < looks
        invariant HasFlag(was) ==> SawLast(old(looks), looks, k + 1, HasFlag)
        decreases patience - k
      {
        k := k + 1;
        was := RaiseFlag(t);
      }
    }

    /** lock.  A caller that is let in is the only one inside, and the flag is
        all there is in the word.  A caller that is still waiting has looked
        patience + 1 times since it last had to, and has found another writer's
        flag each time, or readers each time.  With no interference it gets in
        exactly when the word was 0. */
    method Acquire(t: Tid, patience: nat) returns (entered: bool)
      requires Valid() && At(t, Out)
      modifies this
      ensures Valid() && (entered <==> At(t, WIn)) && (!entered ==> At(t, WSet) || At(t, WDrain))
      ensures entered ==> st.writer == Writer(t) && st.readers == {} && lc == W_FLAG
      ensures !entered && At(t, WSet) ==> SawLast(old(looks), looks, patience + 1, HasFlag)
      ensures !entered && At(t, WDrain) ==> SawLast(old(looks), looks, patience + 1, Busy)
      ensures credit >= old(credit) ==> (entered <==> old(lc) == 0)
    {
      ReachableInv(st);
      WordReads(st);
      Moves(t, Went(t, WSet));
      var was := Contend(t, patience);
      entered := was == 0;
      if was != 0 && !HasFlag(was) {
        FlagAdded(was);
        entered := Drain(t, patience);
      }
      ReachableInv(st);
    }

    /** The second loop of lock: wait for the readers to leave. */
    method Drain(t: Tid, patience: nat) returns (entered: bool)
      requires Valid() && At(t, WDrain)
      modifies this
      ensures Valid() && At(t, if entered then WIn else WDrain)
      ensures credit <= old(credit)
      ensures old(looks) <= looks && (!entered ==> SawLast(old(looks), looks, patience + 1, Busy))
      ensures credit == old(credit) ==> (entered <==> Count(old(lc)) == 0)
    {
      var left := LoadReaders(t);
      var k := 0;
      while left != 0 && k < patience
        invariant Valid() && At(t, if left == 0 then WIn else WDrain)
        invariant credit <= old(credit)
        invariant credit == old(credit) ==> lc == old(lc) && left == Count(lc)
        invariant k <= patience && old(looks) <= looks
        invariant left != 0 ==> SawLast(old(looks), looks, k + 1, Busy)
        decreases patience - k
      {
        k := k + 1;
        left := LoadReaders(t);
      }
      entered := left == 0;
    }

    /** unlock.  The store of 0 takes down the caller's flag and nothing else. */
    method Release(t: Tid)
      requires Valid() && At(t, WIn)
      modifies this
      ensures Valid() && At(t, Out) && lc == 0 && st.readers == {} && st.writer == Nobody
    {
      ReachableInv(st);
      Others(t);
      ReachableInv(st);
      lc := 0;
      Moves(t, Went(t, Out).(lc := 0, writer := Nobody));
    }

    method LoadWord(t: Tid) returns (seen: nat)
      requires Valid() && At(t, RLoad)
      modifies this
      ensures Valid() && At(t, RTry(seen)) && credit <= old(credit) && (credit == old(credit) ==> seen == lc == old(lc))
      ensures looks == old(looks) + [seen]
    {
      Others(t);
      seen, looks := lc, looks + [lc];
      Moves(t, Went(t, RTry(seen)));
    }

    method Reload(t: Tid, ghost seen: nat) returns (now: nat)
      requires Valid() && At(t, RTry(seen))
      modifies this
      ensures Valid() && At(t, RTry(now)) && credit <= old(credit) && (credit == old(credit) ==> now == lc == old(lc))
      ensures looks == old(looks) + [now]
    {
      Others(t);
      now, looks := lc, looks + [lc];
      Moves(t, Went(t, RTry(now)));
    }

    method CasCount(t: Tid, seen: nat) returns (ok: bool, now: nat)
      requires Valid() && At(t, RTry(seen)) && !HasFlag(seen)
      modifies this
      ensures Valid() && At(t, if ok then RIn else RTry(now)) && now < WORD
      ensures ok ==> st.writer == Nobody && t in st.readers && lc == |st.readers|
      ensures credit <= old(credit)
      ensures !ok ==> credit < old(credit) || old(lc) != seen
      ensures !ok ==> now == lc && (credit == old(credit) ==> lc == old(lc))
      ensures looks == old(looks) + [now]
    {
      Others(t);
      ReachableInv(st);
      WordReads(st);
      var fails := Spurious();
      now, looks := lc, looks + [lc];
      ok := lc == seen && !fails;
      if ok {
        lc := Add(lc, 1);
        Moves(t, Went(t, RIn).(lc := lc, readers := st.readers + {t}));
      } else {
        Moves(t, Went(t, RTry(now)));
      }
    }

    // One round of lock_shared: past a flag a load, otherwise the swap.
    method LookAgain(t: Tid, seen: nat) returns (ok: bool, now: nat)
      requires Valid() && At(t, RTry(seen))
      modifies this
      ensures Valid() && At(t, if ok then RIn else RTry(now)) && looks == old(looks) + [now]
      ensures Flagged(looks) == Flagged(old(looks)) + if HasFlag(now) then 1 else 0
      ensures ok ==> st.writer == Nobody && t in st.readers && lc == |st.readers| && !HasFlag(seen)
      ensures credit <= old(credit) && (!ok && credit == old(credit) ==> now == lc == old(lc))
      ensures !ok && !HasFlag(seen) ==> credit < old(credit) || old(lc) != seen
    {
      if HasFlag(seen) {
        ok := false;
        now := Reload(t, seen);
      } else {
        ok, now := CasCount(t, seen);
      }
      OneMoreLook(old(looks), now);
    }

    /** lock_shared.  A caller that is let in is counted, and no writer has the
        flag.  A caller that is still waiting has found a writer's flag patience + 1
        times, the last time it looked included.  With no interference it gets in
        exactly when no writer has the flag as it begins. */
    method AcquireShared(t: Tid, patience: nat) returns (entered: bool)
      requires Valid() && At(t, Out)
      modifies this
      ensures Valid() && (entered <==> At(t, RIn)) && (!entered ==> t in st.thr && st.thr[t].RTry?)
      ensures entered ==> st.writer == Nobody && t in st.readers && lc == |st.readers|
      ensures !entered ==>
        && old(looks) < looks && HasFlag(looks[|looks| - 1])
        && Flagged(looks) == Flagged(old(looks)) + patience + 1
      ensures credit >= old(credit) ==> (entered <==> !HasFlag(old(lc)))
    {
      Moves(t, Went(t, RLoad));
      var seen := LoadWord(t);
      OneMoreLook(old(looks), seen);
      var k := 0;
      while true
        invariant Valid() && At(t, RTry(seen))
        invariant credit <= old(credit) && (credit == old(credit) ==> seen == lc == old(lc))
        invariant old(looks) < looks && looks[|looks| - 1] == seen && k <= patience
        invariant Flagged(looks) == Flagged(old(looks)) + k + if HasFlag(seen) then 1 else 0
        decreases patience - k, credit, seen != lc
      {
        if HasFlag(seen) {
          if k >= patience {
            return false;
          }
          k := k + 1;
        }
        entered, seen := LookAgain(t, seen);
        if entered {
          return;
        }
      }
    }

    /** unlock_shared takes the caller out of the count. */
    method ReleaseShared(t: Tid)
      requires Valid() && At(t, RIn)
      modifies this
      ensures Valid() && At(t, Out) && t !in st.readers && Count(lc) == |st.readers|
      ensures credit == old(credit) ==> st.readers == old(st.readers) - {t}
    {
      Others(t);
      lc := Add(lc, WORD - 1);
      Moves(t, Went(t, Out).(lc := lc, readers := st.readers - {t}));
      WordReads(st);
    }
  }
}
