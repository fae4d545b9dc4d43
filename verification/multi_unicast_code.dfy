/** push and pop of the many-producer, many-consumer unicast ring as code over
    the shared fields, with the other threads running before every access.

    `st` is the same memory with its history, and it is always a state that some
    run of MultiUnicast reaches: each access below is one of its transitions.
    A call ends because every retry is paid for by somebody else's step or by a
    spurious failure, of which finitely many happen while it runs. */
module MultiUnicastCode {
  import opened Ring
  import opened MultiUnicast
  import Runs

  ghost predicate Reachable(s: State) {
    Runs.Reachable(s, Init, Next)
  }

  lemma ReachableInv(s: State)
    requires Reachable(s)
    ensures Inv(s)
  {
    var run := Runs.Witness(s, Init, Next);
    RunInv(run, |run| - 1);
  }

  lemma ReachableSized(s: State)
    requires Reachable(s)
    ensures WellSized(s.mem)
  {
    ReachableInv(s);
  }

  lemma WtInReach(s: State)
    requires Reachable(s)
    ensures s.mem.rd <= s.mem.wt <= s.mem.ct < s.mem.rd + N
    ensures Slot(s.mem.rd) == Slot(s.mem.wt) <==> s.mem.rd == s.mem.wt
  {
    ReachableInv(s);
  }

  lemma FullOrPassed(rd: nat, ct: nat, i: nat)
    requires i <= ct < rd + N && Slot(i + 1) == Slot(rd)
    ensures i < rd || ct == rd + N - 1
  {
    if rd <= i < rd + N - 1 {
      WithinARound(rd, i + 1);
    }
  }

  // What a consumer relies on when it moves rd.
  lemma CopyIsTheMessage(s: State, t: Tid)
    requires Reachable(s) && t in s.thr && s.thr[t].CCopy? && Whole(s.thr[t].done, s.mem.size)
    ensures WellSized(s.mem)
    ensures s.thr[t].cur == s.mem.rd ==> s.mem.rd < |s.mem.log| && s.thr[t].buff == s.mem.log[s.mem.rd]
  {
    ReachableInv(s);
    assert PcOk(s.mem, t, s.thr[t]);
    if s.thr[t].cur == s.mem.rd {
      TakeMem(s.mem, s.thr[t].buff, s.thr[t].done);
    }
  }

  // What whoever clears a flag relies on.
  lemma SeenFlagIsAtWt(s: State, w: nat, cac: Flag, t: Tid)
    requires Reachable(s) && t in s.thr && (s.thr[t] == PClear(w, cac) || s.thr[t] == CClear(w, cac))
    ensures WellSized(s.mem)
    ensures s.mem.cells[Slot(w)].flag == cac ==> s.mem.wt == w < s.mem.ct
  {
    ReachableInv(s);
    assert PcOk(s.mem, t, s.thr[t]);
    if s.mem.cells[Slot(w)].flag == cac {
      FlagAtWt(s.mem, w);
    }
  }

  // And a producer when it moves ct.
  lemma LogEndsAtCt(s: State)
    requires Reachable(s)
    ensures WellSized(s.mem) && |s.mem.log| == s.mem.ct
  {
    ReachableInv(s);
  }

  lemma ReachableStep(s: State, s': State, t: Tid)
    requires Reachable(s) && Inv(s) && Step(s, s', t, false)
    ensures Reachable(s')
  {
    assert Next(s, s');
    Runs.ReachableStep(s, s', Init, Next);
  }

  /** What steps never take back. */
  ghost predicate Grows(m: Mem, m': Mem) {
    && m'.size == m.size
    && m.rd <= m'.rd && m.wt <= m'.wt && m.ct <= m'.ct
    && m.log <= m'.log
  }

  lemma StepGrows(s: State, s': State, t: Tid)
    requires Inv(s) && Step(s, s', t, false)
    ensures Grows(s.mem, s'.mem)
  {
    if s.thr[t].PStoreWt? || s.thr[t].CStoreWt? {
      assert PcOk(s.mem, t, s.thr[t]);
    }
  }

  /** Index i is not taken back to an earlier stage (see MultiUnicast.Stage). */
  ghost predicate NoStageBack(m: Mem, m': Mem, i: nat) {
    Window(m) && Window(m') && Stage(m, i) <= Stage(m', i)
  }

  // A raised flag below wt + 1 is at wt, and nobody is advancing over it.
  lemma PastItsFlag(s: State, i: nat)
    requires Reachable(s) && i < s.mem.ct
    ensures Window(s.mem) && |s.mem.cells| == N
    ensures Stage(s.mem, i) >= 2 && s.mem.cells[Slot(i)].flag != Commit(i) ==> Stage(s.mem, i) >= 3
    ensures Stage(s.mem, i) >= 3 && s.mem.wt == i ==> s.mem.cells[Slot(i)].flag != Commit(i)
  {
    ReachableInv(s);
    if s.mem.wt <= i {
      OwnersPlay(s, i);
    }
  }

  ghost predicate OtherStep(s: State, s': State, t: Tid) {
    WellSized(s.mem) && exists u :: u != t && Step(s, s', u, false)
  }

  lemma OneOtherStep(s: State, s': State, t: Tid, i: nat)
    requires Reachable(s) && t in s.thr && OtherStep(s, s', t)
    ensures Reachable(s') && t in s'.thr && s'.thr[t] == s.thr[t]
    ensures Grows(s.mem, s'.mem) && NoStageBack(s.mem, s'.mem, i)
  {
    ReachableInv(s);
    var u :| u != t && Step(s, s', u, false);
    ReachableStep(s, s', u);
    StepGrows(s, s', u);
    StageStep(s, s', u, i);
  }

  /** Any sequence of steps by threads other than `t` keeps to the contract of
      Fifo.Others: it leaves t where it was and takes nothing back, whichever
      index i one looks at. */
  lemma {:induction false} OthersKeepTheirContract(path: seq<State>, t: Tid, i: nat, n: nat)
    requires n < |path| && Reachable(path[0]) && t in path[0].thr
    requires forall j | 0 < j < |path| :: OtherStep(path[j - 1], path[j], t)
    ensures var s, s' := path[0], path[n];
            && Reachable(s') && t in s'.thr && s'.thr[t] == s.thr[t]
            && Grows(s.mem, s'.mem) && NoStageBack(s.mem, s'.mem, i)
  {
    if n > 0 {
      OthersKeepTheirContract(path, t, i, n - 1);
      OneOtherStep(path[n - 1], path[n], t, i);
    } else {
      ReachableInv(path[0]);
    }
  }

  ghost function Fresh(size: nat, c: Cell, threads: set<Tid>): State {
    State(Mem(size, 0, 0, 0, seq(N, _ => c), [], [], map[]), map t | t in threads :: Idle)
  }

  lemma FreshIsReachable(size: nat, c: Cell, threads: set<Tid>)
    requires c.flag == Zero && |c.data| == size
    ensures Reachable(Fresh(size, c, threads))
  {
    var s := Fresh(size, c, threads);
    assert Init(s);
    Runs.ReachableStart(s, Init, Next);
  }

  class Fifo {
    var rd: nat
    var wt: nat
    var ct: nat
    const elems: array<Cell>
    ghost var st: State
    // Steps that the other threads still take, and failures that still happen.
    ghost var credit: nat
    // How often the thread whose call this is has moved ct and moved rd.
    ghost var claims: nat
    ghost var takes: nat
    // The index its stage is asked of.
    ghost var mine: nat

    /** An empty ring for messages of the given size and these threads. */
    constructor (size: nat, ghost threads: set<Tid>)
      ensures Valid() && st.mem.size == size && st.mem.log == [] && st.mem.taken == []
      ensures forall t | t in threads :: At(t, Idle)
    {
      var c := Cell(seq(size, _ => 0), Zero);
      elems := new Cell[N](_ => c);
      rd, wt, ct := 0, 0, 0;
      st := Fresh(size, c, threads);
      credit, claims, takes, mine := *, 0, 0, 0;
      new;
      FreshIsReachable(size, c, threads);
      assert elems[..] == st.mem.cells;
    }

    ghost predicate Valid()
      reads this, elems
    {
      && Reachable(st) && elems.Length == N
      && st.mem.rd == rd && st.mem.wt == wt && st.mem.ct == ct
      && st.mem.cells == elems[..]
    }

    ghost predicate At(t: Tid, pc: Pc)
      reads this
    {
      t in st.thr && st.thr[t] == pc
    }

    // Nothing is taken back, and the caller moved ct and rd this often.
    twostate predicate Did(claimed: nat, took: nat)
      reads this
    {
      && Grows(old(st.mem), st.mem)
      && claims == old(claims) + claimed && takes == old(takes) + took
    }

    // The indices are as they were, or less credit is left.
    twostate predicate Still()
      reads this
    {
      credit <= old(credit) && (credit == old(credit) ==> rd == old(rd) && wt == old(wt) && ct == old(ct))
    }

    twostate predicate Kept()
      reads this
    {
      mine == old(mine) && NoStageBack(old(st.mem), st.mem, mine)
    }

    // Nobody else has moved, or less credit is left.
    twostate predicate Paid(before: Mem)
      reads this
    {
      credit <= old(credit) && (credit == old(credit) ==> st.mem == before)
    }

    /** Before an access the other threads take any number of steps.  Whatever
        they do keeps to this contract (see OthersKeepTheirContract). */
    method Others(t: Tid)
      requires Valid() && t in st.thr
      modifies this, elems
      ensures Valid() && At(t, old(st.thr[t])) && Did(0, 0) && Kept()
      ensures Paid(old(st.mem))
    {
      ReachableInv(st);
    }

    // Whether a weak compare-and-swap fails for no reason.
    method Spurious() returns (b: bool)
      modifies `credit
      ensures credit <= old(credit) && (b ==> credit < old(credit))
    {
      b := false;
    }

    // The transition of thread t that goes with its access.
    ghost method Moves(t: Tid, m': Mem, pc': Pc)
      requires Reachable(st) && t in st.thr && WellSized(st.mem)
      requires || Call(st.mem, m', st.thr[t], pc')
               || Push(st.mem, m', t, st.thr[t], pc', false)
               || Pop(st.mem, m', t, st.thr[t], pc', false)
      modifies `st, `claims, `takes
      ensures st == State(m', old(st.thr)[t := pc']) && Reachable(st)
      ensures Did(if m'.ct == old(st.mem.ct) then 0 else 1, if m'.rd == old(st.mem.rd) then 0 else 1)
      ensures Kept()
    {
      var s' := State(m', st.thr[t := pc']);
      ReachableInv(st);
      assert Step(st, s', t, false);
      StepGrows(st, s', t);
      StageStep(st, s', t, mine);
      ReachableStep(st, s', t);
      claims := if m'.ct == st.mem.ct then claims else claims + 1;
      takes := if m'.rd == st.mem.rd then takes else takes + 1;
      st := s';
    }

    // -------------------------------------------------------------- push

    method LoadCt(t: Tid, m: Msg) returns (cur: nat)
      requires Valid() && At(t, PLoadCt(m))
      modifies this, elems
      ensures Valid() && At(t, PLoadRd(m, cur)) && cur == ct
      ensures Did(0, 0) && Paid(old(st.mem))
    {
      Others(t);
      ReachableSized(st);
      cur := ct;
      Moves(t, st.mem, PLoadRd(m, cur));
    }

    method TestFull(t: Tid, m: Msg, cur: nat) returns (full: bool)
      requires Valid() && At(t, PLoadRd(m, cur))
      modifies this, elems
      ensures Valid() && At(t, if full then Idle else PCasCt(m, cur))
      ensures full <==> Slot(cur + 1) == Slot(rd)
      ensures Did(0, 0) && Paid(old(st.mem))
    {
      Others(t);
      ReachableSized(st);
      full := Slot(cur + 1) == Slot(rd);
      Moves(t, st.mem, if full then Idle else PCasCt(m, cur));
    }

    // The swap of ct that succeeds.
    method TakeIndex(t: Tid, m: Msg)
      requires Valid() && At(t, PCasCt(m, ct))
      modifies this, elems
      ensures Valid() && At(t, PWrite(m, old(ct), {})) && Did(1, 0)
      ensures old(ct) < |st.mem.log| && st.mem.log[old(ct)] == m
      ensures credit == old(credit) && rd == old(rd) && wt == old(wt) && ct == old(ct) + 1
    {
      LogEndsAtCt(st);
      Moves(t, Claim(st.mem, t, m), PWrite(m, ct, {}));
      ct := ct + 1;
    }

    method CasCt(t: Tid, m: Msg, cur: nat) returns (ok: bool)
      requires Valid() && At(t, PCasCt(m, cur))
      modifies this, elems
      ensures Valid() && At(t, if ok then PWrite(m, cur, {}) else PLoadCt(m))
      ensures Did(if ok then 1 else 0, 0)
      ensures ok ==> old(st.mem.ct) <= cur < |st.mem.log| && st.mem.log[cur] == m
      ensures credit <= old(credit) && (credit == old(credit) && old(ct) == cur ==> ok)
      ensures credit == old(credit) ==> rd == old(rd) && wt == old(wt) && ct == old(ct) + (if ok then 1 else 0)
    {
      Others(t);
      ReachableSized(st);
      var fails := Spurious();
      ok := ct == cur && !fails;
      if ok {
        TakeIndex(t, m);
      } else {
        Moves(t, st.mem, PLoadCt(m));
      }
    }

    /** The producer writes its message, byte by byte. */
    method WriteBlock(t: Tid, m: Msg, cur: nat)
      requires Valid() && At(t, PWrite(m, cur, {})) && |m| == st.mem.size
      modifies this, elems
      ensures Valid() && t in st.thr && st.thr[t].PWrite? && st.thr[t] == PWrite(m, cur, st.thr[t].done)
      ensures Whole(st.thr[t].done, st.mem.size) && Did(0, 0) && Still()
    {
      var k := 0;
      ghost var done: set<nat> := {};
      while k < |m|
        invariant 0 <= k <= |m| && |m| == st.mem.size
        invariant Valid() && At(t, PWrite(m, cur, done))
        invariant forall j: nat :: j in done <==> j < k
        invariant Did(0, 0) && Still()
      {
        WriteOne(t, m, cur, done, k);
        done := done + {k};
        k := k + 1;
      }
    }

    method WriteOne(t: Tid, m: Msg, cur: nat, ghost done: set<nat>, k: nat)
      requires Valid() && At(t, PWrite(m, cur, done)) && k < |m| == st.mem.size && k !in done
      modifies this, elems
      ensures Valid() && At(t, PWrite(m, cur, done + {k})) && Did(0, 0) && Still()
    {
      Others(t);
      ReachableSized(st);
      var c := elems[Slot(cur)];
      Moves(t, WriteByte(st.mem, cur, k, m[k]), PWrite(m, cur, done + {k}));
      elems[Slot(cur)] := c.(data := c.data[k := m[k]]);
    }

    method RaiseFlag(t: Tid, m: Msg, cur: nat)
      requires Valid() && t in st.thr && st.thr[t].PWrite? && st.thr[t] == PWrite(m, cur, st.thr[t].done)
      requires Whole(st.thr[t].done, st.mem.size)
      modifies this, elems
      ensures Valid() && At(t, PLoadFlag(cur)) && Did(0, 0) && Still() && CommittedAt(cur) && Reached(cur)
    {
      mine := cur;
      Others(t);
      ReachableSized(st);
      var c := elems[Slot(cur)];
      Moves(t, StoreFlag(st.mem, cur, Commit(cur), Flagged), PLoadFlag(cur));
      elems[Slot(cur)] := c.(flag := Commit(cur));
      ReachableInv(st);
    }

    method LoadFlag(t: Tid, cur: nat) returns (cac: Flag)
      requires Valid() && At(t, PLoadFlag(cur))
      modifies this, elems
      ensures Valid() && At(t, PLoadWt(cur, cac)) && Did(0, 0) && Kept() && Paid(old(st.mem))
      ensures cac == st.mem.cells[Slot(cur)].flag
      ensures old(Reached(cur)) && cac != Commit(cur) ==> Stage(st.mem, cur) >= 3
    {
      Others(t);
      ReachableSized(st);
      if old(Reached(cur)) {
        PastItsFlag(st, cur);
      }
      cac := elems[Slot(cur)].flag;
      Moves(t, st.mem, PLoadWt(cur, cac));
    }

    method MayAdvance(t: Tid, cur: nat, cac: Flag) returns (go: bool)
      requires Valid() && At(t, PLoadWt(cur, cac))
      modifies this, elems
      ensures Valid() && At(t, if go then PClear(cur, cac) else Idle)
      ensures Did(0, 0) && Kept() && Paid(old(st.mem))
      ensures go <==> cur == wt && cac == Commit(cur)
    {
      Others(t);
      ReachableSized(st);
      go := cur == wt && cac == Commit(cur);
      Moves(t, st.mem, if go then PClear(cur, cac) else Idle);
    }

    method CasFlag(t: Tid, cur: nat, cac: Flag) returns (ok: bool)
      requires Valid() && At(t, PClear(cur, cac))
      modifies this, elems
      ensures Valid() && At(t, if ok then PStoreWt(cur) else Idle)
      ensures ok ==> wt == cur < ct
      ensures Did(0, 0) && credit <= old(credit) && (credit == old(credit) ==> ct == old(ct))
      ensures !ok ==> credit < old(credit) || old(st.mem.cells[Slot(cur)]).flag != cac
      ensures Kept() && (!ok ==> elems[Slot(cur)].flag != cac)
    {
      Others(t);
      SeenFlagIsAtWt(st, cur, cac, t);
      var c := elems[Slot(cur)];
      ok := c.flag == cac;
      if ok {
        Moves(t, StoreFlag(st.mem, cur, Zero, Advancing(t)), PStoreWt(cur));
        elems[Slot(cur)] := c.(flag := Zero);
      } else {
        Moves(t, st.mem, Idle);
      }
    }

    method RaiseWt(t: Tid, cur: nat)
      requires Valid() && At(t, PStoreWt(cur))
      modifies this, elems
      ensures Valid() && At(t, PLoadFlag(cur + 1)) && wt == cur + 1
      ensures Did(0, 0) && Kept() && credit <= old(credit) && (credit == old(credit) ==> ct == old(ct))
    {
      Others(t);
      ReachableSized(st);
      Moves(t, StoreWt(st.mem, cur), PLoadFlag(cur + 1));
      wt := cur + 1;
    }

    /** The caller's two loads met the test: cur was ct at some moment of the call,
        from `before` on, and rd is one round ahead of it now. */
    ghost predicate FoundFull(before: nat, cur: nat)
      reads this
    {
      before <= cur <= ct && Slot(cur + 1) == Slot(rd)
    }

    // One round of the first loop of push.
    method ClaimRound(t: Tid, m: Msg) returns (again: bool, ok: bool, cur: nat)
      requires Valid() && At(t, PLoadCt(m))
      modifies this, elems
      ensures Valid() && At(t, if again then PLoadCt(m) else if ok then PWrite(m, cur, {}) else Idle)
      ensures Did(if ok then 1 else 0, 0)
      ensures ok ==> !again && old(ct) <= cur < |st.mem.log| && st.mem.log[cur] == m
      ensures credit <= old(credit) && (again ==> credit < old(credit))
      ensures !ok && !again ==> FoundFull(old(ct), cur)
      ensures !again && credit >= old(credit) ==> cur == old(ct) && rd == old(rd) && wt == old(wt) && ct == old(ct) + (if ok then 1 else 0)
      ensures ok && credit >= old(credit) ==> Slot(old(ct) + 1) != Slot(old(rd))
    {
      cur := LoadCt(t, m);
      var full := TestFull(t, m, cur);
      again, ok := false, false;
      if !full {
        ok := CasCt(t, m, cur);
        again := !ok;
      }
    }

    /** push, first loop: claim an index or find the ring full. */
    method ClaimIndex(t: Tid, m: Msg) returns (ok: bool, cur: nat)
      requires Valid() && At(t, PLoadCt(m))
      modifies this, elems
      ensures Valid() && At(t, if ok then PWrite(m, cur, {}) else Idle) && Did(if ok then 1 else 0, 0)
      ensures ok ==> old(ct) <= cur < |st.mem.log| && st.mem.log[cur] == m
      ensures !ok ==> FoundFull(old(ct), cur)
      ensures credit <= old(credit)
      ensures credit == old(credit) ==> cur == old(ct) && rd == old(rd) && wt == old(wt) && ct == old(ct) + (if ok then 1 else 0)
      ensures ok && credit == old(credit) ==> Slot(old(ct) + 1) != Slot(old(rd))
    {
      while true
        invariant Valid() && At(t, PLoadCt(m)) && Did(0, 0)
        invariant credit <= old(credit) && (credit == old(credit) ==> st.mem == old(st.mem))
        decreases credit
      {
        var again;
        again, ok, cur := ClaimRound(t, m);
        if !again {
          return;
        }
      }
    }

    ghost predicate CommittedAt(i: nat)
      requires Valid()
      reads this, elems
    {
      st.mem.cells[Slot(i)].flag == Commit(i)
    }

    // The watched index is i, and its flag has been raised.
    ghost predicate Reached(i: nat)
      reads this
    {
      mine == i && Window(st.mem) && Stage(st.mem, i) >= 2
    }

    // Nobody can find the flag of i up with i next in line.
    ghost predicate Settled(i: nat)
      requires Valid()
      reads this, elems
    {
      wt == i ==> !CommittedAt(i)
    }

    // The two loads a round of the second loop of push starts with.
    method SeeCommitted(t: Tid, cur: nat) returns (go: bool, cac: Flag)
      requires Valid() && At(t, PLoadFlag(cur))
      modifies this, elems
      ensures Valid() && At(t, if go then PClear(cur, cac) else Idle) && Did(0, 0) && Kept() && Paid(old(st.mem))
      ensures !go && old(Reached(cur)) ==> Settled(cur)
      ensures cac == Commit(cur) || !go
      ensures credit == old(credit) ==> (go <==> wt == cur && CommittedAt(cur))
    {
      cac := LoadFlag(t, cur);
      go := MayAdvance(t, cur, cac);
      if !go && old(Reached(cur)) {
        PastItsFlag(st, cur);
      }
    }

    // Clear the flag and store wt + 1, or find the flag cleared.
    method PassOver(t: Tid, cur: nat, cac: Flag) returns (ok: bool)
      requires Valid() && At(t, PClear(cur, cac)) && cac == Commit(cur)
      modifies this, elems
      ensures Valid() && At(t, if ok then PLoadFlag(cur + 1) else Idle) && Did(0, 0) && Kept()
      ensures if ok then wt == cur + 1 <= ct else !CommittedAt(cur)
      ensures credit <= old(credit) && (credit == old(credit) ==> ct == old(ct))
      ensures credit == old(credit) && old(CommittedAt(cur)) ==> ok
    {
      ok := CasFlag(t, cur, cac);
      if ok {
        RaiseWt(t, cur);
      }
    }

    // One round of the second loop of push.
    method AdvanceOne(t: Tid, cur: nat) returns (more: bool)
      requires Valid() && At(t, PLoadFlag(cur))
      modifies this, elems
      ensures Valid() && At(t, if more then PLoadFlag(cur + 1) else Idle) && Did(0, 0) && Kept()
      ensures !more && old(Reached(cur)) ==> Settled(cur)
      ensures more ==> wt == cur + 1 <= ct
      ensures credit <= old(credit) && (credit == old(credit) ==> ct == old(ct))
      ensures !more && credit == old(credit) ==> wt == old(wt) && (wt == cur ==> !CommittedAt(cur))
      ensures !more && credit == old(credit) ==> !(old(wt) == cur && old(CommittedAt(cur)))
    {
      var go, cac := SeeCommitted(t, cur);
      if !go {
        return false;
      }
      more := PassOver(t, cur, cac);
    }

    /** push, second loop: advance wt over this index and any committed after it,
        until somebody else is seen to do so.  It never leaves its own index
        committed and next in line, whatever the others do; with no interference it
        passes its own index and leaves nothing committed at wt. */
    method AdvanceWt(t: Tid, first: nat)
      requires Valid() && At(t, PLoadFlag(first)) && Reached(first)
      modifies this, elems
      ensures Valid() && At(t, Idle) && Did(0, 0) && Reached(first) && Settled(first)
      ensures credit <= old(credit) && (credit == old(credit) ==> ct == old(ct))
      ensures credit == old(credit) && old(wt) == first ==> !CommittedAt(wt)
      ensures credit == old(credit) && old(wt) == first && old(CommittedAt(first)) ==> wt > first
    {
      var cur: nat, nxt: nat := first, first + 1;
      while true
        invariant Valid() && At(t, PLoadFlag(cur)) && nxt == cur + 1 && Did(0, 0)
        invariant credit <= old(credit) && (credit == old(credit) ==> ct == old(ct))
        invariant Reached(first) && (first < cur ==> first < wt)
        invariant first <= cur && (credit == old(credit) && old(wt) == first ==> wt == cur)
        invariant credit == old(credit) && cur == first ==> st.mem == old(st.mem)
        decreases credit, ct - cur
      {
        var more := AdvanceOne(t, cur);
        if !more {
          return;
        }
        cur, nxt := nxt, nxt + 1;
      }
    }

    /** push, after the claim. */
    method CommitBlock(t: Tid, m: Msg, cur: nat)
      requires Valid() && At(t, PWrite(m, cur, {})) && |m| == st.mem.size
      modifies this, elems
      ensures Valid() && At(t, Idle) && Did(0, 0) && Reached(cur) && Settled(cur)
      ensures credit <= old(credit)
      ensures credit == old(credit) ==> ct == old(ct) && (old(wt) == cur ==> wt > cur)
    {
      WriteBlock(t, m, cur);
      RaiseFlag(t, m, cur);
      AdvanceWt(t, cur);
    }

    /** push.  It claims one index exactly when it returns true; the message is
        then in the log, at an index still to be claimed when the call began, its
        flag has been raised, and wt is past it or is left to somebody else.  A
        refusal means that its own last loads of ct and rd met the test, whatever
        the others did: the ring is full at the last one, unless the others have
        claimed and taken index i meanwhile.  With no interference and nothing to help with it leaves
        nothing between wt and ct. */
    method PushMsg(t: Tid, m: Msg) returns (ok: bool, ghost i: nat)
      requires Valid() && At(t, Idle) && |m| == st.mem.size
      modifies this, elems
      ensures Valid() && At(t, Idle) && Did(if ok then 1 else 0, 0)
      ensures ok ==> old(ct) <= i < |st.mem.log| && st.mem.log[i] == m
      ensures if ok then Reached(i) && Settled(i) else FoundFull(old(ct), i) && (i < rd || ct == rd + N - 1)
      ensures credit >= old(credit) ==> i == old(ct) && (ok <==> Slot(old(ct) + 1) != Slot(old(rd)))
      ensures ok && credit >= old(credit) && old(wt) == old(ct) ==> wt == ct == old(ct) + 1
    {
      ReachableSized(st);
      Moves(t, st.mem, PLoadCt(m));
      var cur;
      ok, cur := ClaimIndex(t, m);
      i := cur;
      if ok {
        CommitBlock(t, m, cur);
        WtInReach(st);
      } else {
        WtInReach(st);
        FullOrPassed(rd, ct, i);
      }
    }

    // -------------------------------------------------------------- pop

    method LoadRd(t: Tid) returns (cur: nat)
      requires Valid() && At(t, CLoadRd)
      modifies this, elems
      ensures Valid() && At(t, CLoadWt(cur)) && cur == rd && old(rd) <= cur
      ensures Did(0, 0) && Paid(old(st.mem))
    {
      Others(t);
      ReachableSized(st);
      cur := rd;
      Moves(t, st.mem, CLoadWt(cur));
    }

    method LoadWt(t: Tid, cur: nat, buff: Msg) returns (w: nat)
      requires Valid() && At(t, CLoadWt(cur)) && |buff| == st.mem.size
      modifies this, elems
      ensures Valid() && w == wt
      ensures At(t, if Slot(cur) == Slot(w) then CLoadFlag(w) else CCopy(cur, buff, {}))
      ensures Did(0, 0) && Paid(old(st.mem))
    {
      Others(t);
      ReachableSized(st);
      w := wt;
      Moves(t, st.mem, if Slot(cur) == Slot(w) then CLoadFlag(w) else CCopy(cur, buff, {}));
    }

    method SeeFlag(t: Tid, w: nat) returns (cac: Flag)
      requires Valid() && At(t, CLoadFlag(w))
      modifies this, elems
      ensures Valid() && At(t, if cac == Commit(w) then CClear(w, cac) else Idle)
      ensures cac == elems[Slot(w)].flag
      ensures Did(0, 0) && Paid(old(st.mem))
    {
      Others(t);
      ReachableSized(st);
      cac := elems[Slot(w)].flag;
      Moves(t, st.mem, if cac == Commit(w) then CClear(w, cac) else Idle);
    }

    method HelpFlag(t: Tid, w: nat, cac: Flag) returns (ok: bool)
      requires Valid() && At(t, CClear(w, cac))
      modifies this, elems
      ensures Valid() && At(t, if ok then CStoreWt(w) else CLoadRd)
      ensures ok ==> wt == w < ct
      ensures Did(0, 0) && credit <= old(credit) && (credit == old(credit) ==> ct == old(ct) && rd == old(rd))
      ensures credit == old(credit) && old(elems[Slot(w)]).flag == cac ==> ok
    {
      Others(t);
      SeenFlagIsAtWt(st, w, cac, t);
      var c := elems[Slot(w)];
      var fails := Spurious();
      ok := c.flag == cac && !fails;
      if ok {
        Moves(t, StoreFlag(st.mem, w, Zero, Advancing(t)), CStoreWt(w));
        elems[Slot(w)] := c.(flag := Zero);
      } else {
        Moves(t, st.mem, CLoadRd);
      }
    }

    method HelpWt(t: Tid, w: nat)
      requires Valid() && At(t, CStoreWt(w))
      modifies this, elems
      ensures Valid() && At(t, CLoadRd) && wt == w + 1
      ensures Did(0, 0) && credit <= old(credit) && (credit == old(credit) ==> ct == old(ct) && rd == old(rd))
    {
      Others(t);
      ReachableSized(st);
      Moves(t, StoreWt(st.mem, w), CLoadRd);
      wt := w + 1;
    }

    /** pop when rd has caught up with wt: empty, or help to advance wt. */
    method HelpOrEmpty(t: Tid, w: nat) returns (empty: bool)
      requires Valid() && At(t, CLoadFlag(w)) && w == wt
      modifies this, elems
      ensures Valid() && At(t, if empty then Idle else CLoadRd) && Did(0, 0)
      ensures !empty ==> credit < old(credit) || (credit == old(credit) && ct == old(ct) && rd == old(rd) && old(wt) < wt <= ct)
      ensures credit <= old(credit)
      ensures empty ==> elems[Slot(w)].flag != Commit(w)
      ensures empty && credit == old(credit) ==> old(elems[Slot(wt)]).flag != Commit(w)
    {
      var cac := SeeFlag(t, w);
      if cac != Commit(w) {
        return true;
      }
      var won := HelpFlag(t, w, cac);
      if won {
        HelpWt(t, w);
      }
      return false;
    }

    method CopyOne(t: Tid, cur: nat, buff: Msg, ghost done: set<nat>, k: nat) returns (b: Byte)
      requires Valid() && At(t, CCopy(cur, buff, done)) && k < |buff| == st.mem.size && k !in done
      modifies this, elems
      ensures Valid() && At(t, CCopy(cur, buff[k := b], done + {k}))
      ensures Did(0, 0) && Paid(old(st.mem))
    {
      Others(t);
      ReachableSized(st);
      b := elems[Slot(cur)].data[k];
      Moves(t, st.mem, CCopy(cur, buff[k := b], done + {k}));
    }

    /** memcpy into the local buffer, with anybody writing meanwhile. */
    method CopyBlock(t: Tid, cur: nat, junk: Msg) returns (buff: Msg)
      requires Valid() && At(t, CCopy(cur, junk, {})) && |junk| == st.mem.size
      modifies this, elems
      ensures Valid() && t in st.thr && st.thr[t].CCopy? && st.thr[t] == CCopy(cur, buff, st.thr[t].done)
      ensures Whole(st.thr[t].done, st.mem.size) && Did(0, 0) && Paid(old(st.mem))
    {
      buff := junk;
      var k := 0;
      ghost var done: set<nat> := {};
      while k < |buff|
        invariant 0 <= k <= |buff| == st.mem.size
        invariant Valid() && At(t, CCopy(cur, buff, done))
        invariant forall j: nat :: j in done <==> j < k
        invariant Did(0, 0) && Paid(old(st.mem))
      {
        var b := CopyOne(t, cur, buff, done, k);
        buff := buff[k := b];
        done := done + {k};
        k := k + 1;
      }
    }

    // The swap of rd that succeeds.
    method TakeBlock(t: Tid, buff: Msg)
      requires Valid() && t in st.thr && st.thr[t].CCopy? && st.thr[t] == CCopy(rd, buff, st.thr[t].done)
      requires Whole(st.thr[t].done, st.mem.size)
      modifies this, elems
      ensures Valid() && At(t, Idle) && Did(0, 1) && credit == old(credit)
      ensures rd == old(rd) + 1 && old(rd) < |st.mem.log| && buff == st.mem.log[old(rd)]
    {
      CopyIsTheMessage(st, t);
      Moves(t, TakeRd(st.mem, buff), Idle);
      rd := rd + 1;
    }

    method CasRd(t: Tid, cur: nat, buff: Msg) returns (ok: bool)
      requires Valid() && t in st.thr && st.thr[t].CCopy? && st.thr[t] == CCopy(cur, buff, st.thr[t].done)
      requires Whole(st.thr[t].done, st.mem.size)
      modifies this, elems
      ensures Valid() && At(t, if ok then Idle else CLoadRd) && Did(0, if ok then 1 else 0)
      ensures ok ==> cur < rd && cur < |st.mem.log| && buff == st.mem.log[cur]
      ensures credit <= old(credit) && (credit == old(credit) && old(rd) == cur ==> ok)
    {
      Others(t);
      ReachableSized(st);
      var fails := Spurious();
      ok := rd == cur && !fails;
      if ok {
        TakeBlock(t, buff);
      } else {
        Moves(t, st.mem, CLoadRd);
      }
    }

    /** The caller's loads found nothing: i was rd and w was wt, from `r0` and `w0`
        on, with one slot between them, and the flag of w is not up now. */
    ghost predicate FoundEmpty(r0: nat, w0: nat, i: nat, w: nat)
      requires Valid()
      reads this, elems
    {
      r0 <= i <= rd && w0 <= w <= wt && Slot(i) == Slot(w) && !CommittedAt(w)
    }

    // Nothing to take and nothing to help with.
    ghost predicate Bare(m: Mem) {
      Slot(m.rd) == Slot(m.wt) && |m.cells| == N && m.cells[Slot(m.wt)].flag != Commit(m.wt)
    }

    // The two loads a round of pop starts with.
    method LoadBoth(t: Tid, junk: Msg) returns (cur: nat, w: nat)
      requires Valid() && At(t, CLoadRd) && |junk| == st.mem.size
      modifies this, elems
      ensures Valid() && At(t, if Slot(cur) == Slot(w) then CLoadFlag(w) else CCopy(cur, junk, {}))
      ensures Did(0, 0) && old(rd) <= cur <= rd && w == wt
      ensures credit <= old(credit) && (credit == old(credit) ==> cur == rd && w == old(wt) && st.mem == old(st.mem))
    {
      cur := LoadRd(t);
      w := LoadWt(t, cur, junk);
    }

    // Copy the block, then try to move rd past it.
    method TryTake(t: Tid, cur: nat, junk: Msg) returns (ok: bool, buff: Msg)
      requires Valid() && At(t, CCopy(cur, junk, {})) && |junk| == st.mem.size
      modifies this, elems
      ensures Valid() && At(t, if ok then Idle else CLoadRd) && Did(0, if ok then 1 else 0)
      ensures ok ==> cur < rd && cur < |st.mem.log| && buff == st.mem.log[cur]
      ensures credit <= old(credit) && (credit == old(credit) && old(rd) == cur ==> ok)
    {
      buff := CopyBlock(t, cur, junk);
      ok := CasRd(t, cur, buff);
    }

    // One round of pop: come back empty, with a block, or to go round again.
    method PopRound(t: Tid, junk: Msg) returns (again: bool, ok: bool, buff: Msg, ghost i: nat, ghost j: nat)
      requires Valid() && At(t, CLoadRd) && |junk| == st.mem.size
      modifies this, elems
      ensures Valid() && At(t, if again then CLoadRd else Idle) && Did(0, if ok then 1 else 0)
      ensures ok ==> !again && old(rd) <= i < rd && i < |st.mem.log| && buff == st.mem.log[i]
      ensures credit <= old(credit)
      ensures again ==> credit < old(credit) || (ct == old(ct) && old(wt) < wt <= ct && Slot(rd) != Slot(wt))
      ensures !ok && !again ==> FoundEmpty(old(rd), old(wt), i, j)
      ensures !ok && !again && i == rd ==> j == rd
      ensures !ok && !again && credit >= old(credit) ==> Bare(old(st.mem))
    {
      var cur, w := LoadBoth(t, junk);
      ok, buff, i, j := false, junk, cur, w;
      if Slot(cur) == Slot(w) {
        WtInReach(st);
        ghost var reached := rd;
        var empty := HelpOrEmpty(t, w);
        again := !empty;
        WtInReach(st);
        WithinARound(reached, w);
      } else {
        ok, buff := TryTake(t, cur, junk);
        again := !ok;
      }
    }

    /** pop.  It takes one index exactly when it returns true; the block it hands
        out is then, byte for byte, the message of that index, which nobody had
        taken when the call began.  "Empty" means that its own last loads of rd, wt
        and the flag found nothing to take and nothing to help with, whatever the
        others did.  Those of rd and wt were the same, unless another consumer has
        taken index i meanwhile; with no interference there was nothing to be had as
        it began. */
    method PopMsg(t: Tid, junk: Msg) returns (ok: bool, buff: Msg, ghost i: nat, ghost j: nat)
      requires Valid() && At(t, Idle) && |junk| == st.mem.size
      modifies this, elems
      ensures Valid() && At(t, Idle) && Did(0, if ok then 1 else 0)
      ensures ok ==> old(rd) <= i < rd && i < |st.mem.log| && buff == st.mem.log[i]
      ensures !ok ==> FoundEmpty(old(rd), old(wt), i, j)
      ensures !ok && i == rd ==> j == rd
      ensures !ok && credit >= old(credit) ==> Bare(old(st.mem))
    {
      ReachableSized(st);
      Moves(t, st.mem, CLoadRd);
      while true
        invariant Valid() && At(t, CLoadRd) && Did(0, 0)
        invariant credit <= old(credit)
        invariant credit == old(credit) ==> st.mem == old(st.mem) || Slot(rd) != Slot(wt)
        decreases credit, ct - wt
      {
        var again;
        again, ok, buff, i, j := PopRound(t, junk);
        if !again {
          return;
        }
      }
    }
  }
}
