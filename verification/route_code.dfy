/** push and pop of the single-writer broadcast ring as code over the shared
    fields, with the other threads running before every access.  As in
    ChannelCode, `st` follows the transitions of Route, receivers join and leave
    meanwhile, and finitely many foreign steps and spurious failures happen
    while a call runs. */
module RouteCode {
  import opened Ring
  import opened Route
  import Runs

  ghost predicate Reachable(s: State) {
    Runs.Reachable(s, Init, Next)
  }

  lemma ReachableInv(s: State)
    requires Reachable(s)
    ensures Inv(s)
  {
    var run := Runs.Witness(s, Init, Next);
    RunInv(run, |run| - 1);
  }

  lemma ReachableSized(s: State)
    requires Reachable(s)
    ensures WellSized(s.mem)
  {
    ReachableInv(s);
  }

  lemma ReachableStep(s: State, s': State)
    requires Reachable(s) && Next(s, s')
    ensures Reachable(s')
  {
    assert Next(s, s');
    Runs.ReachableStep(s, s', Init, Next);
  }

  /** What receivers do, as the writer sees it. */
  ghost predicate ReceiversRan(m: Mem, m': Mem) {
    m'.size == m.size && m'.epoch == m.epoch && m'.wt == m.wt && m'.log == m.log
  }

  /** Receivers only ever take their bits out of the slot the writer is at. */
  ghost predicate OnlyCleared(m: Mem, m': Mem) {
    && m'.wt == m.wt && |m'.cells| == |m.cells| == N
    && Route.At(m', m.wt).rc.ep == Route.At(m, m.wt).rc.ep
    && Route.At(m', m.wt).rc.mask <= Route.At(m, m.wt).rc.mask
  }

  /** Receiver r is sure of its messages (see Route.Guarded). */
  ghost predicate Safe(s: State, r: Rid) {
    WellSized(s.mem) && Guarded(s, r)
  }

  /** What the writer and the other receivers do, as receiver r sees it. */
  ghost predicate OthersRan(s: State, s': State, r: Rid) {
    var m, m' := s.mem, s'.mem;
    && m'.size == m.size && m.wt <= m'.wt && m.log <= m'.log
    && (r in m.got ==> r in m'.got && m'.got[r] == m.got[r])
    && (r in m.live ==> r in m'.live && m'.live[r] == m.live[r])
    && (Safe(s, r) ==> Safe(s', r))
  }

  // The same, apart from the guard.
  ghost predicate LeavesAlone(m: Mem, m': Mem, r: Rid) {
    && m'.size == m.size && m.wt <= m'.wt && m.log <= m'.log
    && (r in m.got ==> r in m'.got && m'.got[r] == m.got[r])
    && (r in m.live ==> r in m'.live && m'.live[r] == m.live[r])
  }

  lemma NextKeepsSafe(s: State, s': State, r: Rid)
    requires Reachable(s) && Next(s, s') && r in s'.mem.live && Safe(s, r)
    ensures WellSized(s'.mem) && ReadsOn(s, s', r)
  {
    ReachableInv(s);
    NextKeepsGuard(s, s', r);
  }

  ghost predicate ReceiversStep(s: State, s': State) {
    WellSized(s.mem) && exists r :: ReceiverStep(s, s', r)
  }

  ghost predicate StepNotBy(s: State, s': State, r: Rid) {
    WellSized(s.mem) && (WriterStep(s, s') || exists q :: q != r && ReceiverStep(s, s', q))
  }

  lemma OneReceiversStep(s: State, s': State)
    requires Reachable(s) && ReceiversStep(s, s')
    ensures Reachable(s') && s'.w == s.w && ReceiversRan(s.mem, s'.mem) && OnlyCleared(s.mem, s'.mem)
  {
    ReachableStep(s, s');
    var r :| ReceiverStep(s, s', r);
  }

  lemma OtherQuits(m: Mem, m': Mem, q: Rid, pc: RPc, pc': RPc, r: Rid)
    requires WellSized(m) && Quits(m, m', q, pc, pc') && q != r
    ensures LeavesAlone(m, m', r)
  {
  }

  lemma OtherReads(m: Mem, m': Mem, q: Rid, w: WPc, pc: RPc, pc': RPc, r: Rid)
    requires WellSized(m) && Reads(m, m', q, w, pc, pc') && q != r
    ensures LeavesAlone(m, m', r)
  {
    if pc.Out? {
      var b: nat :| m' == Join(m, q, b);
    }
  }

  lemma OtherReceiver(m: Mem, m': Mem, q: Rid, w: WPc, pc: RPc, pc': RPc, r: Rid)
    requires WellSized(m) && Receive(m, m', q, w, pc, pc') && q != r
    ensures LeavesAlone(m, m', r)
  {
    if Quits(m, m', q, pc, pc') {
      OtherQuits(m, m', q, pc, pc', r);
    } else {
      OtherReads(m, m', q, w, pc, pc', r);
    }
  }

  lemma OneStepNotBy(s: State, s': State, r: Rid)
    requires Reachable(s) && StepNotBy(s, s', r) && r in s.rcv
    ensures Reachable(s') && r in s'.rcv && s'.rcv[r] == s.rcv[r] && OthersRan(s, s', r)
  {
    ReachableStep(s, s');
    if !WriterStep(s, s') {
      var q :| q != r && ReceiverStep(s, s', q);
      OtherReceiver(s.mem, s'.mem, q, s.w, s.rcv[q], s'.rcv[q], r);
    }
    assert LeavesAlone(s.mem, s'.mem, r);
    if Safe(s, r) {
      NextKeepsSafe(s, s', r);
    }
  }

  /** Any sequence of receivers' steps keeps to the contract of
      Broadcast.LetReceiversRun. */
  lemma {:induction false} ReceiversKeepTheContract(path: seq<State>, n: nat)
    requires n < |path| && Reachable(path[0])
    requires forall i | 0 < i < |path| :: ReceiversStep(path[i - 1], path[i])
    ensures Reachable(path[n]) && path[n].w == path[0].w
    ensures ReceiversRan(path[0].mem, path[n].mem) && OnlyCleared(path[0].mem, path[n].mem)
  {
    ReachableSized(path[0]);
    if n > 0 {
      ReceiversKeepTheContract(path, n - 1);
      OneReceiversStep(path[n - 1], path[n]);
    }
  }

  /** Any sequence of steps not by `r` keeps to the contract of
      Broadcast.LetOthersRun. */
  lemma {:induction false} OthersKeepTheContract(path: seq<State>, r: Rid, n: nat)
    requires n < |path| && Reachable(path[0]) && r in path[0].rcv
    requires forall i | 0 < i < |path| :: StepNotBy(path[i - 1], path[i], r)
    ensures var s, s' := path[0], path[n];
            Reachable(s') && r in s'.rcv && s'.rcv[r] == s.rcv[r] && OthersRan(s, s', r)
  {
    if n > 0 {
      OthersKeepTheContract(path, r, n - 1);
      OneStepNotBy(path[n - 1], path[n], r);
    }
  }

  ghost function Fresh(size: nat, c: Cell, joined: map<Rid, nat>, others: set<Rid>): State {
    State(
      Mem(size, joined.Values, 0, 0, seq(N, _ => c), [], joined, seq(N, k requires 0 <= k < N => k), seq(N, _ => {}),
          map r | r in joined :: 0, map r | r in joined :: []),
      WIdle, map r | r in joined.Keys + others :: if r in joined then RIdle(0) else Out)
  }

  lemma FreshIsReachable(size: nat, c: Cell, joined: map<Rid, nat>, others: set<Rid>)
    requires c.rc == Rc(0, {}) && |c.data| == size
    requires forall r, q | r in joined && q in joined && r != q :: joined[r] != joined[q]
    ensures Reachable(Fresh(size, c, joined, others))
  {
    var s := Fresh(size, c, joined, others);
    assert Init(s);
    Runs.ReachableStart(s, Init, Next);
  }

  // A pop that ends hands out the message, if r was sure of it.
  lemma FinishGives(s: State, s': State, r: Rid, i: nat, buff: Msg)
    requires Reachable(s) && r in s.rcv && r in s.mem.got && r in s.mem.pos && Given0(s.mem, s'.mem, r, i, buff)
    requires (s.rcv[r].RLoadRc? || s.rcv[r].RCasRc?) && s.rcv[r].i == i
    requires Safe(s, r) ==> WellSized(s'.mem) && ReadsOn(s, s', r)
    ensures Given(s, s', r, i, buff)
  {
    ReachableInv(s);
    assert ReceiverOk(s.mem, r, s.rcv[r]);
    if Safe(s, r) {
      assert s'.mem.got[r] == s.mem.got[r] + s'.mem.log[i..i + 1];
      assert s'.mem.got[r][|s.mem.got[r]|] == buff;
    }
  }

  // A push that runs alone gets no index here.
  ghost predicate Refuses(m: Mem) {
    || m.conn == {}
    || (WellSized(m) && m.conn * Route.At(m, m.wt).rc.mask != {} && Route.At(m, m.wt).rc.ep == m.epoch)
  }

  class Broadcast {
    var conn: set<nat>
    var wt: nat
    var epoch: nat
    const elems: array<Cell>
    ghost var st: State
    // Steps that the other threads still take, and failures that still happen.
    ghost var credit: nat
    // What the writer's loads of cc_ have returned so far.
    ghost var loads: seq<set<nat>>

    /** An empty ring for messages of the given size.  The receivers in `joined`
        are connected with these bits; those in `others` may join. */
    constructor (size: nat, joined: map<Rid, nat>, ghost others: set<Rid>)
      requires forall r, q | r in joined && q in joined && r != q :: joined[r] != joined[q]
      ensures Valid() && st.w == WIdle && st.mem.size == size && st.mem.log == []
      ensures forall r | r in joined :: At(r, RIdle(0)) && Connected(r, joined[r]) && r in st.mem.got && Safe(st, r)
      ensures forall r | r in others && r !in joined :: At(r, Out)
    {
      var c := Cell(seq(size, _ => 0), Rc(0, {}));
      elems := new Cell[N](_ => c);
      conn, wt, epoch := joined.Values, 0, 0;
      st := Fresh(size, c, joined, others);
      credit, loads := *, [];
      new;
      FreshIsReachable(size, c, joined, others);
      assert elems[..] == st.mem.cells;
    }

    ghost predicate Valid()
      reads this, elems
    {
      && Reachable(st) && elems.Length == N
      && st.mem.conn == conn && st.mem.wt == wt && st.mem.epoch == epoch
      && st.mem.cells == elems[..]
    }

    ghost predicate At(r: Rid, pc: RPc)
      reads this
    {
      r in st.rcv && st.rcv[r] == pc
    }

    // connected_id of receiver r.
    ghost predicate Connected(r: Rid, id: nat)
      reads this
    {
      r in st.mem.live && st.mem.live[r] == id
    }

    // Nobody else has moved, or less credit is left.
    twostate predicate Paid(before: Mem)
      reads this
    {
      credit <= old(credit) && (credit == old(credit) ==> st.mem == before)
    }

    /** Before an access of the writer, the receivers take any number of steps. */
    method LetReceiversRun()
      requires Valid()
      modifies this, elems
      ensures Valid() && st.w == old(st.w) && Paid(old(st.mem)) && loads == old(loads)
      ensures ReceiversRan(old(st.mem), st.mem) && OnlyCleared(old(st.mem), st.mem)
    {
      ReachableSized(st);
    }

    /** Before an access of receiver r, the others take any number of steps. */
    method LetOthersRun(r: Rid)
      requires Valid() && r in st.rcv
      modifies this, elems
      ensures Valid() && At(r, old(st.rcv[r])) && OthersRan(old(st), st, r) && Paid(old(st.mem))
    {
    }

    // Whether a weak compare-and-swap fails for no reason.
    method Spurious() returns (b: bool)
      modifies `credit
      ensures credit <= old(credit) && (b ==> credit < old(credit))
    {
      b := false;
    }

    ghost method Writes(m': Mem, w': WPc)
      requires Reachable(st) && WellSized(st.mem) && Push(st.mem, m', st.w, w')
      modifies `st
      ensures st == State(m', w', old(st.rcv)) && Reachable(st)
    {
      var s' := State(m', w', st.rcv);
      assert WriterStep(st, s');
      ReachableStep(st, s');
      st := s';
    }

    ghost method Receives(r: Rid, m': Mem, pc': RPc)
      requires Reachable(st) && WellSized(st.mem) && r in st.rcv && Receive(st.mem, m', r, st.w, st.rcv[r], pc')
      modifies `st
      ensures st == State(m', old(st.w), old(st.rcv)[r := pc']) && Reachable(st)
      ensures Safe(old(st), r) && r in m'.live ==> WellSized(m') && ReadsOn(old(st), st, r)
    {
      var s' := State(m', st.w, st.rcv[r := pc']);
      assert ReceiverStep(st, s', r);
      if Safe(st, r) && r in m'.live {
        NextKeepsSafe(st, s', r);
      }
      ReachableStep(st, s');
      st := s';
    }

    // -------------------------------------------------------------- push

    method LoadConn(m: Msg) returns (cc: set<nat>)
      requires Valid() && st.w == WLoadConn(m)
      modifies this, elems
      ensures Valid() && st.w == (if cc == {} then WIdle else WLoadWt(m, cc))
      ensures ReceiversRan(old(st.mem), st.mem) && OnlyCleared(old(st.mem), st.mem)
      ensures Paid(old(st.mem)) && cc == st.mem.conn && loads == old(loads) + [cc]
    {
      LetReceiversRun();
      ReachableSized(st);
      cc, loads := conn, loads + [conn];
      Writes(st.mem, if cc == {} then WIdle else WLoadWt(m, cc));
    }

    method LoadRc(m: Msg, cc: set<nat>) returns (refused: bool, cur: nat, rc: Rc)
      requires Valid() && st.w == WLoadWt(m, cc)
      modifies this, elems
      ensures Valid() && st.w == (if refused then WIdle else WCasRc(m, cc, cur, rc))
      ensures cur == wt && rc == st.mem.cells[Slot(cur)].rc
      ensures refused <==> cc * rc.mask != {} && rc.ep == epoch
      ensures ReceiversRan(old(st.mem), st.mem) && OnlyCleared(old(st.mem), st.mem)
      ensures Paid(old(st.mem)) && loads == old(loads)
    {
      LetReceiversRun();
      ReachableSized(st);
      cur := wt;
      Writes(st.mem, WLoadRc(m, cc, cur));
      LetReceiversRun();
      ReachableSized(st);
      rc := elems[Slot(cur)].rc;
      refused := cc * rc.mask != {} && rc.ep == epoch;
      Writes(st.mem, if refused then WIdle else WCasRc(m, cc, cur, rc));
    }

    method CasRc(m: Msg, cc: set<nat>, cur: nat, rc: Rc) returns (ok: bool)
      requires Valid() && st.w == WCasRc(m, cc, cur, rc) && cur == wt
      modifies this, elems
      ensures Valid() && st.w == (if ok then WWrite(m, cur, {}) else WLoadConn(m))
      ensures ReceiversRan(old(st.mem), st.mem) && (!ok ==> OnlyCleared(old(st.mem), st.mem)) && loads == old(loads)
      ensures credit <= old(credit) && (!ok ==> credit < old(credit) || old(st.mem.cells[Slot(cur)]).rc != rc)
    {
      LetReceiversRun();
      ReachableSized(st);
      var c := elems[Slot(cur)];
      var fails := Spurious();
      ok := c.rc == rc && !fails;
      if ok {
        Writes(Claim(st.mem, cc), WWrite(m, cur, {}));
        elems[Slot(cur)] := c.(rc := Rc(epoch, cc));
      } else {
        Writes(st.mem, WLoadConn(m));
      }
    }

    /** The caller's last loads met the test: the last of cc_ found nobody
        connected, or somebody whom the slot still names. */
    ghost predicate FoundFull()
      requires Valid()
      reads this, elems
    {
      && loads != []
      && (|| loads[|loads| - 1] == {}
          || (loads[|loads| - 1] * elems[Slot(wt)].rc.mask != {} && elems[Slot(wt)].rc.ep == epoch))
    }

    // One round of the loop of push.
    method AcquireRound(m: Msg) returns (again: bool, ok: bool, cur: nat)
      requires Valid() && st.w == WLoadConn(m)
      modifies this, elems
      ensures Valid() && st.w == (if again then WLoadConn(m) else if ok then WWrite(m, cur, {}) else WIdle)
      ensures ReceiversRan(old(st.mem), st.mem) && (ok ==> cur == wt)
      ensures credit <= old(credit) && (again ==> !ok && credit < old(credit))
      ensures !ok ==> OnlyCleared(old(st.mem), st.mem)
      ensures !again && !ok ==> FoundFull() && old(loads) < loads
      ensures old(loads) <= loads
      ensures !again && !ok && credit == old(credit) ==> Refuses(old(st.mem))
    {
      ReachableSized(st);
      again, ok, cur := false, false, 0;
      var cc := LoadConn(m);
      if cc != {} {
        var refused, at, rc := LoadRc(m, cc);
        cur := at;
        if !refused {
          ok := CasRc(m, cc, cur, rc);
          again := !ok;
        }
      }
    }

    method Acquire(m: Msg) returns (ok: bool, cur: nat)
      requires Valid() && st.w == WLoadConn(m)
      modifies this, elems
      ensures Valid() && st.w == (if ok then WWrite(m, cur, {}) else WIdle)
      ensures ReceiversRan(old(st.mem), st.mem) && (ok ==> cur == wt)
      ensures !ok ==> FoundFull() && old(loads) < loads && OnlyCleared(old(st.mem), st.mem)
      ensures !ok && credit >= old(credit) ==> Refuses(old(st.mem))
    {
      ReachableSized(st);
      while true
        invariant Valid() && st.w == WLoadConn(m) && ReceiversRan(old(st.mem), st.mem)
        invariant OnlyCleared(old(st.mem), st.mem) && old(loads) <= loads
        invariant credit <= old(credit) && (credit == old(credit) ==> st.mem == old(st.mem))
        decreases credit
      {
        var again;
        again, ok, cur := AcquireRound(m);
        if !again {
          return;
        }
      }
    }

    method WriteOne(m: Msg, cur: nat, ghost done: set<nat>, k: nat)
      requires Valid() && st.w == WWrite(m, cur, done) && cur == wt && k < |m| == st.mem.size && k !in done
      modifies this, elems
      ensures Valid() && st.w == WWrite(m, cur, done + {k}) && ReceiversRan(old(st.mem), st.mem)
    {
      LetReceiversRun();
      ReachableSized(st);
      var c := elems[Slot(cur)];
      Writes(WriteByte(st.mem, k, m[k]), WWrite(m, cur, done + {k}));
      elems[Slot(cur)] := c.(data := c.data[k := m[k]]);
    }

    method WriteBlock(m: Msg, cur: nat)
      requires Valid() && st.w == WWrite(m, cur, {}) && cur == wt && |m| == st.mem.size
      modifies this, elems
      ensures Valid() && st.w.WWrite? && st.w == WWrite(m, cur, st.w.done) && Whole(st.w.done, st.mem.size)
      ensures ReceiversRan(old(st.mem), st.mem)
    {
      var k := 0;
      ghost var done: set<nat> := {};
      while k < |m|
        invariant 0 <= k <= |m| == st.mem.size
        invariant Valid() && st.w == WWrite(m, cur, done) && cur == wt
        invariant forall j: nat :: j in done <==> j < k
        invariant ReceiversRan(old(st.mem), st.mem)
      {
        WriteOne(m, cur, done, k);
        done := done + {k};
        k := k + 1;
      }
    }

    /** push.  It appends to the log exactly when it returns true.  A refusal
        means that its own last loads found nobody connected, or the slot at wt
        naming somebody who was, now and as the call began, whatever the receivers
        did; with no interference the test failed as the call began. */
    method PushMsg(m: Msg) returns (ok: bool)
      requires Valid() && st.w == WIdle && |m| == st.mem.size
      modifies this, elems
      ensures Valid() && st.w == WIdle
      ensures st.mem.log == old(st.mem.log) + (if ok then [m] else [])
      ensures !ok ==> FoundFull() && old(loads) < loads && OnlyCleared(old(st.mem), st.mem)
      ensures !ok && credit >= old(credit) ==> Refuses(old(st.mem))
    {
      ReachableSized(st);
      Writes(st.mem, WLoadConn(m));
      var cur;
      ok, cur := Acquire(m);
      if ok {
        WriteBlock(m, cur);
        LetReceiversRun();
        ReachableSized(st);
        Writes(Publish(st.mem, m), WIdle);
        wt := wt + 1;
      }
    }

    // -------------------------------------------------------------- pop

    method SeeMessage(r: Rid, cursor: nat, junk: Msg) returns (ready: bool)
      requires Valid() && At(r, RIdle(cursor)) && |junk| == st.mem.size
      modifies this, elems
      ensures Valid() && At(r, if ready then RCopy(cursor, junk, {}) else RIdle(cursor))
      ensures OthersRan(old(st), st, r)
      ensures if ready then cursor < wt else cursor == old(wt)
    {
      ReachableInv(st);
      assert ReceiverOk(st.mem, r, st.rcv[r]);
      LetOthersRun(r);
      ReachableSized(st);
      ready := cursor != wt;
      Receives(r, st.mem, if ready then RCopy(cursor, junk, {}) else RIdle(cursor));
    }

    method ReadOne(r: Rid, i: nat, buff: Msg, ghost done: set<nat>, k: nat) returns (b: Byte)
      requires Valid() && At(r, RCopy(i, buff, done)) && k < |buff| == st.mem.size && k !in done
      modifies this, elems
      ensures Valid() && At(r, RCopy(i, buff[k := b], done + {k})) && OthersRan(old(st), st, r)
    {
      LetOthersRun(r);
      ReachableSized(st);
      b := elems[Slot(i)].data[k];
      Receives(r, st.mem, RCopy(i, buff[k := b], done + {k}));
    }

    method CopyBlock(r: Rid, i: nat, junk: Msg) returns (buff: Msg)
      requires Valid() && At(r, RCopy(i, junk, {})) && |junk| == st.mem.size
      modifies this, elems
      ensures Valid() && At(r, RLoadRc(i, buff)) && OthersRan(old(st), st, r)
    {
      buff := junk;
      var k := 0;
      ghost var done: set<nat> := {};
      while k < |buff|
        invariant 0 <= k <= |buff| == st.mem.size
        invariant Valid() && At(r, RCopy(i, buff, done)) && OthersRan(old(st), st, r)
        invariant forall j: nat :: j in done <==> j < k
      {
        var b := ReadOne(r, i, buff, done, k);
        buff := buff[k := b];
        done := done + {k};
        k := k + 1;
      }
      ReachableSized(st);
      Receives(r, st.mem, RLoadRc(i, buff));
    }

    // The last reader is gone already, or there is a bit to clear.
    method SeeRc(r: Rid, i: nat, buff: Msg) returns (done: bool, rc: Rc)
      requires Valid() && At(r, RLoadRc(i, buff)) && r in st.mem.got
      modifies this, elems
      ensures Valid() && At(r, if done then RIdle(i + 1) else RCasRc(i, buff, rc))
      ensures if done then Given(old(st), st, r, i, buff) else OthersRan(old(st), st, r)
      ensures credit <= old(credit) && (!done ==> rc == st.mem.cells[Slot(i)].rc)
    {
      LetOthersRun(r);
      ReachableSized(st);
      rc := elems[Slot(i)].rc;
      done := rc.mask == {};
      if done {
        ghost var s := st;
        Receives(r, Finish(st.mem, r, i, buff), RIdle(i + 1));
        FinishGives(s, st, r, i, buff);
      } else {
        Receives(r, st.mem, RCasRc(i, buff, rc));
      }
    }

    // The swap of rc_ that succeeds.
    method ClearOwnBit(r: Rid, id: nat, i: nat, buff: Msg, rc: Rc)
      requires Valid() && At(r, RCasRc(i, buff, rc)) && r in st.mem.got && Connected(r, id)
      requires st.mem.cells[Slot(i)].rc == rc
      modifies this, elems
      ensures Valid() && At(r, RIdle(i + 1)) && Given(old(st), st, r, i, buff) && credit == old(credit)
    {
      ReachableSized(st);
      var c := elems[Slot(i)];
      ghost var s := st;
      Receives(r, Finish(ClearBit(st.mem, r, i), r, i, buff), RIdle(i + 1));
      FinishGives(s, st, r, i, buff);
      elems[Slot(i)] := c.(rc := c.rc.(mask := c.rc.mask - {id}));
    }

    method ClearRc(r: Rid, id: nat, i: nat, buff: Msg, rc: Rc) returns (ok: bool)
      requires Valid() && At(r, RCasRc(i, buff, rc)) && r in st.mem.got && Connected(r, id)
      modifies this, elems
      ensures Valid() && At(r, if ok then RIdle(i + 1) else RLoadRc(i, buff))
      ensures if ok then Given(old(st), st, r, i, buff) else OthersRan(old(st), st, r)
      ensures credit <= old(credit) && (!ok ==> credit < old(credit) || old(st.mem.cells[Slot(i)]).rc != rc)
    {
      LetOthersRun(r);
      ReachableSized(st);
      var fails := Spurious();
      ok := elems[Slot(i)].rc == rc && !fails;
      if ok {
        ClearOwnBit(r, id, i, buff, rc);
      } else {
        Receives(r, st.mem, RLoadRc(i, buff));
      }
    }

    // One round of the loop of pop.
    method PopRound(r: Rid, id: nat, i: nat, buff: Msg) returns (ok: bool)
      requires Valid() && At(r, RLoadRc(i, buff)) && r in st.mem.got && Connected(r, id)
      modifies this, elems
      ensures Valid() && At(r, if ok then RIdle(i + 1) else RLoadRc(i, buff))
      ensures if ok then Given(old(st), st, r, i, buff)
              else OthersRan(old(st), st, r) && credit < old(credit)
    {
      var done, rc := SeeRc(r, i, buff);
      ok := done;
      if !done {
        ok := ClearRc(r, id, i, buff, rc);
      }
    }

    /** pop.  It returns false exactly when nothing was published past the cursor
        as it began and nothing has been since.  When it returns true the cursor
        has moved on by one and the block has been handed out; for a guarded
        receiver, which stays one, it is the message at the cursor. */
    method PopMsg(r: Rid, id: nat, cursor: nat, junk: Msg) returns (ok: bool, next: nat, buff: Msg)
      requires Valid() && At(r, RIdle(cursor)) && |junk| == st.mem.size
      requires r in st.mem.got && Connected(r, id)
      modifies this, elems
      ensures Valid() && At(r, RIdle(next)) && r in st.mem.got
      ensures if ok then next == cursor + 1 && Given(old(st), st, r, cursor, buff)
              else next == cursor == old(wt) && st.mem.got[r] == old(st.mem.got[r])
    {
      var ready := SeeMessage(r, cursor, junk);
      if !ready {
        return false, cursor, junk;
      }
      next, ok := cursor + 1, false;
      buff := CopyBlock(r, cursor, junk);
      while !ok
        invariant Valid() && At(r, if ok then RIdle(next) else RLoadRc(cursor, buff))
        invariant if ok then Given(old(st), st, r, cursor, buff) else OthersRan(old(st), st, r)
        decreases !ok, credit
      {
        ok := PopRound(r, id, cursor, buff);
      }
    }
  }

  /** Receiver r has been given the block `buff` for index i, which is message i
      if r was sure of its messages. */
  ghost predicate Given(s: State, s': State, r: Rid, i: nat, buff: Msg) {
    var m, m' := s.mem, s'.mem;
    && Given0(m, m', r, i, buff)
    && (Safe(s, r) ==> Safe(s', r) && i < |m'.log| && buff == m'.log[i])
  }

  ghost predicate Given0(m: Mem, m': Mem, r: Rid, i: nat, buff: Msg) {
    && m'.size == m.size && m.wt <= m'.wt && m.log <= m'.log
    && r in m.got && r in m'.got && m'.got[r] == m.got[r] + [buff]
    && r in m'.pos && m'.pos[r] == i + 1
  }
}
