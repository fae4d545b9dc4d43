/** push and pop of the many-writer broadcast ring as code over the shared
    fields, with the other threads running before every access.  As in
    MultiUnicastCode, `st` follows the transitions of Channel, and finitely many
    foreign steps and spurious failures happen while a call runs. */
module ChannelCode {
  import opened Ring
  import opened Channel
  import Runs

  ghost predicate Reachable(s: State) {
    Runs.Reachable(s, Init, Next)
  }

  lemma ReachableInv(s: State)
    requires Reachable(s)
    ensures Inv(s)
  {
    var run := Runs.Witness(s, Init, Next);
    RunInv(run, |run| - 1);
  }

  lemma ReachableSized(s: State)
    requires Reachable(s)
    ensures WellSized(s.mem)
  {
    ReachableInv(s);
  }

  lemma ReachablePc(s: State, w: Who)
    requires Reachable(s) && w in s.thr
    ensures MemOk(s.mem) && PcOk(s.mem, w, s.thr[w])
  {
    ReachableInv(s);
  }

  // What a receiver relies on when it clears its bit.
  lemma TakenIsLogged(s: State, r: nat, i: nat, buff: Msg, rc: Rc)
    requires Reachable(s) && Receiver(r) in s.thr && s.thr[Receiver(r)] == CCasRc(i, buff, rc)
    ensures WellSized(s.mem) && r in s.mem.got && i < |s.mem.log| && buff == s.mem.log[i]
  {
    ReachablePc(s, Receiver(r));
  }

  lemma ReachableStep(s: State, s': State, w: Who)
    requires Reachable(s) && Inv(s) && Step(s, s', w)
    ensures Reachable(s')
  {
    assert Next(s, s');
    Runs.ReachableStep(s, s', Init, Next);
  }

  /** What steps never take back, and what only receiver r itself changes. */
  ghost predicate Grows(m: Mem, m': Mem) {
    && m'.size == m.size && |m'.cells| == |m.cells| && m'.conn == m.conn && m'.epoch == m.epoch
    && m.ct <= m'.ct && m.log <= m'.log
  }

  ghost predicate SameReader(m: Mem, m': Mem, w: Who) {
    w.Receiver? && w.r in m.got ==> w.r in m'.got && m'.got[w.r] == m.got[w.r]
  }

  /** Receiver w's next message is committed. */
  ghost predicate Ready(m: Mem, w: Who) {
    w.Receiver? && w.r in m.pos && |m.cells| == N && At(m, m.pos[w.r]).flag == Commit(m.pos[w.r])
  }

  /** Nothing another thread does takes a committed message away from w. */
  ghost predicate StaysReady(m: Mem, m': Mem, w: Who) {
    Ready(m, w) ==> Ready(m', w) && m'.pos[w.r] == m.pos[w.r]
  }

  lemma StepGrows(s: State, s': State, w: Who)
    requires Inv(s) && Step(s, s', w)
    ensures Grows(s.mem, s'.mem)
  {
    MoveInv(s, s', w);
  }

  lemma StepKeepsReader(s: State, s': State, w: Who, u: Who)
    requires Inv(s) && Step(s, s', w) && u != w
    ensures SameReader(s.mem, s'.mem, u)
  {
  }

  lemma StepKeepsReady(s: State, s': State, w: Who, u: Who)
    requires Inv(s) && Step(s, s', w) && u != w
    ensures StaysReady(s.mem, s'.mem, u)
  {
    if Ready(s.mem, u) {
      var k := Slot(s.mem.pos[u.r]);
      assert CellOk(s.mem, k) && PcOk(s.mem, w, s.thr[w]);
      assert s.mem.phase[k] == Committed(s.mem.pos[u.r]) && u.r in s.mem.cells[k].rc.mask;
      match s.thr[w]
      case PWrite(_, cur, _) => assert Slot(cur) != k;
      case CStoreLast(i, _, _) => assert Slot(i) != k;
      case _ =>
    }
  }

  ghost predicate OtherStep(s: State, s': State, w: Who) {
    WellSized(s.mem) && exists u :: u != w && Step(s, s', u)
  }

  lemma OneOtherStep(s: State, s': State, w: Who)
    requires Reachable(s) && w in s.thr && OtherStep(s, s', w)
    ensures Reachable(s') && w in s'.thr && s'.thr[w] == s.thr[w]
    ensures Grows(s.mem, s'.mem) && SameReader(s.mem, s'.mem, w) && StaysReady(s.mem, s'.mem, w)
  {
    ReachableInv(s);
    var u :| u != w && Step(s, s', u);
    ReachableStep(s, s', u);
    StepGrows(s, s', u);
    StepKeepsReader(s, s', u, w);
    StepKeepsReady(s, s', u, w);
  }

  /** Any sequence of steps by threads other than `w` keeps to the contract of
      Chan.Others. */
  lemma {:induction false} OthersKeepTheirContract(path: seq<State>, w: Who, n: nat)
    requires n < |path| && Reachable(path[0]) && w in path[0].thr
    requires forall i | 0 < i < |path| :: OtherStep(path[i - 1], path[i], w)
    ensures var s, s' := path[0], path[n];
            && Reachable(s') && w in s'.thr && s'.thr[w] == s.thr[w]
            && Grows(s.mem, s'.mem) && SameReader(s.mem, s'.mem, w) && StaysReady(s.mem, s'.mem, w)
  {
    if n > 0 {
      OthersKeepTheirContract(path, w, n - 1);
      OneOtherStep(path[n - 1], path[n], w);
    }
  }

  ghost function Fresh(size: nat, c: Cell, receivers: set<nat>, senders: set<Tid>): State {
    State(
      Mem(size, receivers, 0, 0, seq(N, _ => c), seq(N, k requires 0 <= k < N => Free(k)),
          map r | r in receivers :: 0, [], map r | r in receivers :: []),
      (map t | t in senders :: Sender(t) := PIdle) + (map r | r in receivers :: Receiver(r) := CIdle(0)))
  }

  lemma FreshIsReachable(size: nat, c: Cell, receivers: set<nat>, senders: set<Tid>)
    requires c.rc == Rc(0, 0, {}) && c.flag == Zero && |c.data| == size
    ensures Reachable(Fresh(size, c, receivers, senders))
  {
    var s := Fresh(size, c, receivers, senders);
    assert Init(s);
    Runs.ReachableStart(s, Init, Next);
  }

  // A push that runs alone gets no index here.
  ghost predicate Refuses(m: Mem) {
    m.conn == {} || (WellSized(m) && !PushTestsPass(m))
  }

  class Chan {
    var conn: set<nat>
    var epoch: nat
    var ct: nat
    const elems: array<Cell>
    ghost var st: State
    ghost var credit: nat
    // How often the thread whose call this is has moved ct.
    ghost var stores: nat

    /** An empty ring for messages of the given size and these receivers. */
    constructor (size: nat, receivers: set<nat>, ghost senders: set<Tid>)
      ensures Valid() && st.mem.size == size && st.mem.conn == receivers && st.mem.log == []
      ensures forall t | t in senders :: At(Sender(t), PIdle)
      ensures forall r | r in receivers :: At(Receiver(r), CIdle(0)) && r in st.mem.got
    {
      var c := Cell(seq(size, _ => 0), Rc(0, 0, {}), Zero);
      elems := new Cell[N](_ => c);
      conn, epoch, ct := receivers, 0, 0;
      st := Fresh(size, c, receivers, senders);
      credit, stores := *, 0;
      new;
      FreshIsReachable(size, c, receivers, senders);
      assert elems[..] == st.mem.cells;
    }

    ghost predicate Valid()
      reads this, elems
    {
      && Reachable(st) && elems.Length == N
      && st.mem.conn == conn && st.mem.epoch == epoch && st.mem.ct == ct
      && st.mem.cells == elems[..]
    }

    ghost predicate At(w: Who, pc: Pc)
      reads this
    {
      w in st.thr && st.thr[w] == pc
    }

    // Nothing is taken back, and the caller moved ct this often.
    twostate predicate Did(stored: nat)
      reads this
    {
      Grows(old(st.mem), st.mem) && stores == old(stores) + stored
    }

    // Nobody else has moved, or less credit is left.
    twostate predicate Paid(before: Mem)
      reads this
    {
      credit <= old(credit) && (credit == old(credit) ==> st.mem == before)
    }

    /** Before an access the other threads take any number of steps. */
    method Others(w: Who)
      requires Valid() && w in st.thr
      modifies this, elems
      ensures Valid() && At(w, old(st.thr[w]))
      ensures Did(0) && SameReader(old(st.mem), st.mem, w) && StaysReady(old(st.mem), st.mem, w)
      ensures Paid(old(st.mem))
    {
    }

    // Whether a weak compare-and-swap fails for no reason.
    method Spurious() returns (b: bool)
      modifies `credit
      ensures credit <= old(credit) && (b ==> credit < old(credit))
    {
      b := false;
    }

    ghost method Moves(w: Who, m': Mem, pc': Pc)
      requires Reachable(st) && w in st.thr && WellSized(st.mem)
      requires Move(st.mem, m', w, st.thr[w], pc')
      modifies `st, `stores
      ensures st == State(m', old(st.thr)[w := pc']) && Reachable(st)
      ensures Did(if m'.ct == old(st.mem.ct) then 0 else 1)
    {
      var s' := State(m', st.thr[w := pc']);
      ReachableInv(st);
      assert Step(st, s', w);
      StepGrows(st, s', w);
      ReachableStep(st, s', w);
      stores := if m'.ct == st.mem.ct then stores else stores + 1;
      st := s';
    }

    // -------------------------------------------------------------- push

    method LoadEpoch(t: Tid, m: Msg) returns (ep: nat)
      requires Valid() && At(Sender(t), PLoadEpoch(m))
      modifies this, elems
      ensures Valid() && At(Sender(t), PLoadConn(m, ep)) && Did(0)
      ensures ep == st.mem.epoch && Paid(old(st.mem))
    {
      Others(Sender(t));
      ReachableSized(st);
      ep := epoch;
      Moves(Sender(t), st.mem, PLoadConn(m, ep));
    }

    method LoadConn(t: Tid, m: Msg, ep: nat) returns (cc: set<nat>)
      requires Valid() && At(Sender(t), PLoadConn(m, ep))
      modifies this, elems
      ensures Valid() && At(Sender(t), if cc == {} then PIdle else PLoadCt(m, ep, cc))
      ensures Did(0) && Paid(old(st.mem)) && cc == st.mem.conn
    {
      Others(Sender(t));
      ReachableSized(st);
      cc := conn;
      Moves(Sender(t), st.mem, if cc == {} then PIdle else PLoadCt(m, ep, cc));
    }

    method LoadCt(t: Tid, m: Msg, ep: nat, cc: set<nat>) returns (cur: nat)
      requires Valid() && At(Sender(t), PLoadCt(m, ep, cc))
      modifies this, elems
      ensures Valid() && At(Sender(t), PLoadRc(m, ep, cc, cur)) && cur == st.mem.ct
      ensures Did(0) && Paid(old(st.mem))
    {
      Others(Sender(t));
      ReachableSized(st);
      cur := ct;
      Moves(Sender(t), st.mem, PLoadRc(m, ep, cc, cur));
    }

    method LoadRc(t: Tid, m: Msg, ep: nat, cc: set<nat>, cur: nat) returns (rc: Rc)
      requires Valid() && At(Sender(t), PLoadRc(m, ep, cc, cur))
      modifies this, elems
      ensures Valid() && rc == st.mem.cells[Slot(cur)].rc
      ensures At(Sender(t), if cc * rc.mask != {} && rc.ep == ep then PIdle
                            else if rc.mask == {} then PLoadFlag(m, ep, cc, cur, rc)
                            else PCasRc(m, ep, cc, cur, rc))
      ensures Did(0) && Paid(old(st.mem))
    {
      Others(Sender(t));
      ReachableSized(st);
      rc := elems[Slot(cur)].rc;
      Moves(Sender(t), st.mem, if cc * rc.mask != {} && rc.ep == ep then PIdle
                               else if rc.mask == {} then PLoadFlag(m, ep, cc, cur, rc)
                               else PCasRc(m, ep, cc, cur, rc));
    }

    method LoadFlag(t: Tid, m: Msg, ep: nat, cc: set<nat>, cur: nat, rc: Rc) returns (taken: bool)
      requires Valid() && At(Sender(t), PLoadFlag(m, ep, cc, cur, rc))
      modifies this, elems
      ensures Valid() && At(Sender(t), if taken then PIdle else PCasRc(m, ep, cc, cur, rc))
      ensures var f := st.mem.cells[Slot(cur)].flag; taken <==> f != Plain(cur) && f != Zero
      ensures Did(0) && Paid(old(st.mem))
    {
      Others(Sender(t));
      ReachableSized(st);
      var f := elems[Slot(cur)].flag;
      taken := f != Plain(cur) && f != Zero;
      Moves(Sender(t), st.mem, if taken then PIdle else PCasRc(m, ep, cc, cur, rc));
    }

    method CasRc(t: Tid, m: Msg, ep: nat, cc: set<nat>, cur: nat, rc: Rc) returns (ok: bool)
      requires Valid() && At(Sender(t), PCasRc(m, ep, cc, cur, rc))
      modifies this, elems
      ensures Valid() && At(Sender(t), if ok then PCasEpoch(m, ep, cur) else PLoadConn(m, ep))
      ensures Did(0)
      ensures credit <= old(credit)
      ensures !ok ==> credit < old(credit) || old(st.mem.cells[Slot(cur)]).rc != rc
    {
      Others(Sender(t));
      ReachableSized(st);
      var c := elems[Slot(cur)];
      var fails := Spurious();
      ok := c.rc == rc && !fails;
      if ok {
        Moves(Sender(t), Claim(st.mem, t, cur, ep, cc), PCasEpoch(m, ep, cur));
        elems[Slot(cur)] := c.(rc := Rc(ep, rc.ic + 1, cc));
      } else {
        Moves(Sender(t), st.mem, PLoadConn(m, ep));
      }
    }

    /** The self-swap of epoch_.  Its failure gives the claimed slot away. */
    method CasEpoch(t: Tid, m: Msg, ep: nat, cur: nat) returns (ok: bool, now: nat)
      requires Valid() && At(Sender(t), PCasEpoch(m, ep, cur))
      modifies this, elems
      ensures Valid() && At(Sender(t), if ok then PStoreCt(m, cur) else PLoadConn(m, now))
      ensures Did(0)
      ensures credit <= old(credit) && (!ok ==> credit < old(credit)) && now == st.mem.epoch
    {
      Others(Sender(t));
      ReachablePc(st, Sender(t));
      var fails := Spurious();
      now := epoch;
      ok := epoch == ep && !fails;
      if ok {
        Moves(Sender(t), st.mem, PStoreCt(m, cur));
      } else {
        Moves(Sender(t), Put(st.mem, cur, Channel.At(st.mem, cur), Orphan(cur)), PLoadConn(m, now));
      }
    }

    method StoreNext(t: Tid, m: Msg, cur: nat)
      requires Valid() && At(Sender(t), PStoreCt(m, cur))
      modifies this, elems
      ensures Valid() && At(Sender(t), PWrite(m, cur, {})) && Did(1)
      ensures old(ct) <= cur < |st.mem.log| && st.mem.log[cur] == m
    {
      Others(Sender(t));
      ReachablePc(st, Sender(t));
      Moves(Sender(t), StoreCt(st.mem, cur, m), PWrite(m, cur, {}));
      ct := cur + 1;
    }

    method WriteOne(t: Tid, m: Msg, cur: nat, ghost done: set<nat>, k: nat)
      requires Valid() && At(Sender(t), PWrite(m, cur, done)) && k < |m| == st.mem.size && k !in done
      modifies this, elems
      ensures Valid() && At(Sender(t), PWrite(m, cur, done + {k})) && Did(0)
    {
      Others(Sender(t));
      ReachableSized(st);
      var c := elems[Slot(cur)];
      Moves(Sender(t), WriteByte(st.mem, cur, k, m[k]), PWrite(m, cur, done + {k}));
      elems[Slot(cur)] := c.(data := c.data[k := m[k]]);
    }

    method WriteBlock(t: Tid, m: Msg, cur: nat)
      requires Valid() && At(Sender(t), PWrite(m, cur, {})) && |m| == st.mem.size
      modifies this, elems
      ensures Valid() && Sender(t) in st.thr && st.thr[Sender(t)].PWrite?
      ensures st.thr[Sender(t)] == PWrite(m, cur, st.thr[Sender(t)].done)
      ensures Whole(st.thr[Sender(t)].done, st.mem.size) && Did(0)
    {
      var k := 0;
      ghost var done: set<nat> := {};
      while k < |m|
        invariant 0 <= k <= |m| == st.mem.size
        invariant Valid() && At(Sender(t), PWrite(m, cur, done)) && Did(0)
        invariant forall j: nat :: j in done <==> j < k
      {
        WriteOne(t, m, cur, done, k);
        done := done + {k};
        k := k + 1;
      }
    }

    method RaiseFlag(t: Tid, m: Msg, cur: nat)
      requires Valid() && Sender(t) in st.thr && st.thr[Sender(t)].PWrite?
      requires st.thr[Sender(t)] == PWrite(m, cur, st.thr[Sender(t)].done)
      requires Whole(st.thr[Sender(t)].done, st.mem.size)
      modifies this, elems
      ensures Valid() && At(Sender(t), PIdle) && Did(0)
    {
      Others(Sender(t));
      ReachableSized(st);
      var c := elems[Slot(cur)];
      Moves(Sender(t), StoreFlag(st.mem, cur, Commit(cur), Committed(cur)), PIdle);
      elems[Slot(cur)] := c.(flag := Commit(cur));
    }

    /** The caller's last loads left it nothing to do: there is no receiver, or
        the slot of an index that was ct at some moment of the call, from `before`
        on, is still owed to a receiver or not yet free for that index. */
    ghost predicate FoundNoRoom(before: nat, i: nat)
      reads this, elems
      requires elems.Length == N
    {
      var c := elems[Slot(i)];
      || conn == {}
      || (before <= i <= ct
          && ((conn * c.rc.mask != {} && c.rc.ep == epoch) || (c.flag != Plain(i) && c.flag != Zero)))
    }

    // Look at the slot of ct: no room, or go on.
    method InspectSlot(t: Tid, m: Msg, ep: nat, cc: set<nat>) returns (refused: bool, cur: nat, rc: Rc)
      requires Valid() && At(Sender(t), PLoadCt(m, ep, cc)) && ep == st.mem.epoch && cc == st.mem.conn
      modifies this, elems
      ensures Valid() && At(Sender(t), if refused then PIdle else PCasRc(m, ep, cc, cur, rc)) && Did(0)
      ensures credit <= old(credit)
      ensures refused ==> FoundNoRoom(old(ct), cur)
      ensures refused && credit == old(credit) ==> Refuses(old(st.mem))
      ensures !refused && credit == old(credit) ==> st.mem.cells[Slot(cur)].rc == rc
    {
      ReachableSized(st);
      cur := LoadCt(t, m, ep, cc);
      rc := LoadRc(t, m, ep, cc, cur);
      refused := cc * rc.mask != {} && rc.ep == ep;
      if !refused && rc.mask == {} {
        refused := LoadFlag(t, m, ep, cc, cur, rc);
      }
    }

    /** push, after the loop: the index is the caller's alone. */
    method PublishBlock(t: Tid, m: Msg, cur: nat)
      requires Valid() && At(Sender(t), PStoreCt(m, cur)) && |m| == st.mem.size
      modifies this, elems
      ensures Valid() && At(Sender(t), PIdle) && Did(1)
      ensures old(ct) <= cur < |st.mem.log| && st.mem.log[cur] == m
    {
      StoreNext(t, m, cur);
      WriteBlock(t, m, cur);
      RaiseFlag(t, m, cur);
    }

    // The tests a round of push starts with: no receiver, no room, or go on.
    method Inspect(t: Tid, m: Msg, ep: nat) returns (refused: bool, cc: set<nat>, cur: nat, rc: Rc)
      requires Valid() && At(Sender(t), PLoadConn(m, ep)) && ep == st.mem.epoch
      modifies this, elems
      ensures Valid() && At(Sender(t), if refused then PIdle else PCasRc(m, ep, cc, cur, rc)) && Did(0)
      ensures credit <= old(credit)
      ensures refused ==> FoundNoRoom(old(ct), cur)
      ensures refused && credit == old(credit) ==> Refuses(old(st.mem))
      ensures !refused && credit == old(credit) ==> st.mem.cells[Slot(cur)].rc == rc
    {
      cc := LoadConn(t, m, ep);
      refused, cur, rc := true, 0, Rc(0, 0, {});
      if cc != {} {
        refused, cur, rc := InspectSlot(t, m, ep, cc);
      }
    }

    // One round of the loop of push.
    method AcquireRound(t: Tid, m: Msg, ep: nat) returns (again: bool, ok: bool, cur: nat, now: nat)
      requires Valid() && At(Sender(t), PLoadConn(m, ep)) && ep == st.mem.epoch
      modifies this, elems
      ensures Valid() && Did(0) && now == st.mem.epoch
      ensures At(Sender(t), if again then PLoadConn(m, now) else if ok then PStoreCt(m, cur) else PIdle)
      ensures again ==> !ok && credit < old(credit)
      ensures credit <= old(credit)
      ensures !again && !ok ==> FoundNoRoom(old(ct), cur)
      ensures !again && !ok && credit == old(credit) ==> Refuses(old(st.mem))
    {
      var refused, cc, at, rc := Inspect(t, m, ep);
      again, ok, cur, now := false, false, at, ep;
      if !refused {
        var won := CasRc(t, m, ep, cc, cur, rc);
        if won {
          ok, now := CasEpoch(t, m, ep, cur);
        }
        again := !ok;
      }
    }

    /** push, the loop: own an index, or find no receiver or no room. */
    method Acquire(t: Tid, m: Msg) returns (ok: bool, cur: nat)
      requires Valid() && At(Sender(t), PLoadEpoch(m))
      modifies this, elems
      ensures Valid() && At(Sender(t), if ok then PStoreCt(m, cur) else PIdle) && Did(0)
      ensures !ok ==> FoundNoRoom(old(ct), cur)
      ensures !ok && credit >= old(credit) ==> Refuses(old(st.mem))
    {
      var ep := LoadEpoch(t, m);
      while true
        invariant Valid() && At(Sender(t), PLoadConn(m, ep)) && ep == st.mem.epoch && Did(0)
        invariant credit <= old(credit) && (credit == old(credit) ==> st.mem == old(st.mem))
        decreases credit
      {
        var again;
        again, ok, cur, ep := AcquireRound(t, m, ep);
        if !again {
          return;
        }
      }
    }

    /** push.  It publishes one index exactly when it returns true; the message
        then has an index that was still to be given out when the call began.  A
        refusal means that its own last loads met the test, whatever the others
        did; with no interference it failed as the call began. */
    method PushMsg(t: Tid, m: Msg) returns (ok: bool, ghost i: nat)
      requires Valid() && At(Sender(t), PIdle) && |m| == st.mem.size
      modifies this, elems
      ensures Valid() && At(Sender(t), PIdle) && Did(if ok then 1 else 0)
      ensures ok ==> old(ct) <= i < |st.mem.log| && st.mem.log[i] == m
      ensures !ok ==> FoundNoRoom(old(ct), i)
      ensures !ok && credit >= old(credit) ==> Refuses(old(st.mem))
    {
      ReachableSized(st);
      Moves(Sender(t), st.mem, PLoadEpoch(m));
      var cur;
      ok, cur := Acquire(t, m);
      i := cur;
      if ok {
        PublishBlock(t, m, cur);
      }
    }

    // -------------------------------------------------------------- pop

    method TestFlag(r: nat, cur: nat, junk: Msg) returns (ready: bool)
      requires Valid() && At(Receiver(r), CIdle(cur)) && |junk| == st.mem.size
      modifies this, elems
      ensures Valid() && At(Receiver(r), if ready then CCopy(cur, junk, {}) else CIdle(cur))
      ensures Paid(old(st.mem)) && (ready <==> elems[Slot(cur)].flag == Commit(cur))
      ensures old(elems[Slot(cur)]).flag == Commit(cur) ==> ready
      ensures Did(0) && SameReader(old(st.mem), st.mem, Receiver(r))
    {
      ReachablePc(st, Receiver(r));
      Others(Receiver(r));
      ReachableSized(st);
      ready := elems[Slot(cur)].flag == Commit(cur);
      Moves(Receiver(r), st.mem, if ready then CCopy(cur, junk, {}) else CIdle(cur));
    }

    method CopyOne(r: nat, i: nat, buff: Msg, ghost done: set<nat>, k: nat) returns (b: Byte)
      requires Valid() && At(Receiver(r), CCopy(i, buff, done)) && k < |buff| == st.mem.size && k !in done
      modifies this, elems
      ensures Valid() && At(Receiver(r), CCopy(i, buff[k := b], done + {k}))
      ensures Did(0) && SameReader(old(st.mem), st.mem, Receiver(r))
    {
      Others(Receiver(r));
      ReachableSized(st);
      b := elems[Slot(i)].data[k];
      Moves(Receiver(r), st.mem, CCopy(i, buff[k := b], done + {k}));
    }

    method CopyBlock(r: nat, i: nat, junk: Msg) returns (buff: Msg)
      requires Valid() && At(Receiver(r), CCopy(i, junk, {})) && |junk| == st.mem.size
      modifies this, elems
      ensures Valid() && At(Receiver(r), CLoadRc(i, buff))
      ensures Did(0) && SameReader(old(st.mem), st.mem, Receiver(r))
    {
      buff := junk;
      var k := 0;
      ghost var done: set<nat> := {};
      while k < |buff|
        invariant 0 <= k <= |buff| == st.mem.size
        invariant Valid() && At(Receiver(r), CCopy(i, buff, done))
        invariant forall j: nat :: j in done <==> j < k
        invariant Did(0) && SameReader(old(st.mem), st.mem, Receiver(r))
      {
        var b := CopyOne(r, i, buff, done, k);
        buff := buff[k := b];
        done := done + {k};
        k := k + 1;
      }
      ReachableSized(st);
      Moves(Receiver(r), st.mem, CLoadRc(i, buff));
    }

    method ReadRc(r: nat, i: nat, buff: Msg) returns (rc: Rc)
      requires Valid() && At(Receiver(r), CLoadRc(i, buff))
      modifies this, elems
      ensures Valid() && rc == elems[Slot(i)].rc
      ensures r in rc.mask
      ensures At(Receiver(r), if rc.mask - {r} == {} then CStoreLast(i, buff, rc) else CCasRc(i, buff, rc))
      ensures Did(0) && SameReader(old(st.mem), st.mem, Receiver(r)) && Paid(old(st.mem))
    {
      Others(Receiver(r));
      ReachablePc(st, Receiver(r));
      InHandBit(st.mem, r, i);
      rc := elems[Slot(i)].rc;
      Moves(Receiver(r), st.mem, if rc.mask - {r} == {} then CStoreLast(i, buff, rc) else CCasRc(i, buff, rc));
    }

    method FreeSlot(r: nat, i: nat, buff: Msg, rc: Rc)
      requires Valid() && At(Receiver(r), CStoreLast(i, buff, rc))
      modifies this, elems
      ensures Valid() && At(Receiver(r), CCasRc(i, buff, rc))
      ensures Did(0) && SameReader(old(st.mem), st.mem, Receiver(r))
      ensures credit <= old(credit) && (credit == old(credit) ==> elems[Slot(i)].rc == old(elems[Slot(i)]).rc)
    {
      Others(Receiver(r));
      ReachableSized(st);
      var c := elems[Slot(i)];
      Moves(Receiver(r), StoreFlag(st.mem, i, Plain(i + N), Draining(i, r)), CCasRc(i, buff, rc));
      elems[Slot(i)] := c.(flag := Plain(i + N));
    }

    // The swap of rc_ that succeeds.
    method ClearOwnBit(r: nat, i: nat, buff: Msg, rc: Rc)
      requires Valid() && At(Receiver(r), CCasRc(i, buff, rc)) && st.mem.cells[Slot(i)].rc == rc
      modifies this, elems
      ensures Valid() && At(Receiver(r), CIdle(i + 1)) && Did(0)
      ensures Finished(old(st.mem), st.mem, r, i, buff) && credit == old(credit)
    {
      TakenIsLogged(st, r, i, buff, rc);
      var c := elems[Slot(i)];
      Moves(Receiver(r), Finish(ClearBit(st.mem, r, i), r, i, buff), CIdle(i + 1));
      elems[Slot(i)] := c.(rc := Rc(rc.ep, rc.ic + 1, rc.mask - {r}));
    }

    method ClearRc(r: nat, i: nat, buff: Msg, rc: Rc) returns (ok: bool)
      requires Valid() && At(Receiver(r), CCasRc(i, buff, rc)) && r in st.mem.got
      modifies this, elems
      ensures Valid() && At(Receiver(r), if ok then CIdle(i + 1) else CLoadRc(i, buff)) && Did(0)
      ensures if ok then Finished(old(st.mem), st.mem, r, i, buff)
              else SameReader(old(st.mem), st.mem, Receiver(r))
      ensures credit <= old(credit)
      ensures !ok ==> credit < old(credit) || old(elems[Slot(i)]).rc != rc
    {
      Others(Receiver(r));
      ReachableSized(st);
      var fails := Spurious();
      ok := elems[Slot(i)].rc == rc && !fails;
      if ok {
        ClearOwnBit(r, i, buff, rc);
      } else {
        Moves(Receiver(r), st.mem, CLoadRc(i, buff));
      }
    }

    // One round of the loop of pop.
    method PopRound(r: nat, i: nat, buff: Msg) returns (ok: bool)
      requires Valid() && At(Receiver(r), CLoadRc(i, buff)) && r in st.mem.got
      modifies this, elems
      ensures Valid() && At(Receiver(r), if ok then CIdle(i + 1) else CLoadRc(i, buff)) && Did(0)
      ensures if ok then Finished(old(st.mem), st.mem, r, i, buff)
              else SameReader(old(st.mem), st.mem, Receiver(r)) && credit < old(credit)
    {
      var rc := ReadRc(r, i, buff);
      if rc.mask == {} {
        // somebody else freed the slot: not while this receiver's bit is set
        assert false;
      }
      if rc.mask - {r} == {} {
        FreeSlot(r, i, buff, rc);
      }
      ok := ClearRc(r, i, buff, rc);
    }

    /** pop.  Exactly when it returns true the cursor has moved on, and the block
        handed out is the message the cursor stood at.  A message committed there
        when the call begins is handed out whatever the others do, and "empty"
        means that the one load of the flag did not find it. */
    method PopMsg(r: nat, cursor: nat, junk: Msg) returns (ok: bool, next: nat, buff: Msg)
      requires Valid() && At(Receiver(r), CIdle(cursor)) && |junk| == st.mem.size
      requires r in st.mem.got
      modifies this, elems
      ensures Valid() && At(Receiver(r), CIdle(next)) && r in st.mem.got
      ensures if ok then next == cursor + 1 && Finished(old(st.mem), st.mem, r, cursor, buff)
              else next == cursor && st.mem.got[r] == old(st.mem.got[r])
      ensures old(elems[Slot(cursor)]).flag == Commit(cursor) ==> ok
      ensures !ok ==> elems[Slot(cursor)].flag != Commit(cursor)
    {
      var ready := TestFlag(r, cursor, junk);
      if !ready {
        return false, cursor, junk;
      }
      next, ok := cursor + 1, false;
      buff := CopyBlock(r, cursor, junk);
      while !ok
        invariant Valid() && At(Receiver(r), if ok then CIdle(next) else CLoadRc(cursor, buff))
        invariant if ok then Finished(old(st.mem), st.mem, r, cursor, buff)
                  else SameReader(old(st.mem), st.mem, Receiver(r))
        decreases !ok, credit
      {
        ok := PopRound(r, cursor, buff);
      }
    }
  }

  /** Receiver r has been handed message i, as it stands in the log. */
  ghost predicate Finished(m: Mem, m': Mem, r: nat, i: nat, buff: Msg) {
    && i < |m'.log| && buff == m'.log[i]
    && r in m.got && r in m'.got && m'.got[r] == m.got[r] + [buff]
  }
}
