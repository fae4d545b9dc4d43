/** The one-producer, many-consumer unicast ring.  Consumers copy a slot first
    and claim it afterwards, so a copy may race with the producer; `taken` holds
    the byte blocks that successful pops really returned. */
module SingleMultiUnicast {
  import opened Ring
  import Runs

  datatype Mem = Mem(size: nat, rd: nat, wt: nat, cells: seq<Msg>, log: seq<Msg>, taken: seq<Msg>)

  datatype WPc =
    | WIdle
    | WLoadWt(m: Msg)
    | WLoadRd(m: Msg, cur: nat)
    | WWrite(m: Msg, cur: nat, done: set<nat>)

  datatype CPc =
    | CIdle
    | CLoadRd
    | CLoadWt(cur: nat)
    | CCopy(cur: nat, buff: Msg, done: set<nat>)

  datatype State = State(mem: Mem, w: WPc, thr: map<Tid, CPc>)

  // ---------------------------------------------------------------- transitions

  ghost predicate WellSized(m: Mem) {
    && |m.cells| == N
    && (forall k: nat | k < N :: |m.cells[k]| == m.size)
  }

  function WriteByte(m: Mem, cur: nat, k: nat, b: Byte): Mem
    requires |m.cells| == N && k < |m.cells[Slot(cur)]|
  {
    m.(cells := m.cells[Slot(cur) := m.cells[Slot(cur)][k := b]])
  }

  function Publish(m: Mem, msg: Msg): Mem {
    m.(wt := m.wt + 1, log := m.log + [msg])
  }

  function TakeRd(m: Mem, buff: Msg): Mem {
    m.(rd := m.rd + 1, taken := m.taken + [buff])
  }

  ghost predicate Push(m: Mem, m': Mem, w: WPc, w': WPc)
    requires WellSized(m)
  {
    match w
    case WIdle => m' == m && w'.WLoadWt? && |w'.m| == m.size
    case WLoadWt(msg) => m' == m && w' == WLoadRd(msg, m.wt)
    case WLoadRd(msg, cur) =>
      // rd - 1 in unsigned arithmetic
      m' == m && w' == if Slot(cur) == Slot(m.rd + N - 1) then WIdle else WWrite(msg, cur, {})
    case WWrite(msg, cur, done) =>
      || (exists k: nat :: k < m.size && k < |msg| && k !in done
            && m' == WriteByte(m, cur, k, msg[k]) && w' == WWrite(msg, cur, done + {k}))
      || (Whole(done, m.size) && m' == Publish(m, msg) && w' == WIdle)
  }

  ghost predicate Pop(m: Mem, m': Mem, pc: CPc, pc': CPc)
    requires WellSized(m)
  {
    match pc
    case CIdle => m' == m && pc' == CLoadRd
    case CLoadRd => m' == m && pc' == CLoadWt(m.rd)
    case CLoadWt(cur) =>
      && m' == m
      && (if Slot(cur) == Slot(m.wt) then pc' == CIdle
          else pc'.CCopy? && pc'.cur == cur && |pc'.buff| == m.size && pc'.done == {})
    case CCopy(cur, buff, done) =>
      || (exists k: nat :: k < m.size && k < |buff| && k !in done && m' == m
            && pc' == CCopy(cur, buff[k := m.cells[Slot(cur)][k]], done + {k}))
      || (Whole(done, m.size) && m.rd == cur && m' == TakeRd(m, buff) && pc' == CIdle)
      || (Whole(done, m.size) && m' == m && pc' == CLoadRd)
  }

  ghost predicate WriterStep(s: State, s': State)
    requires WellSized(s.mem)
  {
    Push(s.mem, s'.mem, s.w, s'.w) && s'.thr == s.thr
  }

  ghost predicate ConsumerStep(s: State, s': State, t: Tid)
    requires WellSized(s.mem)
  {
    && t in s.thr && t in s'.thr && s'.w == s.w
    && s'.thr == s.thr[t := s'.thr[t]]
    && Pop(s.mem, s'.mem, s.thr[t], s'.thr[t])
  }

  ghost predicate Init(s: State) {
    && WellSized(s.mem) && s.mem.rd == s.mem.wt == 0
    && s.mem.log == [] && s.mem.taken == []
    && s.w == WIdle && (forall t | t in s.thr :: s.thr[t] == CIdle)
  }

  // ---------------------------------------------------------------- invariant

  ghost predicate MemOk(m: Mem) {
    && WellSized(m)
    && m.rd <= m.wt < m.rd + N
    && |m.log| == m.wt
    && (forall i: nat | i < m.wt :: |m.log[i]| == m.size)
    && (forall i: nat | m.rd <= i < m.wt :: m.cells[Slot(i)] == m.log[i])
    && m.taken == m.log[..m.rd]
  }

  ghost predicate WriterOk(m: Mem, w: WPc)
    requires MemOk(m)
  {
    match w
    case WIdle => true
    case WLoadWt(msg) => |msg| == m.size
    case WLoadRd(msg, cur) => |msg| == m.size && cur == m.wt
    case WWrite(msg, cur, done) =>
      cur == m.wt && m.wt + 1 < m.rd + N && Agrees(m.cells[Slot(cur)], msg, done)
  }

  /** A copy is only worth something while rd has not moved on. */
  ghost predicate ConsumerOk(m: Mem, pc: CPc)
    requires MemOk(m)
  {
    match pc
    case CLoadWt(cur) => cur <= m.rd
    case CCopy(cur, buff, done) =>
      && |buff| == m.size && cur <= m.rd
      && (cur == m.rd ==> cur < m.wt && Agrees(buff, m.log[cur], done))
    case _ => true
  }

  ghost predicate Inv(s: State) {
    && MemOk(s.mem) && WriterOk(s.mem, s.w)
    && (forall t | t in s.thr :: ConsumerOk(s.mem, s.thr[t]))
  }

  lemma WriteByteMem(m: Mem, k: nat, b: Byte)
    requires MemOk(m) && m.wt + 1 < m.rd + N && k < m.size
    ensures MemOk(WriteByte(m, m.wt, k, b))
  {
    assert forall i: nat | m.rd <= i < m.wt :: Slot(i) != Slot(m.wt);
  }

  lemma PublishMem(m: Mem, msg: Msg)
    requires MemOk(m) && m.wt + 1 < m.rd + N && |msg| == m.size && m.cells[Slot(m.wt)] == msg
    ensures MemOk(Publish(m, msg))
  {
    assert Publish(m, msg).log[..m.rd] == m.log[..m.rd];
  }

  lemma PushInv(m: Mem, m': Mem, w: WPc, w': WPc)
    requires MemOk(m) && WriterOk(m, w) && Push(m, m', w, w')
    ensures MemOk(m') && WriterOk(m', w')
    ensures forall pc :: ConsumerOk(m, pc) ==> ConsumerOk(m', pc)
  {
    if w.WWrite? && w' == WIdle {
      WholeCopyIsEqual(m.cells[Slot(w.cur)], w.m, w.done);
      PublishMem(m, w.m);
    } else if w.WWrite? {
      var k: nat :| k < m.size && k < |w.m| && m' == WriteByte(m, w.cur, k, w.m[k]);
      WriteByteMem(m, k, w.m[k]);
    }
  }

  lemma PopInv(m: Mem, m': Mem, pc: CPc, pc': CPc)
    requires MemOk(m) && ConsumerOk(m, pc) && Pop(m, m', pc, pc')
    ensures MemOk(m') && ConsumerOk(m', pc')
    ensures forall other :: ConsumerOk(m, other) ==> ConsumerOk(m', other)
    ensures forall w :: WriterOk(m, w) ==> WriterOk(m', w)
    ensures m'.rd > m.rd ==> pc.CCopy? && m.rd < |m.log| && pc.buff == m.log[m.rd]
  {
    if m' != m {
      WholeCopyIsEqual(pc.buff, m.log[m.rd], pc.done);
      assert m.log[..m.rd + 1] == m.log[..m.rd] + [m.log[m.rd]];
    }
  }

  ghost predicate Next(s: State, s': State) {
    WellSized(s.mem) && (WriterStep(s, s') || exists t :: ConsumerStep(s, s', t))
  }

  lemma NextInv(s: State, s': State)
    requires Inv(s) && Next(s, s')
    ensures Inv(s')
  {
    if WriterStep(s, s') {
      PushInv(s.mem, s'.mem, s.w, s'.w);
    } else {
      var t :| ConsumerStep(s, s', t);
      PopInv(s.mem, s'.mem, s.thr[t], s'.thr[t]);
    }
  }

  ghost predicate Run(run: seq<State>) {
    Runs.IsRun(run, Init, Next)
  }

  lemma {:induction false} RunInv(run: seq<State>, i: nat)
    requires Run(run) && i < |run|
    ensures Inv(run[i])
  {
    assert Runs.Lawful(run, Init, Next, i);
    if i > 0 {
      RunInv(run, i - 1);
      NextInv(run[i - 1], run[i]);
    }
  }

  /** What successful pops returned is the log up to rd: each message goes to
      one consumer, in order and untorn. */
  lemma EachMessageTakenOnceInOrder(run: seq<State>, i: nat)
    requires Run(run) && i < |run|
    ensures var m := run[i].mem;
            m.rd <= m.wt <= m.rd + N - 1 && |m.log| == m.wt && m.taken == m.log[..m.rd]
  {
    RunInv(run, i);
  }

  /** The consumer whose compare-and-swap on rd_ succeeds holds an exact copy,
      although it copied before it knew. */
  lemma WinnerHoldsAnUntornCopy(run: seq<State>, i: nat, s': State, t: Tid)
    requires Run(run) && i < |run| && WellSized(run[i].mem) && ConsumerStep(run[i], s', t)
    requires s'.mem.rd != run[i].mem.rd
    ensures run[i].mem.rd < |run[i].mem.log|
    ensures run[i].thr[t].CCopy? && run[i].thr[t].buff == run[i].mem.log[run[i].mem.rd]
    ensures s'.mem.taken == run[i].mem.taken + [run[i].mem.log[run[i].mem.rd]]
  {
    RunInv(run, i);
    assert ConsumerOk(run[i].mem, run[i].thr[t]);
    PopInv(run[i].mem, s'.mem, run[i].thr[t], s'.thr[t]);
  }
}
