/** The many-producer, many-consumer unicast ring.

    One transition per atomic load, store or compare-and-swap, and one per byte
    of a block copy.  `log`, `taken` and `own` are history variables: the
    messages in the order their indices were claimed, the byte blocks that
    successful pops returned, and who is responsible for each index that `wt`
    has not passed yet. */
module MultiUnicast {
  import opened Ring
  import Runs

  // f_ct_: zero, or the complement of an index (never zero for 32-bit indices).
  datatype Flag = Zero | Commit(index: nat)

  datatype Cell = Cell(data: Msg, flag: Flag)

  // Who will move index i out of [wt, ct).
  datatype Owner = Writing(t: Tid) | Flagged | Advancing(t: Tid)

  datatype Mem = Mem(
    size: nat,
    rd: nat,
    wt: nat,
    ct: nat,
    cells: seq<Cell>,
    log: seq<Msg>,
    taken: seq<Msg>,
    own: map<nat, Owner>)

  datatype Pc =
    | Idle
    | PLoadCt(m: Msg)
    | PLoadRd(m: Msg, cur: nat)
    | PCasCt(m: Msg, cur: nat)
    | PWrite(m: Msg, cur: nat, done: set<nat>)
    | PLoadFlag(cur: nat)
    | PLoadWt(cur: nat, cac: Flag)
    | PClear(cur: nat, cac: Flag)
    | PStoreWt(cur: nat)
    | CLoadRd
    | CLoadWt(cur: nat)
    | CLoadFlag(wt: nat)
    | CClear(wt: nat, cac: Flag)
    | CStoreWt(wt: nat)
    | CCopy(cur: nat, buff: Msg, done: set<nat>)

  datatype State = State(mem: Mem, thr: map<Tid, Pc>)

  // ---------------------------------------------------------------- transitions

  ghost predicate WellSized(m: Mem) {
    && |m.cells| == N
    && (forall k: nat | k < N :: |m.cells[k].data| == m.size)
  }

  function Claim(m: Mem, t: Tid, msg: Msg): Mem {
    m.(ct := m.ct + 1, log := m.log + [msg], own := m.own[m.ct := Writing(t)])
  }

  function WriteByte(m: Mem, cur: nat, k: nat, b: Byte): Mem
    requires |m.cells| == N && k < |m.cells[Slot(cur)].data|
  {
    var c := m.cells[Slot(cur)];
    m.(cells := m.cells[Slot(cur) := c.(data := c.data[k := b])])
  }

  function StoreFlag(m: Mem, cur: nat, f: Flag, o: Owner): Mem
    requires |m.cells| == N
  {
    m.(cells := m.cells[Slot(cur) := m.cells[Slot(cur)].(flag := f)],
       own := m.own[cur := o])
  }

  function StoreWt(m: Mem, w: nat): Mem {
    m.(wt := w + 1, own := m.own - {w})
  }

  function TakeRd(m: Mem, buff: Msg): Mem {
    m.(rd := m.rd + 1, taken := m.taken + [buff])
  }

  /** A producer goes from `pc` to `pc'`, memory from `m` to `m'`.  A weak
      compare-and-swap may fail although the values agree; `strong` rules
      exactly those spurious failures out. */
  ghost predicate Push(m: Mem, m': Mem, t: Tid, pc: Pc, pc': Pc, strong: bool)
    requires WellSized(m)
  {
    match pc
    case PLoadCt(msg) =>
      m' == m && pc' == PLoadRd(msg, m.ct)
    case PLoadRd(msg, cur) =>
      m' == m && pc' == if Slot(cur + 1) == Slot(m.rd) then Idle else PCasCt(msg, cur)
    case PCasCt(msg, cur) =>
      || (m.ct == cur && m' == Claim(m, t, msg) && pc' == PWrite(msg, cur, {}))
      || ((strong ==> m.ct != cur) && m' == m && pc' == PLoadCt(msg))
    case PWrite(msg, cur, done) =>
      || (exists k: nat :: k < m.size && k < |msg| && k !in done
            && m' == WriteByte(m, cur, k, msg[k]) && pc' == PWrite(msg, cur, done + {k}))
      || (Whole(done, m.size) && m' == StoreFlag(m, cur, Commit(cur), Flagged) && pc' == PLoadFlag(cur))
    case PLoadFlag(cur) =>
      m' == m && pc' == PLoadWt(cur, m.cells[Slot(cur)].flag)
    case PLoadWt(cur, cac) =>
      m' == m && pc' == if cur != m.wt || cac != Commit(cur) then Idle else PClear(cur, cac)
    case PClear(cur, cac) =>
      if m.cells[Slot(cur)].flag == cac
      then m' == StoreFlag(m, cur, Zero, Advancing(t)) && pc' == PStoreWt(cur)
      else m' == m && pc' == Idle
    case PStoreWt(cur) =>
      m' == StoreWt(m, cur) && pc' == PLoadFlag(cur + 1)
    case _ => false
  }

  /** A consumer goes from `pc` to `pc'`. */
  ghost predicate Pop(m: Mem, m': Mem, t: Tid, pc: Pc, pc': Pc, strong: bool)
    requires WellSized(m)
  {
    match pc
    case CLoadRd =>
      m' == m && pc' == CLoadWt(m.rd)
    case CLoadWt(cur) =>
      && m' == m
      && (if Slot(cur) == Slot(m.wt) then pc' == CLoadFlag(m.wt)
          // the local buffer starts with whatever was on the stack
          else pc'.CCopy? && pc'.cur == cur && |pc'.buff| == m.size && pc'.done == {})
    case CLoadFlag(w) =>
      var cac := m.cells[Slot(w)].flag;
      m' == m && pc' == if cac != Commit(w) then Idle else CClear(w, cac)
    case CClear(w, cac) =>
      || (m.cells[Slot(w)].flag == cac && m' == StoreFlag(m, w, Zero, Advancing(t)) && pc' == CStoreWt(w))
      || ((strong ==> m.cells[Slot(w)].flag != cac) && m' == m && pc' == CLoadRd)
    case CStoreWt(w) =>
      m' == StoreWt(m, w) && pc' == CLoadRd
    case CCopy(cur, buff, done) =>
      || (exists k: nat :: k < m.size && k < |buff| && k !in done && m' == m
            && pc' == CCopy(cur, buff[k := m.cells[Slot(cur)].data[k]], done + {k}))
      || (Whole(done, m.size) && m.rd == cur && m' == TakeRd(m, buff) && pc' == Idle)
      || (Whole(done, m.size) && (strong ==> m.rd != cur) && m' == m && pc' == CLoadRd)
    case _ => false
  }

  ghost predicate Call(m: Mem, m': Mem, pc: Pc, pc': Pc) {
    && m' == m && pc == Idle
    && (pc' == CLoadRd || (pc'.PLoadCt? && |pc'.m| == m.size))
  }

  ghost predicate Step(s: State, s': State, t: Tid, strong: bool)
    requires WellSized(s.mem)
  {
    && t in s.thr && t in s'.thr
    && s'.thr == s.thr[t := s'.thr[t]]
    && (|| Call(s.mem, s'.mem, s.thr[t], s'.thr[t])
        || Push(s.mem, s'.mem, t, s.thr[t], s'.thr[t], strong)
        || Pop(s.mem, s'.mem, t, s.thr[t], s'.thr[t], strong))
  }

  ghost predicate Init(s: State) {
    && WellSized(s.mem)
    && s.mem.rd == s.mem.wt == s.mem.ct == 0
    && (forall k: nat | k < N :: s.mem.cells[k].flag == Zero)
    && s.mem.log == [] && s.mem.taken == [] && s.mem.own == map[]
    && (forall t | t in s.thr :: s.thr[t] == Idle)
  }

  // ---------------------------------------------------------------- invariant

  ghost predicate Window(m: Mem) {
    && WellSized(m)
    && m.rd <= m.wt <= m.ct < m.rd + N
    && |m.log| == m.ct
    && (forall i: nat | i < m.ct :: |m.log[i]| == m.size)
    && m.taken == m.log[..m.rd]
    && (forall i: nat :: i in m.own <==> m.wt <= i < m.ct)
  }

  /** Every claimed index that is not being written holds its message. */
  ghost predicate Stored(m: Mem)
    requires Window(m)
  {
    forall i: nat | m.rd <= i < m.ct && (i in m.own ==> !m.own[i].Writing?) ::
      m.cells[Slot(i)].data == m.log[i]
  }

  ghost predicate FlagsMatch(m: Mem)
    requires Window(m)
  {
    && (forall i: nat | i in m.own && m.own[i].Flagged? :: m.cells[Slot(i)].flag == Commit(i))
    && (forall k: nat | k < N && m.cells[k].flag.Commit? ::
          var i := m.cells[k].flag.index;
          Slot(i) == k && i in m.own && m.own[i].Flagged?)
    && (forall i: nat | i in m.own && m.own[i].Advancing? :: i == m.wt)
  }

  ghost predicate MemOk(m: Mem) {
    Window(m) && Stored(m) && FlagsMatch(m)
  }

  /** What a thread at `pc` may rely on, whatever the others do. */
  ghost predicate PcOk(m: Mem, t: Tid, pc: Pc)
    requires Window(m)
  {
    match pc
    case PLoadCt(msg) => |msg| == m.size
    case PLoadRd(msg, cur) => |msg| == m.size && cur <= m.ct
    case PCasCt(msg, cur) => |msg| == m.size && cur <= m.ct && (cur == m.ct ==> cur + 1 < m.rd + N)
    case PWrite(msg, cur, done) =>
      && cur in m.own && m.own[cur] == Writing(t)
      && m.log[cur] == msg
      && Agrees(m.cells[Slot(cur)].data, msg, done)
    case PClear(cur, cac) => cac == Commit(cur) && cur <= m.wt
    case PStoreWt(cur) => cur in m.own && m.own[cur] == Advancing(t) && cur == m.wt
    case CLoadWt(cur) => cur <= m.rd
    case CLoadFlag(w) => w <= m.wt
    case CClear(w, cac) => cac == Commit(w) && w <= m.wt
    case CStoreWt(w) => w in m.own && m.own[w] == Advancing(t) && w == m.wt
    case CCopy(cur, buff, done) =>
      && |buff| == m.size && cur <= m.rd
      && (cur == m.rd ==> cur < m.wt && Agrees(buff, m.log[cur], done))
    case _ => true
  }

  // The thread at `pc` is the one that owner `o` of index `i` names.
  ghost predicate Holds(pc: Pc, i: nat, o: Owner) {
    match o
    case Writing(_) => pc.PWrite? && pc.cur == i
    case Advancing(_) => pc == PStoreWt(i) || pc == CStoreWt(i)
    case Flagged => true
  }

  ghost predicate OwnersReal(s: State) {
    forall i | i in s.mem.own && !s.mem.own[i].Flagged? ::
      s.mem.own[i].t in s.thr && Holds(s.thr[s.mem.own[i].t], i, s.mem.own[i])
  }

  ghost predicate Inv(s: State) {
    && MemOk(s.mem)
    && OwnersReal(s)
    && (forall t | t in s.thr :: PcOk(s.mem, t, s.thr[t]))
  }

  lemma InitInv(s: State)
    requires Init(s)
    ensures Inv(s)
  {
  }

  // ---------------------------------------------------------------- preservation

  /** Indices that are live together sit in different slots. */
  lemma SlotsApart(m: Mem, i: nat)
    requires Window(m) && m.rd <= i < m.ct
    ensures forall j: nat | m.rd <= j < m.ct && j != i :: Slot(j) != Slot(i)
  {
  }

  /** Whoever finds flag ~w with w <= wt finds w == wt, still unpassed. */
  lemma FlagAtWt(m: Mem, w: nat)
    requires MemOk(m) && w <= m.wt && m.cells[Slot(w)].flag == Commit(w)
    ensures w == m.wt && w in m.own && m.own[w].Flagged?
  {
  }

  lemma ClaimMem(m: Mem, t: Tid, msg: Msg)
    requires MemOk(m) && m.ct + 1 < m.rd + N && |msg| == m.size
    ensures MemOk(Claim(m, t, msg))
  {
    assert Claim(m, t, msg).log[..m.rd] == m.log[..m.rd];
  }

  lemma WriteByteMem(m: Mem, t: Tid, cur: nat, k: nat, b: Byte)
    requires MemOk(m) && cur in m.own && m.own[cur] == Writing(t) && k < m.size
    ensures MemOk(WriteByte(m, cur, k, b))
  {
    SlotsApart(m, cur);
  }

  lemma StoreFlagMem(m: Mem, cur: nat, f: Flag, o: Owner)
    requires MemOk(m) && cur in m.own && m.cells[Slot(cur)].data == m.log[cur]
    requires (f == Commit(cur) && o == Flagged) || (f == Zero && o.Advancing? && cur == m.wt)
    ensures MemOk(StoreFlag(m, cur, f, o))
  {
    SlotsApart(m, cur);
  }

  lemma StoreWtMem(m: Mem, t: Tid, w: nat)
    requires MemOk(m) && w == m.wt && w in m.own && m.own[w] == Advancing(t)
    ensures MemOk(StoreWt(m, w))
  {
  }

  lemma TakeMem(m: Mem, buff: Msg, done: set<nat>)
    requires MemOk(m) && m.rd < m.wt && Agrees(buff, m.log[m.rd], done) && Whole(done, m.size)
    ensures buff == m.log[m.rd] && MemOk(TakeRd(m, buff))
  {
    WholeCopyIsEqual(buff, m.log[m.rd], done);
    assert m.log[..m.rd + 1] == m.log[..m.rd] + [m.log[m.rd]];
  }

  lemma PushMem(m: Mem, m': Mem, t: Tid, pc: Pc, pc': Pc)
    requires MemOk(m) && PcOk(m, t, pc) && Push(m, m', t, pc, pc', false)
    ensures MemOk(m')
  {
    if m' != m {
      match pc {
        case PCasCt(msg, _) => ClaimMem(m, t, msg);
        case PWrite(msg, cur, done) =>
          if pc' == PLoadFlag(cur) {
            WholeCopyIsEqual(m.cells[Slot(cur)].data, msg, done);
            StoreFlagMem(m, cur, Commit(cur), Flagged);
          } else {
            var k: nat :| k < m.size && k < |msg| && m' == WriteByte(m, cur, k, msg[k]);
            WriteByteMem(m, t, cur, k, msg[k]);
          }
        case PClear(cur, _) =>
          FlagAtWt(m, cur);
          StoreFlagMem(m, cur, Zero, Advancing(t));
        case PStoreWt(cur) => StoreWtMem(m, t, cur);
      }
    }
  }

  lemma PopMem(m: Mem, m': Mem, t: Tid, pc: Pc, pc': Pc)
    requires MemOk(m) && PcOk(m, t, pc) && Pop(m, m', t, pc, pc', false)
    ensures MemOk(m')
  {
    if m' != m {
      match pc {
        case CClear(w, _) =>
          FlagAtWt(m, w);
          StoreFlagMem(m, w, Zero, Advancing(t));
        case CStoreWt(w) => StoreWtMem(m, t, w);
        case CCopy(cur, buff, done) => TakeMem(m, buff, done);
      }
    }
  }

  lemma WriteSelf(m: Mem, m': Mem, t: Tid, pc: Pc, pc': Pc)
    requires MemOk(m) && PcOk(m, t, pc) && Push(m, m', t, pc, pc', false) && Window(m')
    requires pc.PWrite?
    ensures PcOk(m', t, pc')
  {
  }

  lemma ClearSelf(m: Mem, m': Mem, t: Tid, pc: Pc, pc': Pc)
    requires MemOk(m) && PcOk(m, t, pc) && Push(m, m', t, pc, pc', false) && Window(m')
    requires pc.PClear?
    ensures PcOk(m', t, pc')
  {
    if m' != m {
      FlagAtWt(m, pc.cur);
    }
  }

  lemma PushSelf(m: Mem, m': Mem, t: Tid, pc: Pc, pc': Pc)
    requires MemOk(m) && PcOk(m, t, pc) && Push(m, m', t, pc, pc', false) && Window(m')
    ensures PcOk(m', t, pc')
  {
    match pc {
      case PWrite(_, _, _) => WriteSelf(m, m', t, pc, pc');
      case PClear(_, _) => ClearSelf(m, m', t, pc, pc');
      case _ => LoadSelf(m, m', t, pc, pc');
    }
  }

  lemma LoadSelf(m: Mem, m': Mem, t: Tid, pc: Pc, pc': Pc)
    requires Window(m) && PcOk(m, t, pc) && Push(m, m', t, pc, pc', false) && Window(m')
    requires !pc.PWrite? && !pc.PClear?
    ensures PcOk(m', t, pc')
  {
  }

  lemma PopSelf(m: Mem, m': Mem, t: Tid, pc: Pc, pc': Pc)
    requires MemOk(m) && PcOk(m, t, pc) && Pop(m, m', t, pc, pc', false) && Window(m')
    ensures PcOk(m', t, pc')
  {
    if pc.CClear? && m' != m {
      FlagAtWt(m, pc.wt);
    }
  }

  /** A step of thread `t`, as every other thread sees it. */
  ghost predicate Foreign(m: Mem, m': Mem, t: Tid)
    requires Window(m) && Window(m')
  {
    && m'.size == m.size && m.rd <= m'.rd && m.wt <= m'.wt && m.ct <= m'.ct
    && m.log <= m'.log
    && (forall i | i in m.own && !m.own[i].Flagged? && m.own[i].t != t ::
          && i in m'.own && m'.own[i] == m.own[i]
          && (m.own[i].Writing? ==> m'.cells[Slot(i)].data == m.cells[Slot(i)].data)
          && (m.own[i].Advancing? ==> m'.wt == m.wt))
    && (forall i | i in m'.own && !m'.own[i].Flagged? && m'.own[i].t != t ::
          i in m.own && m.own[i] == m'.own[i])
  }

  lemma WriteByteForeign(m: Mem, t: Tid, cur: nat, k: nat, b: Byte)
    requires MemOk(m) && cur in m.own && m.own[cur] == Writing(t) && k < m.size && Window(WriteByte(m, cur, k, b))
    ensures Foreign(m, WriteByte(m, cur, k, b), t)
  {
    SlotsApart(m, cur);
  }

  lemma StoreFlagForeign(m: Mem, t: Tid, cur: nat, f: Flag, o: Owner)
    requires Window(m) && cur in m.own && Window(StoreFlag(m, cur, f, o))
    requires (m.own[cur] == Writing(t) && o == Flagged) || (m.own[cur] == Flagged && o == Advancing(t))
    ensures Foreign(m, StoreFlag(m, cur, f, o), t)
  {
  }

  lemma PushForeign(m: Mem, m': Mem, t: Tid, pc: Pc, pc': Pc)
    requires MemOk(m) && PcOk(m, t, pc) && Push(m, m', t, pc, pc', false) && Window(m')
    ensures Foreign(m, m', t)
  {
    if m' != m {
      match pc {
        case PWrite(msg, cur, done) =>
          if pc' == PLoadFlag(cur) {
            StoreFlagForeign(m, t, cur, Commit(cur), Flagged);
          } else {
            var k: nat :| k < m.size && k < |msg| && m' == WriteByte(m, cur, k, msg[k]);
            WriteByteForeign(m, t, cur, k, msg[k]);
          }
        case PClear(cur, _) =>
          FlagAtWt(m, cur);
          StoreFlagForeign(m, t, cur, Zero, Advancing(t));
        case _ =>
      }
    }
  }

  lemma PopForeign(m: Mem, m': Mem, t: Tid, pc: Pc, pc': Pc)
    requires MemOk(m) && PcOk(m, t, pc) && Pop(m, m', t, pc, pc', false) && Window(m')
    ensures Foreign(m, m', t)
  {
    if pc.CClear? && m' != m {
      FlagAtWt(m, pc.wt);
    }
  }

  lemma ForeignPc(m: Mem, m': Mem, t: Tid, u: Tid, pc: Pc)
    requires Window(m) && Window(m') && Foreign(m, m', t) && u != t && PcOk(m, u, pc)
    ensures PcOk(m', u, pc)
  {
  }

  ghost predicate OwnsOnly(m: Mem, t: Tid, pc: Pc) {
    forall i | i in m.own && !m.own[i].Flagged? && m.own[i].t == t :: Holds(pc, i, m.own[i])
  }

  lemma LoadOwns(m: Mem, m': Mem, t: Tid, pc: Pc, pc': Pc)
    requires Window(m) && Push(m, m', t, pc, pc', false) && OwnsOnly(m, t, pc)
    requires !pc.PWrite? && !pc.PClear? && !pc.PStoreWt?
    ensures OwnsOnly(m', t, pc')
  {
  }

  lemma OwnerOwns(m: Mem, m': Mem, t: Tid, pc: Pc, pc': Pc)
    requires Window(m) && Push(m, m', t, pc, pc', false) && OwnsOnly(m, t, pc)
    requires pc.PWrite? || pc.PClear? || pc.PStoreWt?
    ensures OwnsOnly(m', t, pc')
  {
  }

  lemma PushOwns(m: Mem, m': Mem, t: Tid, pc: Pc, pc': Pc)
    requires Window(m) && Push(m, m', t, pc, pc', false) && OwnsOnly(m, t, pc)
    ensures OwnsOnly(m', t, pc')
  {
    if pc.PWrite? || pc.PClear? || pc.PStoreWt? {
      OwnerOwns(m, m', t, pc, pc');
    } else {
      LoadOwns(m, m', t, pc, pc');
    }
  }

  lemma PopOwns(m: Mem, m': Mem, t: Tid, pc: Pc, pc': Pc)
    requires MemOk(m) && PcOk(m, t, pc) && Pop(m, m', t, pc, pc', false) && OwnsOnly(m, t, pc)
    ensures OwnsOnly(m', t, pc')
  {
  }

  lemma MoveInv(s: State, s': State, t: Tid)
    requires Inv(s) && Step(s, s', t, false)
    ensures MemOk(s'.mem) && PcOk(s'.mem, t, s'.thr[t])
    ensures Foreign(s.mem, s'.mem, t) && OwnsOnly(s'.mem, t, s'.thr[t])
  {
    var m, m', pc, pc' := s.mem, s'.mem, s.thr[t], s'.thr[t];
    assert OwnsOnly(m, t, pc);
    if Push(m, m', t, pc, pc', false) {
      PushMem(m, m', t, pc, pc');
      PushSelf(m, m', t, pc, pc');
      PushForeign(m, m', t, pc, pc');
      PushOwns(m, m', t, pc, pc');
    } else if Pop(m, m', t, pc, pc', false) {
      PopMem(m, m', t, pc, pc');
      PopSelf(m, m', t, pc, pc');
      PopForeign(m, m', t, pc, pc');
      PopOwns(m, m', t, pc, pc');
    }
  }

  lemma StepInv(s: State, s': State, t: Tid)
    requires Inv(s) && Step(s, s', t, false)
    ensures Inv(s')
  {
    MoveInv(s, s', t);
    forall u | u in s'.thr && u != t
      ensures PcOk(s'.mem, u, s'.thr[u])
    {
      ForeignPc(s.mem, s'.mem, t, u, s.thr[u]);
    }
  }

  // ---------------------------------------------------------------- runs

  ghost predicate Next(s: State, s': State) {
    WellSized(s.mem) && exists t :: Step(s, s', t, false)
  }

  ghost predicate Run(run: seq<State>) {
    Runs.IsRun(run, Init, Next)
  }

  lemma {:induction false} RunInv(run: seq<State>, i: nat)
    requires Run(run) && i < |run|
    ensures Inv(run[i])
  {
    assert Runs.Lawful(run, Init, Next, i);
    if i == 0 {
      InitInv(run[0]);
    } else {
      RunInv(run, i - 1);
      var t :| Step(run[i - 1], run[i], t, false);
      StepInv(run[i - 1], run[i], t);
    }
  }

  /** The counters keep their window, and what pops have returned so far is
      the prefix of the claimed messages up to rd: every message goes out at
      most once, in claim order, and none is skipped. */
  lemma DeliveredInClaimOrder(run: seq<State>, i: nat)
    requires Run(run) && i < |run|
    ensures var m := run[i].mem;
            && m.rd <= m.wt <= m.ct <= m.rd + N - 1
            && |m.log| == m.ct && m.taken == m.log[..m.rd]
  {
    RunInv(run, i);
  }

  /** 0 unclaimed, 1 claimed and being written, 2 committed, 3 flag cleared by
      the thread that will advance wt, 4 passed by wt, 5 taken. */
  ghost function Stage(m: Mem, i: nat): nat
    requires Window(m)
  {
    if m.ct <= i then 0
    else if i < m.rd then 5
    else if i < m.wt then 4
    else match m.own[i]
         case Writing(_) => 1
         case Flagged => 2
         case Advancing(_) => 3
  }

  lemma StagePush(m: Mem, m': Mem, t: Tid, pc: Pc, pc': Pc, i: nat)
    requires MemOk(m) && PcOk(m, t, pc) && Push(m, m', t, pc, pc', false) && Window(m')
    ensures Stage(m, i) <= Stage(m', i) <= Stage(m, i) + 1
  {
    if pc.PClear? && m' != m {
      FlagAtWt(m, pc.cur);
    }
  }

  lemma StagePop(m: Mem, m': Mem, t: Tid, pc: Pc, pc': Pc, i: nat)
    requires MemOk(m) && PcOk(m, t, pc) && Pop(m, m', t, pc, pc', false) && Window(m')
    ensures Stage(m, i) <= Stage(m', i) <= Stage(m, i) + 1
  {
    if pc.CClear? && m' != m {
      FlagAtWt(m, pc.wt);
    }
  }

  /** No step takes an index back, and no step takes it over a stage. */
  lemma StageStep(s: State, s': State, t: Tid, i: nat)
    requires Inv(s) && Step(s, s', t, false)
    ensures Window(s'.mem)
    ensures Stage(s.mem, i) <= Stage(s'.mem, i) <= Stage(s.mem, i) + 1
    ensures s.mem.log <= s'.mem.log
  {
    var m, m', pc, pc' := s.mem, s'.mem, s.thr[t], s'.thr[t];
    if Push(m, m', t, pc, pc', false) {
      PushMem(m, m', t, pc, pc');
      PushForeign(m, m', t, pc, pc');
      StagePush(m, m', t, pc, pc', i);
    } else if Pop(m, m', t, pc, pc', false) {
      PopMem(m, m', t, pc, pc');
      PopForeign(m, m', t, pc, pc');
      StagePop(m, m', t, pc, pc', i);
    }
  }

  /** Memory `m'` comes at or after `m` in some run. */
  ghost predicate Later(m: Mem, m': Mem) {
    && Window(m) && Window(m')
    && m.log <= m'.log
    && (forall i: nat :: Stage(m, i) <= Stage(m', i))
  }

  lemma LaterTrans(a: Mem, b: Mem, c: Mem)
    requires Later(a, b) && Later(b, c)
    ensures Later(a, c)
  {
    forall i: nat
      ensures Stage(a, i) <= Stage(c, i)
    {
      assert Stage(a, i) <= Stage(b, i) <= Stage(c, i);
    }
  }

  lemma StepLater(s: State, s': State)
    requires Inv(s) && Next(s, s')
    ensures Later(s.mem, s'.mem)
  {
    var t :| Step(s, s', t, false);
    StageStep(s, s', t, 0);
    forall i: nat
      ensures Stage(s.mem, i) <= Stage(s'.mem, i)
    {
      StageStep(s, s', t, i);
    }
  }

  lemma LaterInRun(run: seq<State>, b: nat)
    requires Run(run) && 0 < b < |run|
    ensures Later(run[b - 1].mem, run[b].mem)
  {
    RunInv(run, b - 1);
    assert Runs.Lawful(run, Init, Next, b);
    StepLater(run[b - 1], run[b]);
  }

  lemma LaterRefl(s: State)
    requires Inv(s)
    ensures Later(s.mem, s.mem)
  {
  }

  /** Once an index has left a stage it is never seen there again: it is
      claimed once, its flag is set and cleared once, and it is taken once. */
  lemma {:induction false} StagesInOrder(run: seq<State>, a: nat, b: nat)
    requires Run(run) && a <= b < |run|
    ensures Later(run[a].mem, run[b].mem)
    decreases b
  {
    if a == b {
      RunInv(run, a);
      LaterRefl(run[a]);
    } else {
      StagesInOrder(run, a, b - 1);
      LaterInRun(run, b);
      LaterTrans(run[a].mem, run[b - 1].mem, run[b].mem);
    }
  }

  lemma ClaimStep(s: State, s': State, t: Tid)
    requires Inv(s) && Step(s, s', t, false) && s'.mem.ct == s.mem.ct + 1
    ensures s.thr[t].PCasCt? && s'.mem.log == s.mem.log + [s.thr[t].m] && |s.mem.log| == s.mem.ct
  {
  }

  lemma TakeStep(s: State, s': State, t: Tid)
    requires Inv(s) && Step(s, s', t, false) && s'.mem.rd == s.mem.rd + 1
    ensures s.thr[t].CCopy? && s.mem.rd < s.mem.ct && s.thr[t].buff == s.mem.log[s.mem.rd]
  {
    TakeMem(s.mem, s.thr[t].buff, s.thr[t].done);
  }

  /** The consumer whose compare-and-swap moves rd from i returns, byte for
      byte, the message of the producer whose compare-and-swap moved ct from i. */
  lemma PopReturnsTheClaimedMessage(run: seq<State>, a: nat, t: Tid, b: nat, u: Tid)
    requires Run(run) && a + 1 < |run| && b + 1 < |run|
    requires WellSized(run[a].mem) && Step(run[a], run[a + 1], t, false)
    requires WellSized(run[b].mem) && Step(run[b], run[b + 1], u, false)
    requires run[a + 1].mem.ct == run[a].mem.ct + 1
    requires run[b + 1].mem.rd == run[b].mem.rd + 1
    requires run[b].mem.rd == run[a].mem.ct
    ensures a < b
    ensures run[a].thr[t].PCasCt? && run[b].thr[u].CCopy?
    ensures run[b].thr[u].buff == run[a].thr[t].m
  {
    assert run[a].thr[t].PCasCt? && run[a + 1].mem.log == run[a].mem.log + [run[a].thr[t].m]
      && |run[a].mem.log| == run[a].mem.ct by {
      RunInv(run, a);
      ClaimStep(run[a], run[a + 1], t);
    }
    var i := run[a].mem.ct;
    assert run[b].thr[u].CCopy? && i < run[b].mem.ct == |run[b].mem.log|
      && run[b].thr[u].buff == run[b].mem.log[i] by {
      RunInv(run, b);
      TakeStep(run[b], run[b + 1], u);
    }
    if b <= a {
      StagesInOrder(run, b, a);
    }
    StagesInOrder(run, a + 1, b);
  }

  // ---------------------------------------------------------------- helping

  ghost predicate WritingAt(s: State, t: Tid, i: nat) {
    t in s.thr && s.thr[t].PWrite? && s.thr[t].cur == i
  }

  ghost predicate AdvancingAt(s: State, t: Tid, i: nat) {
    t in s.thr && (s.thr[t] == PStoreWt(i) || s.thr[t] == CStoreWt(i))
  }

  lemma RolesOwn(s: State, t: Tid, i: nat)
    requires Inv(s)
    ensures WritingAt(s, t, i) ==> i in s.mem.own && s.mem.own[i] == Writing(t)
    ensures AdvancingAt(s, t, i) ==> i in s.mem.own && s.mem.own[i] == Advancing(t)
  {
  }

  lemma OwnersPlay(s: State, i: nat)
    requires Inv(s) && i in s.mem.own
    ensures match s.mem.own[i]
            case Writing(t) => WritingAt(s, t, i)
            case Advancing(t) => AdvancingAt(s, t, i) && i == s.mem.wt
            case Flagged => true
    ensures s.mem.cells[Slot(i)].flag == Commit(i) <==> s.mem.own[i].Flagged?
  {
  }

  /** Each index in [wt, ct) has exactly one way forward: its producer is still
      writing it, or its flag is up for anyone to see, or it is wt itself and
      one thread is about to store wt + 1. */
  lemma NothingIsStranded(s: State, i: nat)
    requires Inv(s) && s.mem.wt <= i < s.mem.ct
    ensures var raised := s.mem.cells[Slot(i)].flag == Commit(i);
            var writing := exists t :: WritingAt(s, t, i);
            var advancing := exists t :: AdvancingAt(s, t, i);
            && (writing || raised || advancing)
            && !(writing && raised) && !(writing && advancing) && !(raised && advancing)
            && (advancing ==> i == s.mem.wt)
    ensures forall t, u :: AdvancingAt(s, t, i) && AdvancingAt(s, u, i) ==> t == u
    ensures forall t, u :: WritingAt(s, t, i) && WritingAt(s, u, i) ==> t == u
  {
    OwnersPlay(s, i);
    forall t
      ensures WritingAt(s, t, i) ==> s.mem.own[i] == Writing(t)
      ensures AdvancingAt(s, t, i) ==> s.mem.own[i] == Advancing(t)
    {
      RolesOwn(s, t, i);
    }
  }

  /** Thread `t` is alone and part way through a pop that has a message to find. */
  ghost predicate Solo(s: State, t: Tid) {
    && Inv(s) && t in s.thr && s.mem.rd < s.mem.ct
    && (forall u | u in s.thr && u != t :: s.thr[u] == Idle)
    && match s.thr[t]
       case CLoadRd => true
       case CLoadWt(cur) => cur == s.mem.rd
       case CLoadFlag(w) => w == s.mem.wt == s.mem.rd
       case CClear(w, cac) => w == s.mem.wt == s.mem.rd
       case CStoreWt(w) => w == s.mem.rd
       case CCopy(cur, buff, done) => cur == s.mem.rd
       case _ => false
  }

  // A bound on the steps left.
  ghost function Rank(s: State, t: Tid): nat
    requires Solo(s, t)
  {
    var help := if s.mem.rd == s.mem.wt then 5 else 0;
    match s.thr[t]
    case CLoadRd => s.mem.size + 3 + help
    case CLoadWt(_) => s.mem.size + 2 + help
    case CLoadFlag(_) => s.mem.size + 6
    case CClear(_, _) => s.mem.size + 5
    case CStoreWt(_) => s.mem.size + 4
    case CCopy(_, _, done) => Left(done, s.mem.size)
  }

  /** `s'` is `s` after one successful pop by `t`. */
  ghost predicate Popped(s: State, s': State, t: Tid)
    requires Inv(s) && s.mem.rd < s.mem.ct
  {
    && t in s'.thr && s'.thr[t] == Idle
    && s'.mem.taken == s.mem.taken + [s.mem.log[s.mem.rd]]
  }

  lemma SoloHelps(s: State, t: Tid)
    requires Solo(s, t) && s.mem.rd == s.mem.wt
    ensures s.mem.cells[Slot(s.mem.wt)].flag == Commit(s.mem.wt) <==> !s.thr[t].CStoreWt?
  {
    OwnersPlay(s, s.mem.wt);
    RolesOwn(s, t, s.mem.wt);
  }

  lemma SoloCopies(s: State, s': State, t: Tid)
    requires Solo(s, t) && Inv(s') && Step(s, s', t, true) && s.thr[t].CCopy?
    ensures Popped(s, s', t) || (Solo(s', t) && s'.mem == s.mem && Rank(s', t) < Rank(s, t))
  {
    var pc := s.thr[t];
    if s'.mem != s.mem {
      TakeMem(s.mem, pc.buff, pc.done);
    } else if s'.thr[t].CCopy? {
      var k: nat :| k < s.mem.size && k !in pc.done && s'.thr[t].done == pc.done + {k};
      OneByteFewer(pc.done, s.mem.size, k);
    }
  }

  /** What every step of a lone pop does: it succeeds or brings the end nearer. */
  ghost predicate SoloProgress(s: State, s': State, t: Tid)
    requires Solo(s, t)
  {
    || Popped(s, s', t)
    || (Solo(s', t) && Rank(s', t) < Rank(s, t)
        && s'.mem.rd == s.mem.rd && s'.mem.log == s.mem.log && s'.mem.taken == s.mem.taken)
  }

  lemma SoloSeesFlag(s: State, s': State, t: Tid)
    requires Solo(s, t) && Inv(s') && Step(s, s', t, true) && s.thr[t].CLoadFlag?
    ensures SoloProgress(s, s', t)
  {
    SoloHelps(s, t);
  }

  lemma SoloClears(s: State, s': State, t: Tid)
    requires Solo(s, t) && Inv(s') && Step(s, s', t, true)
    ensures s.thr[t].CClear? ==> SoloProgress(s, s', t)
  {
    if s.thr[t].CClear? {
      SoloHelps(s, t);
    }
  }

  lemma SoloStores(s: State, s': State, t: Tid)
    requires Solo(s, t) && Inv(s') && Step(s, s', t, true) && s.thr[t].CStoreWt?
    ensures SoloProgress(s, s', t)
  {
  }

  lemma SoloLoadsRd(s: State, s': State, t: Tid)
    requires Solo(s, t) && Inv(s') && Step(s, s', t, true) && s.thr[t].CLoadRd?
    ensures SoloProgress(s, s', t)
  {
  }

  lemma SoloLoadsWt(s: State, s': State, t: Tid)
    requires Solo(s, t) && Inv(s') && Step(s, s', t, true) && s.thr[t].CLoadWt?
    ensures SoloProgress(s, s', t)
  {
    NothingMoved(s.mem.size);
    WithinARound(s.mem.rd, s.mem.wt);
  }

  lemma SoloStep(s: State, s': State, t: Tid)
    requires Solo(s, t) && Step(s, s', t, true)
    ensures SoloProgress(s, s', t)
  {
    StepInv(s, s', t);
    match s.thr[t] {
      case CLoadRd => SoloLoadsRd(s, s', t);
      case CLoadWt(_) => SoloLoadsWt(s, s', t);
      case CLoadFlag(_) => SoloSeesFlag(s, s', t);
      case CClear(_, _) => SoloClears(s, s', t);
      case CStoreWt(_) => SoloStores(s, s', t);
      case CCopy(_, _, _) => SoloCopies(s, s', t);
    }
  }

  ghost predicate SoloNext(s: State, s': State, t: Tid) {
    WellSized(s.mem) && Step(s, s', t, true)
  }

  /** With nobody else in flight and rd < ct, a pop that runs alone cannot
      report empty and cannot spin: in one step more than its rank it returns
      log[rd]. */
  lemma {:induction false} QuietPopSucceeds(run: seq<State>, t: Tid)
    requires |run| > 0 && Solo(run[0], t) && |run| > Rank(run[0], t) + 1
    requires forall i | 0 < i < |run| :: SoloNext(run[i - 1], run[i], t)
    ensures exists j: nat | j <= Rank(run[0], t) + 1 :: Popped(run[0], run[j], t)
    decreases |run|
  {
    assert SoloNext(run[0], run[1], t);
    SoloStep(run[0], run[1], t);
    if !Popped(run[0], run[1], t) {
      var rest := run[1..];
      assert forall i | 0 < i < |rest| :: SoloNext(run[i], run[i + 1], t) && SoloNext(rest[i - 1], rest[i], t);
      QuietPopSucceeds(rest, t);
      var j: nat :| j <= Rank(rest[0], t) + 1 && Popped(rest[0], rest[j], t);
      assert Popped(run[0], run[j + 1], t);
    }
  }

  function GoTo(s: State, t: Tid, pc: Pc): State {
    s.(thr := s.thr[t := pc])
  }

  // A copy goes on with some byte that is missing, or the block is taken.
  lemma CopyCanStep(s: State, t: Tid) returns (s': State)
    requires Solo(s, t) && s.thr[t].CCopy?
    ensures SoloNext(s, s', t)
  {
    var pc := s.thr[t];
    if k: nat :| k < s.mem.size && k !in pc.done {
      s' := GoTo(s, t, CCopy(pc.cur, pc.buff[k := s.mem.cells[Slot(pc.cur)].data[k]], pc.done + {k}));
    } else {
      s' := GoTo(s, t, Idle).(mem := TakeRd(s.mem, pc.buff));
    }
  }

  /** A lone pop can always go on. */
  lemma SoloCanStep(s: State, t: Tid) returns (s': State)
    requires Solo(s, t)
    ensures SoloNext(s, s', t)
  {
    var m := s.mem;
    match s.thr[t] {
      case CLoadRd => s' := GoTo(s, t, CLoadWt(m.rd));
      case CLoadWt(cur) =>
        s' := GoTo(s, t, if Slot(cur) == Slot(m.wt) then CLoadFlag(m.wt) else CCopy(cur, seq(m.size, _ => 0), {}));
      case CLoadFlag(w) =>
        var cac := m.cells[Slot(w)].flag;
        s' := GoTo(s, t, if cac != Commit(w) then Idle else CClear(w, cac));
      case CClear(w, cac) =>
        if m.cells[Slot(w)].flag == cac {
          s' := GoTo(s, t, CStoreWt(w)).(mem := StoreFlag(m, w, Zero, Advancing(t)));
        } else {
          s' := GoTo(s, t, CLoadRd);
        }
      case CStoreWt(w) => s' := GoTo(s, t, CLoadRd).(mem := StoreWt(m, w));
      case CCopy(_, _, _) => s' := CopyCanStep(s, t);
    }
  }

  /** So there is such a run, and it ends with the message. */
  lemma {:induction false} LonePopReturns(s: State, t: Tid) returns (run: seq<State>)
    requires Solo(s, t)
    ensures 1 < |run| <= Rank(s, t) + 2 && run[0] == s && Popped(s, run[|run| - 1], t)
    ensures forall i | 0 < i < |run| :: SoloNext(run[i - 1], run[i], t)
    decreases Rank(s, t)
  {
    var s' := SoloCanStep(s, t);
    SoloStep(s, s', t);
    if Popped(s, s', t) {
      run := [s, s'];
    } else {
      var rest := LonePopReturns(s', t);
      run := [s] + rest;
      forall i | 0 < i < |run|
        ensures SoloNext(run[i - 1], run[i], t)
      {
        if i > 1 {
          assert SoloNext(rest[i - 2], rest[i - 1], t);
        }
      }
    }
  }

  /** The premise: every thread idle, then one calls pop, with rank at most size + 8
      and hence at most size + 9 steps to go. */
  lemma QuietCall(s: State, s': State, t: Tid)
    requires Inv(s) && s.mem.rd < s.mem.ct && (forall u | u in s.thr :: s.thr[u] == Idle)
    requires Step(s, s', t, true) && s'.thr[t].CLoadRd?
    ensures Solo(s', t) && Rank(s', t) <= s.mem.size + 8 && s'.mem == s.mem
  {
    StepInv(s, s', t);
  }
}
