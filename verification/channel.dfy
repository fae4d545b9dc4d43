/** The many-writer broadcast ring (`ipc::channel`), without force_push and over
    a fixed set of receivers.

    One transition per atomic access and per byte of a block copy.  `phase`,
    `pos`, `log` and `got` are history variables: what each slot is doing, how
    many messages each receiver has finished, the messages in index order, and
    the byte blocks each receiver's pops returned. */
module Channel {
  import opened Ring
  import Runs

  // rc_: the epoch byte, the 24-bit update counter, the receivers still to read.
  datatype Rc = Rc(ep: nat, ic: nat, mask: set<nat>)

  // f_ct_: zero, a plain index, or the complement of one.
  datatype Flag = Zero | Plain(index: nat) | Commit(index: nat)

  datatype Cell = Cell(data: Msg, rc: Rc, flag: Flag)

  // What a slot is doing, and for which index.
  datatype Phase =
    | Free(i: nat)
    | Claimed(i: nat, t: Tid)
    | Orphan(i: nat)
    | Committed(i: nat)
    | Draining(i: nat, r: nat)

  datatype Mem = Mem(
    size: nat,
    conn: set<nat>,
    epoch: nat,
    ct: nat,
    cells: seq<Cell>,
    phase: seq<Phase>,
    pos: map<nat, nat>,
    log: seq<Msg>,
    got: map<nat, seq<Msg>>)

  datatype Who = Sender(t: Tid) | Receiver(r: nat)

  datatype Pc =
    | PIdle
    | PLoadEpoch(m: Msg)
    | PLoadConn(m: Msg, ep: nat)
    | PLoadCt(m: Msg, ep: nat, cc: set<nat>)
    | PLoadRc(m: Msg, ep: nat, cc: set<nat>, cur: nat)
    | PLoadFlag(m: Msg, ep: nat, cc: set<nat>, cur: nat, rc: Rc)
    | PCasRc(m: Msg, ep: nat, cc: set<nat>, cur: nat, rc: Rc)
    | PCasEpoch(m: Msg, ep: nat, cur: nat)
    | PStoreCt(m: Msg, cur: nat)
    | PWrite(m: Msg, cur: nat, done: set<nat>)
    | CIdle(cur: nat)
    | CCopy(i: nat, buff: Msg, done: set<nat>)
    | CLoadRc(i: nat, buff: Msg)
    | CStoreZero(i: nat, buff: Msg)
    | CStoreLast(i: nat, buff: Msg, rc: Rc)
    | CCasRc(i: nat, buff: Msg, rc: Rc)

  datatype State = State(mem: Mem, thr: map<Who, Pc>)

  // ---------------------------------------------------------------- transitions

  ghost predicate WellSized(m: Mem) {
    && |m.cells| == |m.phase| == N
    && (forall k: nat | k < N :: |m.cells[k].data| == m.size)
    && m.pos.Keys == m.got.Keys == m.conn
  }

  function At(m: Mem, i: nat): Cell
    requires |m.cells| == N
  {
    m.cells[Slot(i)]
  }

  function Put(m: Mem, i: nat, c: Cell, p: Phase): Mem
    requires |m.cells| == |m.phase| == N
  {
    m.(cells := m.cells[Slot(i) := c], phase := m.phase[Slot(i) := p])
  }

  function Claim(m: Mem, t: Tid, cur: nat, ep: nat, cc: set<nat>): Mem
    requires WellSized(m)
  {
    var c := At(m, cur);
    Put(m, cur, c.(rc := Rc(ep, c.rc.ic + 1, cc)), Claimed(cur, t))
  }

  function StoreCt(m: Mem, cur: nat, msg: Msg): Mem {
    m.(ct := cur + 1, log := m.log + [msg])
  }

  function WriteByte(m: Mem, cur: nat, k: nat, b: Byte): Mem
    requires WellSized(m) && k < m.size
  {
    var c := At(m, cur);
    m.(cells := m.cells[Slot(cur) := c.(data := c.data[k := b])])
  }

  function StoreFlag(m: Mem, i: nat, f: Flag, p: Phase): Mem
    requires WellSized(m)
  {
    Put(m, i, At(m, i).(flag := f), p)
  }

  function Finish(m: Mem, r: nat, i: nat, buff: Msg): Mem
    requires r in m.got
  {
    m.(pos := m.pos[r := i + 1], got := m.got[r := m.got[r] + [buff]])
  }

  function ClearBit(m: Mem, r: nat, i: nat): Mem
    requires WellSized(m)
  {
    var c := At(m, i);
    var rest := c.rc.mask - {r};
    Put(m, i, c.(rc := Rc(c.rc.ep, c.rc.ic + 1, rest)),
        if rest == {} then Free(i + N) else m.phase[Slot(i)])
  }

  /** A producer moves.  A weak compare-and-swap may fail although the values
      agree; this includes the self-swap of epoch_, after which the claimed slot
      has no owner (phase Orphan). */
  ghost predicate Push(m: Mem, m': Mem, t: Tid, pc: Pc, pc': Pc)
    requires WellSized(m)
  {
    match pc
    case PIdle =>
      m' == m && pc'.PLoadEpoch? && |pc'.m| == m.size
    case PLoadEpoch(msg) =>
      m' == m && pc' == PLoadConn(msg, m.epoch)
    case PLoadConn(msg, ep) =>
      m' == m && pc' == if m.conn == {} then PIdle else PLoadCt(msg, ep, m.conn)
    case PLoadCt(msg, ep, cc) =>
      m' == m && pc' == PLoadRc(msg, ep, cc, m.ct)
    case PLoadRc(msg, ep, cc, cur) =>
      var rc := At(m, cur).rc;
      m' == m && pc' ==
        if cc * rc.mask != {} && rc.ep == ep then PIdle
        else if rc.mask == {} then PLoadFlag(msg, ep, cc, cur, rc)
        else PCasRc(msg, ep, cc, cur, rc)
    case PLoadFlag(msg, ep, cc, cur, rc) =>
      var f := At(m, cur).flag;
      m' == m && pc' ==
        if f != Plain(cur) && f != Zero then PIdle
        else PCasRc(msg, ep, cc, cur, rc)
    case PCasRc(msg, ep, cc, cur, rc) =>
      || (At(m, cur).rc == rc && m' == Claim(m, t, cur, ep, cc) && pc' == PCasEpoch(msg, ep, cur))
      || (m' == m && pc' == PLoadConn(msg, ep))
    case PCasEpoch(msg, ep, cur) =>
      || (m.epoch == ep && m' == m && pc' == PStoreCt(msg, cur))
      || (m' == Put(m, cur, At(m, cur), Orphan(cur)) && pc' == PLoadConn(msg, m.epoch))
    case PStoreCt(msg, cur) =>
      m' == StoreCt(m, cur, msg) && pc' == PWrite(msg, cur, {})
    case PWrite(msg, cur, done) =>
      || (exists k: nat :: k < m.size && k < |msg| && k !in done
            && m' == WriteByte(m, cur, k, msg[k]) && pc' == PWrite(msg, cur, done + {k}))
      || (Whole(done, m.size) && m' == StoreFlag(m, cur, Commit(cur), Committed(cur)) && pc' == PIdle)
    case _ => false
  }

  /** Receiver `r` moves. */
  ghost predicate Pop(m: Mem, m': Mem, r: nat, pc: Pc, pc': Pc)
    requires WellSized(m)
  {
    match pc
    case CIdle(cur) =>
      && m' == m
      && (if At(m, cur).flag != Commit(cur) then pc' == pc
          // the caller's buffer starts with anything in it
          else pc'.CCopy? && pc'.i == cur && |pc'.buff| == m.size && pc'.done == {})
    case CCopy(i, buff, done) =>
      && m' == m
      && (|| (exists k: nat :: k < m.size && k < |buff| && k !in done
                && pc' == CCopy(i, buff[k := At(m, i).data[k]], done + {k}))
          || (Whole(done, m.size) && pc' == CLoadRc(i, buff)))
    case CLoadRc(i, buff) =>
      var rc := At(m, i).rc;
      m' == m && pc' ==
        if rc.mask == {} then CStoreZero(i, buff)
        else if rc.mask - {r} == {} then CStoreLast(i, buff, rc)
        else CCasRc(i, buff, rc)
    case CStoreZero(i, buff) =>
      && r in m.got
      && m' == Finish(StoreFlag(m, i, Plain(i + N), m.phase[Slot(i)]), r, i, buff)
      && pc' == CIdle(i + 1)
    case CStoreLast(i, buff, rc) =>
      m' == StoreFlag(m, i, Plain(i + N), Draining(i, r)) && pc' == CCasRc(i, buff, rc)
    case CCasRc(i, buff, rc) =>
      || (r in m.got && At(m, i).rc == rc && m' == Finish(ClearBit(m, r, i), r, i, buff) && pc' == CIdle(i + 1))
      || (m' == m && pc' == CLoadRc(i, buff))
    case _ => false
  }

  ghost predicate Move(m: Mem, m': Mem, w: Who, pc: Pc, pc': Pc)
    requires WellSized(m)
  {
    match w
    case Sender(t) => Push(m, m', t, pc, pc')
    case Receiver(r) => Pop(m, m', r, pc, pc')
  }

  ghost predicate Step(s: State, s': State, w: Who)
    requires WellSized(s.mem)
  {
    && w in s.thr && w in s'.thr
    && s'.thr == s.thr[w := s'.thr[w]]
    && Move(s.mem, s'.mem, w, s.thr[w], s'.thr[w])
  }

  ghost predicate Init(s: State) {
    var m := s.mem;
    && WellSized(m)
    && m.ct == 0 && m.log == []
    && (forall k: nat | k < N :: m.cells[k].flag == Zero && m.cells[k].rc == Rc(m.epoch, 0, {}) && m.phase[k] == Free(k))
    && (forall r | r in m.conn :: m.pos[r] == 0 && m.got[r] == [])
    && (forall w | w in s.thr ::
          match w case Sender(_) => s.thr[w] == PIdle case Receiver(r) => r in m.conn && s.thr[w] == CIdle(0))
  }

  // ---------------------------------------------------------------- invariant

  // The receivers that have not finished index i.
  ghost function Pending(m: Mem, i: nat): set<nat>
    requires m.pos.Keys == m.conn
  {
    set r | r in m.conn && m.pos[r] <= i
  }

  // What f_ct_ shows while the slot waits for index i.
  function FreeFlag(i: nat): Flag {
    if i < N then Zero else Plain(i)
  }

  ghost predicate Sound(m: Mem) {
    && WellSized(m)
    && |m.log| == m.ct
    && (forall i: nat | i < m.ct :: |m.log[i]| == m.size)
    && (forall r | r in m.conn :: m.pos[r] <= m.ct && m.got[r] == m.log[..m.pos[r]])
  }

  /** Where slot `k` stands relative to ct and to every receiver. */
  ghost predicate Placed(m: Mem, k: nat)
    requires Sound(m) && k < N
  {
    var i := m.phase[k].i;
    && Slot(i) == k && m.ct <= i + N && i < m.ct + N
    && (forall r | r in m.conn :: i < m.pos[r] + N)
    && (m.phase[k].Free? <==> (m.ct <= i && !m.phase[k].Claimed? && !m.phase[k].Orphan?))
  }

  ghost predicate CellOk(m: Mem, k: nat)
    requires Sound(m) && k < N
  {
    var c := m.cells[k];
    && c.rc.ep == m.epoch
    && match m.phase[k]
       case Free(i) => c.rc.mask == {} && c.flag == FreeFlag(i)
       case Claimed(i, t) =>
         i <= m.ct && c.flag == FreeFlag(i) && c.rc.mask == m.conn == Pending(m, i) && m.conn != {}
       case Orphan(i) =>
         i == m.ct && c.flag == FreeFlag(i) && c.rc.mask == m.conn && m.conn != {}
       case Committed(i) =>
         i < m.ct && c.flag == Commit(i) && c.rc.mask == Pending(m, i) != {} && c.data == m.log[i]
       case Draining(i, r) =>
         i < m.ct && c.flag == Plain(i + N) && c.rc.mask == Pending(m, i) == {r} && c.data == m.log[i]
  }

  ghost predicate MemOk(m: Mem) {
    && Sound(m)
    && (forall k: nat | k < N :: Placed(m, k))
    && (forall k: nat | k < N :: CellOk(m, k))
  }

  // rc was read from slot `i`, and any update since has raised ic.
  ghost predicate Snapshot(m: Mem, i: nat, rc: Rc)
    requires Sound(m)
  {
    rc.ic <= At(m, i).rc.ic && (rc.ic == At(m, i).rc.ic ==> rc == At(m, i).rc)
  }

  ghost predicate SenderOk(m: Mem, t: Tid, pc: Pc)
    requires Sound(m)
  {
    match pc
    case PIdle => true
    case PLoadEpoch(msg) => |msg| == m.size
    case PLoadConn(msg, ep) => |msg| == m.size && ep == m.epoch
    case PLoadCt(msg, ep, cc) => |msg| == m.size && ep == m.epoch && cc == m.conn != {}
    case PLoadRc(msg, ep, cc, cur) => |msg| == m.size && ep == m.epoch && cc == m.conn != {} && cur <= m.ct
    case PLoadFlag(msg, ep, cc, cur, rc) =>
      && |msg| == m.size && ep == m.epoch && cc == m.conn != {} && cur <= m.ct
      && rc.mask == {} && Snapshot(m, cur, rc)
    case PCasRc(msg, ep, cc, cur, rc) =>
      && |msg| == m.size && ep == m.epoch && cc == m.conn != {} && cur <= m.ct
      && Snapshot(m, cur, rc)
      && (At(m, cur).rc == rc ==> m.ct == cur && m.phase[Slot(cur)] == Free(cur))
    case PCasEpoch(msg, ep, cur) =>
      |msg| == m.size && ep == m.epoch && m.ct == cur && m.phase[Slot(cur)] == Claimed(cur, t)
    case PStoreCt(msg, cur) =>
      |msg| == m.size && m.ct == cur && m.phase[Slot(cur)] == Claimed(cur, t)
    case PWrite(msg, cur, done) =>
      && cur < m.ct && m.phase[Slot(cur)] == Claimed(cur, t)
      && msg == m.log[cur] && Agrees(At(m, cur).data, msg, done)
    case _ => false
  }

  // Slot i still holds message i for receiver r.
  ghost predicate InHand(m: Mem, r: nat, i: nat)
    requires Sound(m)
  {
    && r in m.conn && m.pos[r] == i && i < m.ct
    && (m.phase[Slot(i)] == Committed(i) || m.phase[Slot(i)] == Draining(i, r))
  }

  ghost predicate ReceiverOk(m: Mem, r: nat, pc: Pc)
    requires Sound(m)
  {
    match pc
    case CIdle(cur) => r in m.conn && m.pos[r] == cur
    case CCopy(i, buff, done) => InHand(m, r, i) && Agrees(buff, m.log[i], done)
    case CLoadRc(i, buff) => InHand(m, r, i) && buff == m.log[i]
    case CStoreLast(i, buff, rc) => InHand(m, r, i) && buff == m.log[i] && At(m, i).rc.mask <= rc.mask == {r}
    case CCasRc(i, buff, rc) =>
      && InHand(m, r, i) && buff == m.log[i]
      && r in rc.mask && At(m, i).rc.mask <= rc.mask
      && (rc.mask == {r} ==> m.phase[Slot(i)] == Draining(i, r))
    case _ => false
  }

  ghost predicate PcOk(m: Mem, w: Who, pc: Pc)
    requires Sound(m)
  {
    match w
    case Sender(t) => SenderOk(m, t, pc)
    case Receiver(r) => ReceiverOk(m, r, pc)
  }

  // The thread that has to move a slot on, where there is exactly one.
  function Worker(p: Phase): Who
    requires p.Claimed? || p.Draining?
  {
    if p.Claimed? then Sender(p.t) else Receiver(p.r)
  }

  ghost predicate AtWork(p: Phase, pc: Pc)
    requires p.Claimed? || p.Draining?
  {
    if p.Claimed?
    then (pc.PCasEpoch? || pc.PStoreCt? || pc.PWrite?) && pc.cur == p.i
    else (pc.CCasRc? || pc.CLoadRc? || pc.CStoreLast?) && pc.i == p.i
  }

  ghost predicate Busy(s: State, p: Phase) {
    p.Claimed? || p.Draining? ==> Worker(p) in s.thr && AtWork(p, s.thr[Worker(p)])
  }

  ghost predicate Inv(s: State) {
    && MemOk(s.mem)
    && (forall w | w in s.thr :: PcOk(s.mem, w, s.thr[w]))
    && (forall k: nat | k < N :: Busy(s, s.mem.phase[k]))
  }

  lemma InitInv(s: State)
    requires Init(s)
    ensures Inv(s)
  {
  }

  // ---------------------------------------------------------------- preservation

  /** An index that some receiver still wants is the one its slot is working on. */
  lemma WantedIsThere(m: Mem, r: nat, j: nat)
    requires MemOk(m) && r in m.conn && m.pos[r] <= j < m.ct
    ensures var p := m.phase[Slot(j)]; p.i == j && !p.Free? && !p.Orphan?
  {
    assert Placed(m, Slot(j));
    assert CellOk(m, Slot(j));
  }

  /** Only slot `k` changes, and the log and the cursors do not. */
  lemma OneCell(m: Mem, m': Mem, k: nat)
    requires MemOk(m) && k < N && Sound(m')
    requires m' == m.(cells := m'.cells, phase := m'.phase)
    requires forall j: nat | j < N && j != k :: m'.cells[j] == m.cells[j] && m'.phase[j] == m.phase[j]
    requires Placed(m', k) && CellOk(m', k)
    ensures MemOk(m')
  {
    forall j: nat | j < N && j != k
      ensures Placed(m', j) && CellOk(m', j)
    {
      assert Placed(m, j) && CellOk(m, j);
    }
  }

  lemma ClaimMem(m: Mem, t: Tid)
    requires MemOk(m) && m.phase[Slot(m.ct)] == Free(m.ct) && m.conn != {}
    ensures MemOk(Claim(m, t, m.ct, m.epoch, m.conn))
  {
    assert Placed(m, Slot(m.ct)) && CellOk(m, Slot(m.ct));
    OneCell(m, Claim(m, t, m.ct, m.epoch, m.conn), Slot(m.ct));
  }

  lemma OrphanMem(m: Mem, t: Tid)
    requires MemOk(m) && m.phase[Slot(m.ct)] == Claimed(m.ct, t)
    ensures MemOk(Put(m, m.ct, At(m, m.ct), Orphan(m.ct)))
  {
    assert Placed(m, Slot(m.ct)) && CellOk(m, Slot(m.ct));
    OneCell(m, Put(m, m.ct, At(m, m.ct), Orphan(m.ct)), Slot(m.ct));
  }

  lemma StoreCtSound(m: Mem, msg: Msg)
    requires Sound(m) && |msg| == m.size
    ensures Sound(StoreCt(m, m.ct, msg))
  {
  }

  lemma StoreCtSlot(m: Mem, t: Tid, msg: Msg, k: nat)
    requires Sound(m) && |msg| == m.size && Sound(StoreCt(m, m.ct, msg))
    requires m.phase[Slot(m.ct)] == Claimed(m.ct, t) && k < N && Placed(m, k) && CellOk(m, k)
    ensures Placed(StoreCt(m, m.ct, msg), k) && CellOk(StoreCt(m, m.ct, msg), k)
  {
    var i := m.phase[k].i;
    assert Pending(StoreCt(m, m.ct, msg), i) == Pending(m, i);
    OneRoundOn(i);
    assert k != Slot(m.ct) ==> i != m.ct && i + N != m.ct;
  }

  lemma StoreCtMem(m: Mem, t: Tid, msg: Msg)
    requires MemOk(m) && m.phase[Slot(m.ct)] == Claimed(m.ct, t) && |msg| == m.size
    ensures MemOk(StoreCt(m, m.ct, msg))
  {
    StoreCtSound(m, msg);
    forall k: nat | k < N
      ensures Placed(StoreCt(m, m.ct, msg), k) && CellOk(StoreCt(m, m.ct, msg), k)
    {
      assert Placed(m, k) && CellOk(m, k);
      StoreCtSlot(m, t, msg, k);
    }
  }

  lemma WriteByteMem(m: Mem, t: Tid, cur: nat, k: nat, b: Byte)
    requires MemOk(m) && m.phase[Slot(cur)] == Claimed(cur, t) && k < m.size
    ensures MemOk(WriteByte(m, cur, k, b))
  {
    var m' := WriteByte(m, cur, k, b);
    assert Placed(m, Slot(cur)) && CellOk(m, Slot(cur));
    assert Pending(m', cur) == Pending(m, cur);
    OneCell(m, m', Slot(cur));
  }

  lemma CommitMem(m: Mem, t: Tid, cur: nat)
    requires MemOk(m) && m.phase[Slot(cur)] == Claimed(cur, t) && cur < m.ct
    requires At(m, cur).data == m.log[cur]
    ensures MemOk(StoreFlag(m, cur, Commit(cur), Committed(cur)))
  {
    var m' := StoreFlag(m, cur, Commit(cur), Committed(cur));
    assert Placed(m, Slot(cur)) && CellOk(m, Slot(cur));
    assert Pending(m', cur) == Pending(m, cur);
    OneCell(m, m', Slot(cur));
  }

  /** The receiver that stores the free flag is the last one in the mask. */
  lemma DrainMem(m: Mem, r: nat, i: nat)
    requires MemOk(m) && InHand(m, r, i) && At(m, i).rc.mask <= {r}
    ensures MemOk(StoreFlag(m, i, Plain(i + N), Draining(i, r)))
  {
    var m' := StoreFlag(m, i, Plain(i + N), Draining(i, r));
    assert Placed(m, Slot(i)) && CellOk(m, Slot(i));
    assert r in Pending(m, i);
    assert Pending(m', i) == Pending(m, i);
    OneCell(m, m', Slot(i));
  }

  lemma PendingShrinks(m: Mem, m': Mem, r: nat, i: nat)
    requires m.pos.Keys == m.conn == m'.conn && r in m.conn && m'.pos == m.pos[r := i + 1]
    ensures Pending(m', i) == Pending(m, i) - {r}
  {
  }

  lemma PendingElsewhere(m: Mem, m': Mem, r: nat, i: nat, j: nat)
    requires m.pos.Keys == m.conn == m'.conn && r in m.conn && m'.pos == m.pos[r := i + 1]
    requires m.pos[r] == i != j
    ensures Pending(m', j) == Pending(m, j)
  {
  }

  lemma ClearMem(m: Mem, r: nat, i: nat)
    requires MemOk(m) && InHand(m, r, i)
    requires At(m, i).rc.mask == {r} ==> m.phase[Slot(i)] == Draining(i, r)
    ensures MemOk(Finish(ClearBit(m, r, i), r, i, m.log[i]))
  {
    var m' := Finish(ClearBit(m, r, i), r, i, m.log[i]);
    assert m.log[..i + 1] == m.log[..i] + [m.log[i]];
    assert Sound(m');
    forall k: nat | k < N
      ensures Placed(m', k) && CellOk(m', k)
    {
      if k == Slot(i) {
        ClearHere(m, m', r, i);
      } else {
        assert Placed(m, k) && CellOk(m, k);
        PendingElsewhere(m, m', r, i, m.phase[k].i);
      }
    }
  }

  lemma ClearHere(m: Mem, m': Mem, r: nat, i: nat)
    requires MemOk(m) && InHand(m, r, i) && Sound(m')
    requires At(m, i).rc.mask == {r} ==> m.phase[Slot(i)] == Draining(i, r)
    requires m' == Finish(ClearBit(m, r, i), r, i, m.log[i])
    ensures Placed(m', Slot(i)) && CellOk(m', Slot(i))
  {
    assert Placed(m, Slot(i)) && CellOk(m, Slot(i));
    PendingShrinks(m, m', r, i);
    assert r in Pending(m, i);
    if At(m, i).rc.mask == {r} {
      forall q | q in m.conn
        ensures i + N < m'.pos[q] + N
      {
        assert q !in Pending(m', i);
      }
    }
  }

  lemma PushMem(m: Mem, m': Mem, t: Tid, pc: Pc, pc': Pc)
    requires MemOk(m) && SenderOk(m, t, pc) && Push(m, m', t, pc, pc')
    ensures MemOk(m')
  {
    if m' != m {
      match pc {
        case PCasRc(_, _, _, _, _) => ClaimMem(m, t);
        case PCasEpoch(_, _, _) => OrphanMem(m, t);
        case PStoreCt(msg, _) => StoreCtMem(m, t, msg);
        case PWrite(msg, cur, done) =>
          if pc' == PIdle {
            WholeCopyIsEqual(At(m, cur).data, msg, done);
            CommitMem(m, t, cur);
          } else {
            var k: nat :| k < m.size && k < |msg| && m' == WriteByte(m, cur, k, msg[k]);
            WriteByteMem(m, t, cur, k, msg[k]);
          }
      }
    }
  }

  lemma PopMem(m: Mem, m': Mem, r: nat, pc: Pc, pc': Pc)
    requires MemOk(m) && ReceiverOk(m, r, pc) && Pop(m, m', r, pc, pc')
    ensures MemOk(m')
  {
    if m' != m {
      match pc {
        case CStoreLast(i, _, _) => DrainMem(m, r, i);
        case CCasRc(i, _, _) => ClearMem(m, r, i);
      }
    }
  }

  lemma PushSelf(m: Mem, m': Mem, t: Tid, pc: Pc, pc': Pc)
    requires MemOk(m) && SenderOk(m, t, pc) && Push(m, m', t, pc, pc') && Sound(m')
    ensures SenderOk(m', t, pc')
  {
    match pc {
      case PLoadRc(_, _, _, cur) =>
        assert CellOk(m, Slot(cur));
        BusyMask(m, cur);
      case PLoadFlag(_, _, _, cur, rc) =>
        if pc'.PCasRc? && At(m, cur).rc == rc {
          FlagTellsFree(m, cur);
        }
      case _ =>
    }
  }

  /** A slot whose mask is not empty shows only receivers of the fixed set. */
  lemma BusyMask(m: Mem, cur: nat)
    requires MemOk(m)
    ensures At(m, cur).rc.mask <= m.conn && At(m, cur).rc.ep == m.epoch
  {
    assert CellOk(m, Slot(cur));
  }

  /** An empty mask together with flag cur (or zero) means: free for cur == ct. */
  lemma FlagTellsFree(m: Mem, cur: nat)
    requires MemOk(m) && cur <= m.ct && At(m, cur).rc.mask == {}
    requires At(m, cur).flag == Plain(cur) || At(m, cur).flag == Zero
    ensures m.ct == cur && m.phase[Slot(cur)] == Free(cur)
  {
    assert Placed(m, Slot(cur)) && CellOk(m, Slot(cur));
  }

  lemma PopSelf(m: Mem, m': Mem, r: nat, pc: Pc, pc': Pc)
    requires MemOk(m) && ReceiverOk(m, r, pc) && Pop(m, m', r, pc, pc') && Sound(m')
    ensures ReceiverOk(m', r, pc')
  {
    if pc.CIdle? {
      assert CellOk(m, Slot(pc.cur));
    } else {
      InHandBit(m, r, pc.i);
    }
  }

  lemma InHandBit(m: Mem, r: nat, i: nat)
    requires MemOk(m) && InHand(m, r, i)
    ensures r in At(m, i).rc.mask
    ensures m.phase[Slot(i)].Draining? ==> At(m, i).rc.mask == {r}
    ensures At(m, i).data == m.log[i]
  {
    assert CellOk(m, Slot(i));
    assert r in Pending(m, i);
  }

  function Thread(w: Who): nat {
    match w case Sender(t) => t case Receiver(r) => r
  }

  /** A step of `w`, as every other thread sees it. */
  ghost predicate Foreign(m: Mem, m': Mem, w: Who)
    requires Sound(m) && Sound(m')
  {
    && m'.size == m.size && m'.conn == m.conn && m'.epoch == m.epoch
    && m.ct <= m'.ct && m.log <= m'.log
    && (m'.ct == m.ct || (w.Sender? && m.phase[Slot(m.ct)] == Claimed(m.ct, w.t)))
    && (forall k: nat | k < N :: CellForeign(m, m', w, k))
    && (forall r | r in m.conn && Receiver(r) != w :: m'.pos[r] == m.pos[r])
  }

  ghost predicate CellForeign(m: Mem, m': Mem, w: Who, k: nat)
    requires Sound(m) && Sound(m') && k < N
  {
    var c, c', p, p' := m.cells[k], m'.cells[k], m.phase[k], m'.phase[k];
    // every update of rc_ raises ic
    && c.rc.ic <= c'.rc.ic && (c.rc.ic == c'.rc.ic ==> c'.rc == c.rc)
    && (p.Free? && c'.rc == c.rc ==> p' == p)
    && (p.Claimed? && Sender(p.t) != w ==> p' == p && c'.data == c.data)
    && (p.Committed? ==> p' == p || p' == Draining(p.i, Thread(w)) || p' == Free(p.i + N))
    && (p.Draining? && Receiver(p.r) != w ==> p' == p)
    && (p.Committed? || p.Draining? ==> c'.rc.mask <= c.rc.mask)
  }

  lemma PushCell(m: Mem, m': Mem, t: Tid, pc: Pc, pc': Pc, k: nat)
    requires Sound(m) && Sound(m') && k < N && CellOk(m, k)
    requires SenderOk(m, t, pc) && Push(m, m', t, pc, pc')
    ensures CellForeign(m, m', Sender(t), k)
  {
  }

  lemma PushForeign(m: Mem, m': Mem, t: Tid, pc: Pc, pc': Pc)
    requires MemOk(m) && SenderOk(m, t, pc) && Push(m, m', t, pc, pc') && Sound(m')
    ensures Foreign(m, m', Sender(t))
  {
    forall k: nat | k < N
      ensures CellForeign(m, m', Sender(t), k)
    {
      assert CellOk(m, k);
      PushCell(m, m', t, pc, pc', k);
    }
  }

  lemma PopCell(m: Mem, m': Mem, r: nat, pc: Pc, pc': Pc, k: nat)
    requires Sound(m) && Sound(m') && k < N && CellOk(m, k)
    requires ReceiverOk(m, r, pc) && Pop(m, m', r, pc, pc')
    ensures CellForeign(m, m', Receiver(r), k)
  {
  }

  lemma PopForeign(m: Mem, m': Mem, r: nat, pc: Pc, pc': Pc)
    requires MemOk(m) && ReceiverOk(m, r, pc) && Pop(m, m', r, pc, pc') && Sound(m')
    ensures Foreign(m, m', Receiver(r))
  {
    forall k: nat | k < N
      ensures CellForeign(m, m', Receiver(r), k)
    {
      assert CellOk(m, k);
      PopCell(m, m', r, pc, pc', k);
    }
  }

  lemma ForeignSender(m: Mem, m': Mem, w: Who, u: Tid, pc: Pc)
    requires MemOk(m) && Sound(m') && Foreign(m, m', w) && w != Sender(u) && SenderOk(m, u, pc)
    ensures SenderOk(m', u, pc)
  {
    if pc.PLoadFlag? || pc.PCasRc? || pc.PCasEpoch? || pc.PStoreCt? || pc.PWrite? {
      assert CellForeign(m, m', w, Slot(pc.cur));
    }
  }

  // Receiver r's slot, seen after somebody else's step.
  lemma InHandStays(m: Mem, m': Mem, w: Who, r: nat, i: nat)
    requires Sound(m) && Sound(m') && Foreign(m, m', w) && w != Receiver(r) && InHand(m, r, i)
    requires Placed(m', Slot(i)) && CellOk(m', Slot(i))
    ensures InHand(m', r, i) && At(m', i).rc.mask <= At(m, i).rc.mask
    ensures m.phase[Slot(i)] == Draining(i, r) ==> m'.phase[Slot(i)] == Draining(i, r)
  {
    assert CellForeign(m, m', w, Slot(i));
    assert r in Pending(m', i);
  }

  lemma ForeignReceiver(m: Mem, m': Mem, w: Who, r: nat, pc: Pc)
    requires MemOk(m) && MemOk(m') && Foreign(m, m', w) && w != Receiver(r) && ReceiverOk(m, r, pc)
    ensures ReceiverOk(m', r, pc)
  {
    if !pc.CIdle? {
      assert Placed(m', Slot(pc.i)) && CellOk(m', Slot(pc.i));
      InHandStays(m, m', w, r, pc.i);
    }
  }

  // The worker of phase p', if it is `w`, is at work; otherwise p' is the old p.
  ghost predicate WorkPasses(p: Phase, p': Phase, w: Who, pc': Pc) {
    p'.Claimed? || p'.Draining? ==> if Worker(p') == w then AtWork(p', pc') else p' == p
  }

  lemma LoadWork(m: Mem, m': Mem, t: Tid, pc: Pc, pc': Pc, k: nat)
    requires Sound(m) && k < N && Push(m, m', t, pc, pc')
    requires !pc.PCasEpoch? && !pc.PStoreCt? && !pc.PWrite?
    requires WorkPasses(m.phase[k], m.phase[k], Sender(t), pc) && |m'.phase| == N
    ensures WorkPasses(m.phase[k], m'.phase[k], Sender(t), pc')
  {
  }

  lemma OwnerWork(m: Mem, m': Mem, t: Tid, pc: Pc, pc': Pc, k: nat)
    requires Sound(m) && k < N && Placed(m, k) && SenderOk(m, t, pc) && Push(m, m', t, pc, pc')
    requires pc.PCasEpoch? || pc.PStoreCt? || pc.PWrite?
    requires WorkPasses(m.phase[k], m.phase[k], Sender(t), pc) && |m'.phase| == N
    ensures WorkPasses(m.phase[k], m'.phase[k], Sender(t), pc')
  {
  }

  lemma PushWork(m: Mem, m': Mem, t: Tid, pc: Pc, pc': Pc, k: nat)
    requires Sound(m) && Sound(m') && k < N && Placed(m, k)
    requires SenderOk(m, t, pc) && Push(m, m', t, pc, pc')
    requires WorkPasses(m.phase[k], m.phase[k], Sender(t), pc)
    ensures WorkPasses(m.phase[k], m'.phase[k], Sender(t), pc')
  {
    if pc.PCasEpoch? || pc.PStoreCt? || pc.PWrite? {
      OwnerWork(m, m', t, pc, pc', k);
    } else {
      LoadWork(m, m', t, pc, pc', k);
    }
  }

  lemma PopWork(m: Mem, m': Mem, r: nat, pc: Pc, pc': Pc, k: nat)
    requires Sound(m) && Sound(m') && k < N && Placed(m, k) && CellOk(m, k)
    requires ReceiverOk(m, r, pc) && Pop(m, m', r, pc, pc')
    requires WorkPasses(m.phase[k], m.phase[k], Receiver(r), pc)
    ensures WorkPasses(m.phase[k], m'.phase[k], Receiver(r), pc')
  {
    if pc.CCasRc? && Slot(pc.i) == k {
      assert r in Pending(m, pc.i);
    }
  }

  lemma MoveInv(s: State, s': State, w: Who)
    requires Inv(s) && Step(s, s', w)
    ensures MemOk(s'.mem) && PcOk(s'.mem, w, s'.thr[w]) && Foreign(s.mem, s'.mem, w)
  {
    var m, m', pc, pc' := s.mem, s'.mem, s.thr[w], s'.thr[w];
    assert PcOk(m, w, pc);
    match w {
      case Sender(t) =>
        PushMem(m, m', t, pc, pc');
        PushSelf(m, m', t, pc, pc');
        PushForeign(m, m', t, pc, pc');
      case Receiver(r) =>
        PopMem(m, m', r, pc, pc');
        PopSelf(m, m', r, pc, pc');
        PopForeign(m, m', r, pc, pc');
    }
  }

  lemma MoveWork(s: State, s': State, w: Who, k: nat)
    requires Inv(s) && Step(s, s', w) && k < N && Sound(s'.mem)
    ensures Busy(s', s'.mem.phase[k])
  {
    var m, m', pc, pc' := s.mem, s'.mem, s.thr[w], s'.thr[w];
    assert Busy(s, m.phase[k]);
    assert Placed(m, k) && CellOk(m, k);
    assert PcOk(m, w, pc);
    match w {
      case Sender(t) => PushWork(m, m', t, pc, pc', k);
      case Receiver(r) => PopWork(m, m', r, pc, pc', k);
    }
  }

  lemma StepInv(s: State, s': State, w: Who)
    requires Inv(s) && Step(s, s', w)
    ensures Inv(s')
  {
    MoveInv(s, s', w);
    forall u | u in s'.thr && u != w
      ensures PcOk(s'.mem, u, s'.thr[u])
    {
      assert PcOk(s.mem, u, s.thr[u]);
      match u {
        case Sender(t) => ForeignSender(s.mem, s'.mem, w, t, s.thr[u]);
        case Receiver(r) => ForeignReceiver(s.mem, s'.mem, w, r, s.thr[u]);
      }
    }
    forall k: nat | k < N
      ensures Busy(s', s'.mem.phase[k])
    {
      MoveWork(s, s', w, k);
    }
  }

  // ---------------------------------------------------------------- runs

  ghost predicate Next(s: State, s': State) {
    WellSized(s.mem) && exists w :: Step(s, s', w)
  }

  ghost predicate Run(run: seq<State>) {
    Runs.IsRun(run, Init, Next)
  }

  lemma {:induction false} RunInv(run: seq<State>, i: nat)
    requires Run(run) && i < |run|
    ensures Inv(run[i])
  {
    assert Runs.Lawful(run, Init, Next, i);
    if i == 0 {
      InitInv(run[0]);
    } else {
      RunInv(run, i - 1);
      var w :| Step(run[i - 1], run[i], w);
      StepInv(run[i - 1], run[i], w);
    }
  }

  /** Every receiver has been given exactly the first pos(r) messages, in index
      order and byte for byte, and no receiver is more than N behind. */
  lemma EveryReceiverGetsEveryMessage(run: seq<State>, i: nat, r: nat)
    requires Run(run) && i < |run| && r in run[i].mem.conn
    ensures var m := run[i].mem;
            && |m.log| == m.ct
            && r in m.pos && r in m.got
            && m.pos[r] <= m.ct <= m.pos[r] + N
            && m.got[r] == m.log[..m.pos[r]]
  {
    RunInv(run, i);
    var m := run[i].mem;
    if m.pos[r] < m.ct {
      WantedIsThere(m, r, m.pos[r]);
      assert Placed(m, Slot(m.pos[r]));
    }
  }

  /** The only ways a slot changes. */
  ghost predicate PhaseSuccessor(p: Phase, p': Phase) {
    match p
    case Free(i) => p'.Claimed? && p'.i == i
    case Claimed(i, _) => p' == Committed(i) || p' == Orphan(i)
    case Committed(i) => p'.Draining? && p'.i == i
    case Draining(i, _) => p' == Free(i + N)
    case Orphan(_) => false
  }

  lemma PushCycle(m: Mem, m': Mem, t: Tid, pc: Pc, pc': Pc, k: nat)
    requires Sound(m) && k < N && CellOk(m, k) && SenderOk(m, t, pc) && Push(m, m', t, pc, pc')
    ensures |m'.phase| == N
    ensures m'.phase[k] == m.phase[k] || PhaseSuccessor(m.phase[k], m'.phase[k])
  {
  }

  lemma PopCycle(m: Mem, m': Mem, r: nat, pc: Pc, pc': Pc, k: nat)
    requires Sound(m) && k < N && CellOk(m, k) && ReceiverOk(m, r, pc) && Pop(m, m', r, pc, pc')
    ensures |m'.phase| == N
    ensures m'.phase[k] == m.phase[k] || PhaseSuccessor(m.phase[k], m'.phase[k])
  {
    if !pc.CIdle? && Slot(pc.i) == k {
      assert r in Pending(m, pc.i);
    }
  }

  lemma SlotLifeCycle(s: State, s': State, w: Who, k: nat)
    requires Inv(s) && Step(s, s', w) && k < N
    ensures |s'.mem.phase| == N
    ensures s'.mem.phase[k] == s.mem.phase[k] || PhaseSuccessor(s.mem.phase[k], s'.mem.phase[k])
  {
    assert PcOk(s.mem, w, s.thr[w]) && CellOk(s.mem, k);
    match w {
      case Sender(t) => PushCycle(s.mem, s'.mem, t, s.thr[w], s'.thr[w], k);
      case Receiver(r) => PopCycle(s.mem, s'.mem, r, s.thr[w], s'.thr[w], k);
    }
  }

  // Between the compare-and-swap on rc_ and the store of ct_ + 1.
  ghost predicate OwnsNext(s: State, t: Tid) {
    Sender(t) in s.thr && (s.thr[Sender(t)].PCasEpoch? || s.thr[Sender(t)].PStoreCt?)
  }

  lemma OneProducerOwnsAnIndex(run: seq<State>, i: nat, t: Tid, u: Tid)
    requires Run(run) && i < |run| && OwnsNext(run[i], t) && OwnsNext(run[i], u)
    ensures t == u && run[i].thr[Sender(t)].cur == run[i].mem.ct
  {
    RunInv(run, i);
    var s := run[i];
    assert PcOk(s.mem, Sender(t), s.thr[Sender(t)]);
    assert PcOk(s.mem, Sender(u), s.thr[Sender(u)]);
  }

  /** From its commit until r has finished it, message j stays in its slot. */
  lemma KeptUntilRead(run: seq<State>, i: nat, r: nat, j: nat)
    requires Run(run) && i < |run| && r in run[i].mem.conn
    requires r in run[i].mem.pos && run[i].mem.pos[r] <= j < run[i].mem.ct
    ensures var m := run[i].mem;
            && |m.cells| == N && |m.phase| == N && j < |m.log|
            && ((m.phase[Slot(j)].Claimed? && m.phase[Slot(j)].i == j) || At(m, j).data == m.log[j])
  {
    RunInv(run, i);
    WantedIsThere(run[i].mem, r, j);
    assert CellOk(run[i].mem, Slot(j));
  }

  // The two tests a push makes before it tries to claim index ct.
  ghost predicate PushTestsPass(m: Mem)
    requires WellSized(m)
  {
    var c := At(m, m.ct);
    && !(m.conn * c.rc.mask != {} && c.rc.ep == m.epoch)
    && (c.rc.mask == {} ==> c.flag == Plain(m.ct) || c.flag == Zero)
  }

  ghost predicate Orphaned(m: Mem)
    requires WellSized(m)
  {
    m.phase[Slot(m.ct)] == Orphan(m.ct)
  }

  ghost predicate Quiet(s: State) {
    forall w | w in s.thr :: s.thr[w].PIdle? || s.thr[w].CIdle?
  }

  // The slot of ct is claimed, and no commit has come of it.
  ghost predicate Abandoned(m: Mem)
    requires WellSized(m)
  {
    At(m, m.ct).rc.mask != {} && !At(m, m.ct).flag.Commit?
  }

  /** With nobody in flight that is how an orphan looks. */
  lemma OrphanIsSeen(s: State)
    requires Inv(s) && Quiet(s)
    ensures Orphaned(s.mem) <==> Abandoned(s.mem)
  {
    var k := Slot(s.mem.ct);
    assert Placed(s.mem, k) && CellOk(s.mem, k) && Busy(s, s.mem.phase[k]);
  }

  /** With nobody in flight, the tests pass exactly when the slot of ct is not
      abandoned and every receiver has finished index ct - N. */
  lemma QuietPushTests(s: State)
    requires Inv(s) && Quiet(s) && s.mem.conn != {}
    ensures PushTestsPass(s.mem) <==>
            (!Abandoned(s.mem) && forall r | r in s.mem.conn :: s.mem.ct < s.mem.pos[r] + N)
  {
    OrphanIsSeen(s);
    var m, k := s.mem, Slot(s.mem.ct);
    assert Placed(m, k) && CellOk(m, k) && Busy(s, m.phase[k]);
    if m.phase[k].Committed? {
      var r :| r in Pending(m, m.phase[k].i);
      assert r in m.conn * At(m, m.ct).rc.mask;
    } else if m.phase[k].Orphan? {
      assert m.conn * At(m, m.ct).rc.mask == m.conn;
    }
  }

  /** With nobody in flight, a receiver's test passes exactly when it is behind. */
  lemma QuietPopTest(s: State, r: nat)
    requires Inv(s) && Quiet(s) && r in s.mem.conn
    ensures At(s.mem, s.mem.pos[r]).flag == Commit(s.mem.pos[r]) <==> s.mem.pos[r] < s.mem.ct
  {
    var m := s.mem;
    var k := Slot(m.pos[r]);
    assert Placed(m, k) && CellOk(m, k) && Busy(s, m.phase[k]);
    if m.pos[r] < m.ct {
      WantedIsThere(m, r, m.pos[r]);
    }
  }

  ghost predicate StaysOrphaned(m: Mem, m': Mem) {
    WellSized(m') && Orphaned(m') && m'.ct == m.ct && m'.log == m.log
  }

  lemma OrphanStays(s: State, s': State)
    requires Inv(s) && Next(s, s') && Orphaned(s.mem)
    ensures StaysOrphaned(s.mem, s'.mem)
  {
    var w :| Step(s, s', w);
    MoveInv(s, s', w);
    SlotLifeCycle(s, s', w, Slot(s.mem.ct));
    assert PcOk(s.mem, w, s.thr[w]);
  }

  lemma OrphanStaysAt(run: seq<State>, b: nat)
    requires Run(run) && 0 < b < |run| && WellSized(run[b - 1].mem) && Orphaned(run[b - 1].mem)
    ensures StaysOrphaned(run[b - 1].mem, run[b].mem)
  {
    var s, s' := run[b - 1], run[b];
    RunInv(run, b - 1);
    assert Runs.Lawful(run, Init, Next, b);
    OrphanStays(s, s');
  }

  /** A spurious failure of the epoch_ self-swap is not harmless: the slot at ct
      keeps a full mask and no owner, so no push over this receiver set is ever
      accepted again. */
  lemma {:induction false} OrphanWedgesTheChannel(run: seq<State>, a: nat, b: nat)
    requires Run(run) && a <= b < |run| && WellSized(run[a].mem) && Orphaned(run[a].mem)
    ensures StaysOrphaned(run[a].mem, run[b].mem)
    decreases b
  {
    if a < b {
      OrphanWedgesTheChannel(run, a, b - 1);
      OrphanStaysAt(run, b);
    }
  }

  // One sender, one receiver, messages without bytes.
  ghost function Alone(m: Mem, pc: Pc): State {
    State(m, map[Sender(0) := pc, Receiver(0) := CIdle(0)])
  }

  ghost function EmptyMem(): Mem {
    Mem(0, {0}, 0, 0, seq(N, _ => Cell([], Rc(0, 0, {}), Zero)), seq(N, k requires 0 <= k < N => Free(k)),
        map[0 := 0], [], map[0 := []])
  }

  lemma SenderGoes(run: seq<State>, m: Mem, pc: Pc, m': Mem, pc': Pc) returns (run': seq<State>)
    requires Run(run) && run[|run| - 1] == Alone(m, pc) && WellSized(m) && Push(m, m', 0, pc, pc')
    ensures Run(run') && run'[|run'| - 1] == Alone(m', pc')
  {
    assert Alone(m', pc').thr == Alone(m, pc).thr[Sender(0) := pc'];
    assert Step(Alone(m, pc), Alone(m', pc'), Sender(0));
    run' := Runs.Extend(run, Alone(m', pc'), Init, Next);
  }

  lemma ReadyToClaim() returns (run: seq<State>)
    ensures Run(run) && run[|run| - 1] == Alone(EmptyMem(), PCasRc([], 0, {0}, 0, Rc(0, 0, {})))
  {
    var m, rc := EmptyMem(), Rc(0, 0, {});
    run := [Alone(m, PIdle)];
    assert Init(Alone(m, PIdle));
    Runs.Start(Alone(m, PIdle), Init, Next);
    run := SenderGoes(run, m, PIdle, m, PLoadEpoch([]));
    run := SenderGoes(run, m, PLoadEpoch([]), m, PLoadConn([], 0));
    run := SenderGoes(run, m, PLoadConn([], 0), m, PLoadCt([], 0, {0}));
    run := SenderGoes(run, m, PLoadCt([], 0, {0}), m, PLoadRc([], 0, {0}, 0));
    run := SenderGoes(run, m, PLoadRc([], 0, {0}, 0), m, PLoadFlag([], 0, {0}, 0, rc));
    run := SenderGoes(run, m, PLoadFlag([], 0, {0}, 0, rc), m, PCasRc([], 0, {0}, 0, rc));
  }

  /** It does happen: one push whose swap of rc_ succeeds and whose self-swap of
      epoch_ fails leaves slot 0 orphaned, with nothing published and the receiver
      behind nobody. */
  lemma OneFailureOrphansASlot() returns (run: seq<State>)
    ensures Run(run)
    ensures var m := run[|run| - 1].mem; WellSized(m) && Orphaned(m) && m.ct == 0 && m.conn == {0} && m.pos == map[0 := 0]
  {
    run := ReadyToClaim();
    var m, rc := EmptyMem(), Rc(0, 0, {});
    var m' := Claim(m, 0, 0, 0, {0});
    run := SenderGoes(run, m, PCasRc([], 0, {0}, 0, rc), m', PCasEpoch([], 0, 0));
    run := SenderGoes(run, m', PCasEpoch([], 0, 0), Put(m', 0, At(m', 0), Orphan(0)), PLoadConn([], 0));
  }

  /** An orphan appears only by such a failure of the self-swap. */
  lemma OrphanOnlyBySpuriousSwap(s: State, s': State, w: Who, k: nat)
    requires Inv(s) && Step(s, s', w) && k < N && |s'.mem.phase| == N
    requires s'.mem.phase[k].Orphan? && !s.mem.phase[k].Orphan?
    ensures s.thr[w].PCasEpoch? && s.thr[w].ep == s.mem.epoch && s'.thr[w].PLoadConn?
  {
    assert PcOk(s.mem, w, s.thr[w]);
  }
}
