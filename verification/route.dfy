/** The single-writer broadcast ring (`ipc::route`) with receivers that join and
    leave at any step; no force_push, so the epoch does not change.

    A receiver here is one connection: its bit may be reused by a later one.
    History variables: `next` is the index each slot takes next, `shield` the
    receivers a slot still waits for, `pos`/`got` what each receiver has finished
    and was given. */
module Route {
  import opened Ring
  import Runs

  type Rid = nat

  datatype Rc = Rc(ep: nat, mask: set<nat>)

  datatype Cell = Cell(data: Msg, rc: Rc)

  datatype Mem = Mem(
    size: nat,
    conn: set<nat>,
    epoch: nat,
    wt: nat,
    cells: seq<Cell>,
    log: seq<Msg>,
    live: map<Rid, nat>,
    next: seq<nat>,
    shield: seq<set<Rid>>,
    pos: map<Rid, nat>,
    got: map<Rid, seq<Msg>>)

  datatype WPc =
    | WIdle
    | WLoadConn(m: Msg)
    | WLoadWt(m: Msg, cc: set<nat>)
    | WLoadRc(m: Msg, cc: set<nat>, cur: nat)
    | WCasRc(m: Msg, cc: set<nat>, cur: nat, rc: Rc)
    | WWrite(m: Msg, cur: nat, done: set<nat>)

  datatype RPc =
    | Out
    | JLoadCursor
    | RIdle(cur: nat)
    | RCopy(i: nat, buff: Msg, done: set<nat>)
    | RLoadRc(i: nat, buff: Msg)
    | RCasRc(i: nat, buff: Msg, rc: Rc)
    | Gone

  datatype State = State(mem: Mem, w: WPc, rcv: map<Rid, RPc>)

  // ---------------------------------------------------------------- transitions

  ghost predicate WellSized(m: Mem) {
    && |m.cells| == |m.next| == |m.shield| == N
    && (forall k: nat | k < N :: |m.cells[k].data| == m.size)
    && m.pos.Keys == m.got.Keys
  }

  function At(m: Mem, i: nat): Cell
    requires |m.cells| == N
  {
    m.cells[Slot(i)]
  }

  // Connected receivers whose bit is in `mask`.
  ghost function Named(m: Mem, mask: set<nat>): set<Rid> {
    set r | r in m.live && m.live[r] in mask
  }

  ghost function Claim(m: Mem, cc: set<nat>): Mem
    requires WellSized(m)
  {
    var k := Slot(m.wt);
    m.(cells := m.cells[k := m.cells[k].(rc := Rc(m.epoch, cc))],
       next := m.next[k := m.wt + N],
       shield := m.shield[k := Named(m, cc)])
  }

  function WriteByte(m: Mem, k: nat, b: Byte): Mem
    requires WellSized(m) && k < m.size
  {
    var c := At(m, m.wt);
    m.(cells := m.cells[Slot(m.wt) := c.(data := c.data[k := b])])
  }

  function Publish(m: Mem, msg: Msg): Mem {
    m.(wt := m.wt + 1, log := m.log + [msg])
  }

  function Join(m: Mem, r: Rid, b: nat): Mem {
    m.(conn := m.conn + {b}, live := m.live[r := b])
  }

  // The cursor is loaded; a message being written counts if its mask names r.
  ghost function Start(m: Mem, r: Rid, writing: bool): Mem
    requires WellSized(m) && r in m.live
  {
    var k := Slot(m.wt);
    m.(pos := m.pos[r := m.wt], got := m.got[r := []],
       shield := if writing && m.live[r] in m.cells[k].rc.mask then m.shield[k := m.shield[k] + {r}] else m.shield)
  }

  function Finish(m: Mem, r: Rid, i: nat, buff: Msg): Mem
    requires r in m.got
  {
    m.(pos := m.pos[r := i + 1], got := m.got[r := m.got[r] + [buff]])
  }

  function ClearBit(m: Mem, r: Rid, i: nat): Mem
    requires WellSized(m) && r in m.live
  {
    var c := At(m, i);
    m.(cells := m.cells[Slot(i) := c.(rc := c.rc.(mask := c.rc.mask - {m.live[r]}))],
       shield := m.shield[Slot(i) := m.shield[Slot(i)] - {r}])
  }

  ghost function Leave(m: Mem, r: Rid): Mem
    requires WellSized(m) && r in m.live
  {
    m.(conn := m.conn - {m.live[r]}, live := m.live - {r},
       shield := seq(N, k requires 0 <= k < N => m.shield[k] - {r}))
  }

  ghost predicate Push(m: Mem, m': Mem, w: WPc, w': WPc)
    requires WellSized(m)
  {
    match w
    case WIdle =>
      m' == m && w'.WLoadConn? && |w'.m| == m.size
    case WLoadConn(msg) =>
      m' == m && w' == if m.conn == {} then WIdle else WLoadWt(msg, m.conn)
    case WLoadWt(msg, cc) =>
      m' == m && w' == WLoadRc(msg, cc, m.wt)
    case WLoadRc(msg, cc, cur) =>
      var rc := At(m, cur).rc;
      m' == m && w' == if cc * rc.mask != {} && rc.ep == m.epoch then WIdle else WCasRc(msg, cc, cur, rc)
    case WCasRc(msg, cc, cur, rc) =>
      || (At(m, cur).rc == rc && m' == Claim(m, cc) && w' == WWrite(msg, cur, {}))
      || (m' == m && w' == WLoadConn(msg))
    case WWrite(msg, cur, done) =>
      || (exists k: nat :: k < m.size && k < |msg| && k !in done
            && m' == WriteByte(m, k, msg[k]) && w' == WWrite(msg, cur, done + {k}))
      || (Whole(done, m.size) && m' == Publish(m, msg) && w' == WIdle)
  }

  // disconnect, or the end of the receiver's process: at any point.
  ghost predicate Quits(m: Mem, m': Mem, r: Rid, pc: RPc, pc': RPc)
    requires WellSized(m)
  {
    !pc.Out? && !pc.Gone? && r in m.live && m' == Leave(m, r) && pc' == Gone
  }

  ghost predicate Receive(m: Mem, m': Mem, r: Rid, w: WPc, pc: RPc, pc': RPc)
    requires WellSized(m)
  {
    Quits(m, m', r, pc, pc') || Reads(m, m', r, w, pc, pc')
  }

  ghost predicate Reads(m: Mem, m': Mem, r: Rid, w: WPc, pc: RPc, pc': RPc)
    requires WellSized(m)
  {
    match pc
    case Out =>
      exists b: nat :: b < 32 && b !in m.conn && r !in m.live && m' == Join(m, r, b) && pc' == JLoadCursor
    case JLoadCursor =>
      r in m.live && m' == Start(m, r, w.WWrite?) && pc' == RIdle(m.wt)
    case RIdle(cur) =>
      && m' == m
      && (if cur == m.wt then pc' == pc
          else pc'.RCopy? && pc'.i == cur && |pc'.buff| == m.size && pc'.done == {})
    case RCopy(i, buff, done) =>
      && m' == m
      && (|| (exists k: nat :: k < m.size && k < |buff| && k !in done
                && pc' == RCopy(i, buff[k := At(m, i).data[k]], done + {k}))
          || (Whole(done, m.size) && pc' == RLoadRc(i, buff)))
    case RLoadRc(i, buff) =>
      var rc := At(m, i).rc;
      if rc.mask == {}
      then r in m.got && m' == Finish(m, r, i, buff) && pc' == RIdle(i + 1)
      else m' == m && pc' == RCasRc(i, buff, rc)
    case RCasRc(i, buff, rc) =>
      || (r in m.got && r in m.live && At(m, i).rc == rc
            && m' == Finish(ClearBit(m, r, i), r, i, buff) && pc' == RIdle(i + 1))
      || (m' == m && pc' == RLoadRc(i, buff))
    case Gone => false
  }

  ghost predicate WriterStep(s: State, s': State)
    requires WellSized(s.mem)
  {
    Push(s.mem, s'.mem, s.w, s'.w) && s'.rcv == s.rcv
  }

  ghost predicate ReceiverStep(s: State, s': State, r: Rid)
    requires WellSized(s.mem)
  {
    && r in s.rcv && r in s'.rcv && s'.w == s.w
    && s'.rcv == s.rcv[r := s'.rcv[r]]
    && Receive(s.mem, s'.mem, r, s.w, s.rcv[r], s'.rcv[r])
  }

  /** Some receivers may be connected from the outset, with cursor 0. */
  ghost predicate Init(s: State) {
    var m := s.mem;
    && WellSized(m)
    && m.wt == 0 && m.log == [] && s.w == WIdle
    && (forall k: nat | k < N :: m.cells[k].rc == Rc(m.epoch, {}) && m.next[k] == k && m.shield[k] == {})
    && m.pos.Keys == m.live.Keys
    && (forall r | r in m.live :: m.live[r] in m.conn && m.pos[r] == 0 && m.got[r] == [])
    && (forall r, q | r in m.live && q in m.live && r != q :: m.live[r] != m.live[q])
    && (forall b | b in m.conn :: b in m.live.Values)
    && (forall r | r in s.rcv :: s.rcv[r] == if r in m.live then RIdle(0) else Out)
    && (forall r | r in m.live :: r in s.rcv)
  }

  // ---------------------------------------------------------------- invariant

  /** Slot k: `claimed` says that index wt has been claimed and not published. */
  ghost predicate CellOk(m: Mem, k: nat, claimed: bool)
    requires WellSized(m) && |m.log| == m.wt && k < N
  {
    var busy := claimed && k == Slot(m.wt);
    && Slot(m.next[k]) == k
    && m.cells[k].rc.ep == m.epoch
    && (if busy then m.next[k] == m.wt + N else m.wt <= m.next[k] < m.wt + N)
    && (!busy && N <= m.next[k] ==> m.cells[k].data == m.log[m.next[k] - N])
    && (forall r | r in m.shield[k] :: r in m.live && m.live[r] in m.cells[k].rc.mask && N <= m.next[k])
  }

  ghost predicate Sound(m: Mem) {
    && WellSized(m)
    && |m.log| == m.wt
    && (forall i: nat | i < m.wt :: |m.log[i]| == m.size)
    && (forall r | r in m.live :: m.live[r] in m.conn)
    && (forall r, q | r in m.live && q in m.live && r != q :: m.live[r] != m.live[q])
    && (forall r | r in m.pos :: m.pos[r] <= m.wt)
  }

  ghost predicate MemOk(m: Mem, claimed: bool) {
    Sound(m) && forall k: nat | k < N :: CellOk(m, k, claimed)
  }

  ghost predicate WriterOk(m: Mem, w: WPc)
    requires Sound(m)
  {
    match w
    case WIdle => true
    case WLoadConn(msg) => |msg| == m.size
    case WLoadWt(msg, cc) => |msg| == m.size && Covers(m, cc)
    case WLoadRc(msg, cc, cur) => |msg| == m.size && Covers(m, cc) && cur == m.wt
    case WCasRc(msg, cc, cur, rc) =>
      && |msg| == m.size && Covers(m, cc) && cur == m.wt && cc * rc.mask == {}
      && rc.ep == At(m, cur).rc.ep && At(m, cur).rc.mask <= rc.mask
    case WWrite(msg, cur, done) => |msg| == m.size && cur == m.wt && Agrees(At(m, cur).data, msg, done)
  }

  // The writer's copy of the connections includes everyone a slot waits for.
  ghost predicate Covers(m: Mem, cc: set<nat>)
    requires WellSized(m)
  {
    forall k: nat, r | k < N && r in m.shield[k] && r in m.live :: m.live[r] in cc
  }

  /** Slot i holds index i and waits for r. */
  ghost predicate Shielded(m: Mem, r: Rid, i: nat)
    requires WellSized(m)
  {
    r in m.shield[Slot(i)] && m.next[Slot(i)] == i + N
  }

  ghost predicate ReceiverOk(m: Mem, r: Rid, pc: RPc)
    requires Sound(m)
  {
    match pc
    case Out => r !in m.live && r !in m.pos
    case JLoadCursor => r in m.live && r !in m.pos
    case RIdle(cur) => r in m.live && r in m.pos && m.pos[r] == cur
    case RCopy(i, buff, done) =>
      && r in m.live && r in m.pos && m.pos[r] == i < m.wt && |buff| == m.size
      && (Shielded(m, r, i) ==> Agrees(buff, m.log[i], done))
    case RLoadRc(i, buff) =>
      && r in m.live && r in m.pos && m.pos[r] == i < m.wt
      && (Shielded(m, r, i) ==> buff == m.log[i])
    case RCasRc(i, buff, rc) =>
      && r in m.live && r in m.pos && m.pos[r] == i < m.wt
      && (Shielded(m, r, i) ==> buff == m.log[i])
    case Gone => r !in m.live
  }

  // The writer's own list of receivers, while it has one.
  ghost predicate Sees(w: WPc, b: nat) {
    match w
    case WLoadWt(_, cc) => b in cc
    case WLoadRc(_, cc, _) => b in cc
    case WCasRc(_, cc, _, _) => b in cc
    case _ => true
  }

  /** A bit in a mask speaks for its present owner if the slot's index is not
      behind that receiver's cursor. */
  ghost predicate MaskTells(m: Mem)
    requires WellSized(m)
  {
    forall k: nat, r | k < N && r in m.live && r in m.pos && m.live[r] in m.cells[k].rc.mask && m.pos[r] + N <= m.next[k] ::
      r in m.shield[k]
  }

  // Every connection bit is a connected receiver's.
  ghost predicate ConnOwned(m: Mem) {
    forall b | b in m.conn :: exists r :: r in m.live && m.live[r] == b
  }

  ghost predicate Inv(s: State) {
    && MemOk(s.mem, s.w.WWrite?)
    && WriterOk(s.mem, s.w)
    && MaskTells(s.mem) && ConnOwned(s.mem)
    && (forall r | r in s.rcv :: ReceiverOk(s.mem, r, s.rcv[r]))
    && (forall r | r in s.mem.live :: r in s.rcv)
  }

  lemma InitCells(s: State)
    requires Init(s)
    ensures Sound(s.mem) && forall k: nat | k < N :: CellOk(s.mem, k, false)
  {
    forall k: nat | k < N
      ensures CellOk(s.mem, k, false)
    {
    }
  }

  lemma InitInv(s: State)
    requires Init(s)
    ensures Inv(s)
  {
    InitCells(s);
  }

  // ---------------------------------------------------------------- writer steps

  /** The slot the writer is about to claim is one nobody is waiting for. */
  lemma ClaimFindsNoShield(m: Mem, cc: set<nat>)
    requires MemOk(m, false) && Covers(m, cc) && cc * At(m, m.wt).rc.mask == {}
    ensures m.shield[Slot(m.wt)] == {}
    ensures m.next[Slot(m.wt)] == m.wt
  {
    assert CellOk(m, Slot(m.wt), false);
    assert forall r | r in m.shield[Slot(m.wt)] :: m.live[r] in cc * At(m, m.wt).rc.mask;
  }

  lemma ClaimMem(m: Mem, cc: set<nat>)
    requires MemOk(m, false) && Covers(m, cc) && cc * At(m, m.wt).rc.mask == {}
    ensures MemOk(Claim(m, cc), true)
  {
    ClaimFindsNoShield(m, cc);
    var m' := Claim(m, cc);
    forall k: nat | k < N
      ensures CellOk(m', k, true)
    {
      assert CellOk(m, k, false);
    }
  }

  lemma WriteByteMem(m: Mem, k: nat, b: Byte)
    requires MemOk(m, true) && k < m.size
    ensures MemOk(WriteByte(m, k, b), true)
  {
    var m' := WriteByte(m, k, b);
    forall j: nat | j < N
      ensures CellOk(m', j, true)
    {
      assert CellOk(m, j, true);
    }
  }

  lemma PublishMem(m: Mem, msg: Msg)
    requires MemOk(m, true) && At(m, m.wt).data == msg
    ensures MemOk(Publish(m, msg), false)
  {
    var m' := Publish(m, msg);
    assert CellOk(m, Slot(m.wt), true);
    forall j: nat | j < N
      ensures CellOk(m', j, false)
    {
      assert CellOk(m, j, true);
    }
  }

  lemma PushMem(m: Mem, m': Mem, w: WPc, w': WPc)
    requires MemOk(m, w.WWrite?) && WriterOk(m, w) && Push(m, m', w, w')
    ensures MemOk(m', w'.WWrite?)
  {
    match w {
      case WCasRc(_, cc, _, _) =>
        if w'.WWrite? {
          ClaimMem(m, cc);
        }
      case WWrite(msg, cur, done) =>
        if w' == WIdle {
          WholeCopyIsEqual(At(m, cur).data, msg, done);
          PublishMem(m, msg);
        } else {
          var k: nat :| k < m.size && k < |msg| && m' == WriteByte(m, k, msg[k]);
          WriteByteMem(m, k, msg[k]);
        }
      case _ =>
    }
  }

  lemma PushSelf(m: Mem, m': Mem, w: WPc, w': WPc)
    requires MemOk(m, w.WWrite?) && WriterOk(m, w) && Push(m, m', w, w') && Sound(m')
    ensures WriterOk(m', w')
  {
    if w.WLoadRc? {
      assert CellOk(m, Slot(w.cur), false);
    }
  }

  /** The writer never disturbs a slot that waits for somebody. */
  lemma PushShields(m: Mem, m': Mem, w: WPc, w': WPc, r: Rid, i: nat)
    requires MemOk(m, w.WWrite?) && WriterOk(m, w) && Push(m, m', w, w') && Sound(m')
    requires i < m.wt
    ensures Shielded(m', r, i) <==> Shielded(m, r, i)
  {
    if w.WCasRc? && m' != m {
      ClaimFindsNoShield(m, w.cc);
    }
  }

  lemma PushReceiver(m: Mem, m': Mem, w: WPc, w': WPc, r: Rid, pc: RPc)
    requires MemOk(m, w.WWrite?) && WriterOk(m, w) && Push(m, m', w, w') && Sound(m')
    requires ReceiverOk(m, r, pc)
    ensures ReceiverOk(m', r, pc)
  {
    if pc.RCopy? || pc.RLoadRc? || pc.RCasRc? {
      PushShields(m, m', w, w', r, pc.i);
    }
  }

  lemma PushTells(m: Mem, m': Mem, w: WPc, w': WPc)
    requires MemOk(m, w.WWrite?) && WriterOk(m, w) && Push(m, m', w, w') && WellSized(m')
    requires MaskTells(m)
    ensures MaskTells(m')
  {
  }

  // ---------------------------------------------------------------- receiver steps

  lemma StartSound(m: Mem, r: Rid, writing: bool)
    requires Sound(m) && r in m.live && r !in m.pos
    ensures Sound(Start(m, r, writing))
  {
  }

  lemma StartMem(m: Mem, r: Rid, writing: bool)
    requires MemOk(m, writing) && r in m.live && r !in m.pos
    ensures MemOk(Start(m, r, writing), writing)
  {
    StartSound(m, r, writing);
    var m' := Start(m, r, writing);
    forall k: nat | k < N
      ensures CellOk(m', k, writing)
    {
      assert CellOk(m, k, writing);
      assert m'.shield[k] <= m.shield[k] + {r};
    }
  }

  lemma ClearMem(m: Mem, r: Rid, i: nat, buff: Msg, writing: bool)
    requires MemOk(m, writing) && r in m.live && r in m.got && m.pos[r] == i < m.wt
    ensures MemOk(Finish(ClearBit(m, r, i), r, i, buff), writing)
  {
    var m' := Finish(ClearBit(m, r, i), r, i, buff);
    forall k: nat | k < N
      ensures CellOk(m', k, writing)
    {
      assert CellOk(m, k, writing);
    }
  }

  lemma LeaveMem(m: Mem, r: Rid, writing: bool)
    requires MemOk(m, writing) && r in m.live
    ensures MemOk(Leave(m, r), writing)
  {
    var m' := Leave(m, r);
    forall k: nat | k < N
      ensures CellOk(m', k, writing)
    {
      assert CellOk(m, k, writing);
    }
  }

  lemma OtherMem(m: Mem, m': Mem, writing: bool)
    requires MemOk(m, writing) && Sound(m')
    requires m'.cells == m.cells && m'.next == m.next && m'.shield == m.shield
    requires m'.wt == m.wt && m'.log == m.log && m'.epoch == m.epoch
    requires forall r | r in m.live :: r in m'.live && m'.live[r] == m.live[r]
    ensures MemOk(m', writing)
  {
    forall k: nat | k < N
      ensures CellOk(m', k, writing)
    {
      assert CellOk(m, k, writing);
    }
  }

  lemma JoinMem(m: Mem, r: Rid, b: nat, writing: bool)
    requires MemOk(m, writing) && r !in m.live && b !in m.conn
    ensures MemOk(Join(m, r, b), writing)
  {
    OtherMem(m, Join(m, r, b), writing);
  }

  lemma FinishMem(m: Mem, r: Rid, i: nat, buff: Msg, writing: bool)
    requires MemOk(m, writing) && r in m.got && i < m.wt
    ensures MemOk(Finish(m, r, i, buff), writing)
  {
    OtherMem(m, Finish(m, r, i, buff), writing);
  }

  lemma ReadsMem(m: Mem, m': Mem, r: Rid, w: WPc, pc: RPc, pc': RPc)
    requires MemOk(m, w.WWrite?) && ReceiverOk(m, r, pc) && Reads(m, m', r, w, pc, pc') && m' != m
    ensures MemOk(m', w.WWrite?)
  {
    match pc {
      case Out =>
        var b: nat :| b !in m.conn && m' == Join(m, r, b);
        JoinMem(m, r, b, w.WWrite?);
      case JLoadCursor => StartMem(m, r, w.WWrite?);
      case RLoadRc(i, buff) => FinishMem(m, r, i, buff, w.WWrite?);
      case RCasRc(i, buff, _) => ClearMem(m, r, i, buff, w.WWrite?);
    }
  }

  lemma ReceiveMem(m: Mem, m': Mem, r: Rid, w: WPc, pc: RPc, pc': RPc)
    requires MemOk(m, w.WWrite?) && ReceiverOk(m, r, pc) && Receive(m, m', r, w, pc, pc')
    ensures MemOk(m', w.WWrite?)
  {
    if Quits(m, m', r, pc, pc') {
      LeaveMem(m, r, w.WWrite?);
    } else if m' != m {
      ReadsMem(m, m', r, w, pc, pc');
    }
  }

  /** A step of receiver `r`, as the writer and the other receivers see it. */
  ghost predicate Foreign(m: Mem, m': Mem, r: Rid)
    requires Sound(m) && Sound(m')
  {
    && m'.size == m.size && m'.wt == m.wt && m'.log == m.log && m'.epoch == m.epoch && m'.next == m.next
    && (forall k: nat | k < N :: m'.cells[k].data == m.cells[k].data)
    && (forall k: nat | k < N :: m'.cells[k].rc.ep == m.cells[k].rc.ep && m'.cells[k].rc.mask <= m.cells[k].rc.mask)
    && (forall q | q != r :: q in m'.live <==> q in m.live)
    && (forall q | q != r && q in m.live :: m'.live[q] == m.live[q])
    && (forall q | q != r :: q in m'.pos <==> q in m.pos)
    && (forall q | q != r && q in m.pos :: m'.pos[q] == m.pos[q] && m'.got[q] == m.got[q])
    && (forall k: nat, q | k < N && q != r :: q in m'.shield[k] <==> q in m.shield[k])
  }

  lemma StartForeign(m: Mem, r: Rid, writing: bool)
    requires MemOk(m, writing) && r in m.live && r !in m.pos && Sound(Start(m, r, writing))
    ensures Foreign(m, Start(m, r, writing), r)
  {
  }

  lemma ClearForeign(m: Mem, r: Rid, i: nat, buff: Msg)
    requires Sound(m) && r in m.live && r in m.got
    requires Sound(Finish(ClearBit(m, r, i), r, i, buff))
    ensures Foreign(m, Finish(ClearBit(m, r, i), r, i, buff), r)
  {
  }

  lemma LeaveForeign(m: Mem, r: Rid)
    requires Sound(m) && r in m.live && Sound(Leave(m, r))
    ensures Foreign(m, Leave(m, r), r)
  {
  }

  lemma JoinForeign(m: Mem, r: Rid, b: nat)
    requires Sound(m) && Sound(Join(m, r, b))
    ensures Foreign(m, Join(m, r, b), r)
  {
  }

  lemma FinishForeign(m: Mem, r: Rid, i: nat, buff: Msg)
    requires Sound(m) && r in m.got && Sound(Finish(m, r, i, buff))
    ensures Foreign(m, Finish(m, r, i, buff), r)
  {
  }

  lemma ReadsForeign(m: Mem, m': Mem, r: Rid, w: WPc, pc: RPc, pc': RPc)
    requires MemOk(m, w.WWrite?) && ReceiverOk(m, r, pc) && Reads(m, m', r, w, pc, pc') && Sound(m') && m' != m
    ensures Foreign(m, m', r)
  {
    match pc {
      case Out =>
        var b: nat :| m' == Join(m, r, b);
        JoinForeign(m, r, b);
      case JLoadCursor => StartForeign(m, r, w.WWrite?);
      case RLoadRc(i, buff) => FinishForeign(m, r, i, buff);
      case RCasRc(i, buff, _) => ClearForeign(m, r, i, buff);
    }
  }

  lemma ReceiveForeign(m: Mem, m': Mem, r: Rid, w: WPc, pc: RPc, pc': RPc)
    requires MemOk(m, w.WWrite?) && ReceiverOk(m, r, pc) && Receive(m, m', r, w, pc, pc') && Sound(m')
    ensures Foreign(m, m', r)
  {
    if Quits(m, m', r, pc, pc') {
      LeaveForeign(m, r);
    } else if m' != m {
      ReadsForeign(m, m', r, w, pc, pc');
    }
  }

  lemma CopySelf(m: Mem, r: Rid, w: WPc, pc: RPc, pc': RPc)
    requires MemOk(m, w.WWrite?) && ReceiverOk(m, r, pc) && pc.RCopy? && Reads(m, m, r, w, pc, pc')
    ensures ReceiverOk(m, r, pc')
  {
    assert CellOk(m, Slot(pc.i), w.WWrite?);
    if Shielded(m, r, pc.i) && pc'.RLoadRc? {
      WholeCopyIsEqual(pc.buff, m.log[pc.i], pc.done);
    }
  }

  lemma SwapSelf(m: Mem, m': Mem, r: Rid, w: WPc, pc: RPc, pc': RPc)
    requires Sound(m) && ReceiverOk(m, r, pc) && Reads(m, m', r, w, pc, pc') && Sound(m')
    requires pc.RLoadRc? || pc.RCasRc?
    ensures ReceiverOk(m', r, pc')
  {
  }

  lemma StartSelf(m: Mem, m': Mem, r: Rid, w: WPc, pc: RPc, pc': RPc)
    requires Sound(m) && ReceiverOk(m, r, pc) && Reads(m, m', r, w, pc, pc') && Sound(m')
    requires pc.Out? || pc.JLoadCursor? || pc.RIdle?
    ensures ReceiverOk(m', r, pc')
  {
  }

  lemma ReceiveSelf(m: Mem, m': Mem, r: Rid, w: WPc, pc: RPc, pc': RPc)
    requires MemOk(m, w.WWrite?) && ReceiverOk(m, r, pc) && Receive(m, m', r, w, pc, pc') && Sound(m')
    ensures ReceiverOk(m', r, pc')
  {
    if !Quits(m, m', r, pc, pc') {
      if pc.RCopy? {
        CopySelf(m, r, w, pc, pc');
      } else if pc.RLoadRc? || pc.RCasRc? {
        SwapSelf(m, m', r, w, pc, pc');
      } else {
        StartSelf(m, m', r, w, pc, pc');
      }
    }
  }

  lemma ForeignWriter(m: Mem, m': Mem, r: Rid, w: WPc)
    requires MemOk(m, w.WWrite?) && Sound(m') && Foreign(m, m', r) && WriterOk(m, w)
    requires r in m.live && r in m'.live ==> m'.live[r] == m.live[r]
    requires forall k: nat | k < N && r in m'.shield[k] && !w.WWrite? :: r in m.shield[k]
    requires r !in m.live ==> forall k: nat | k < N :: r !in m'.shield[k]
    ensures WriterOk(m', w)
  {
    if w.WLoadWt? || w.WLoadRc? || w.WCasRc? {
      forall k: nat, q | k < N && q in m'.shield[k] && q in m'.live
        ensures m'.live[q] in w.cc
      {
        assert q in m.shield[k] && q in m.live;
      }
    }
  }

  lemma ReceiveOwn(m: Mem, m': Mem, r: Rid, w: WPc, pc: RPc, pc': RPc)
    requires MemOk(m, w.WWrite?) && ReceiverOk(m, r, pc) && Receive(m, m', r, w, pc, pc') && Sound(m')
    ensures r in m.live && r in m'.live ==> m'.live[r] == m.live[r]
    ensures forall k: nat | k < N && r in m'.shield[k] && !w.WWrite? :: r in m.shield[k]
    ensures r !in m.live ==> forall k: nat | k < N :: r !in m'.shield[k]
  {
    if r !in m.live {
      forall k: nat | k < N
        ensures r !in m'.shield[k]
      {
        assert CellOk(m, k, w.WWrite?);
      }
    }
  }

  lemma ReceiveWriter(m: Mem, m': Mem, r: Rid, w: WPc, pc: RPc, pc': RPc)
    requires MemOk(m, w.WWrite?) && ReceiverOk(m, r, pc) && Receive(m, m', r, w, pc, pc') && Sound(m')
    requires WriterOk(m, w)
    ensures WriterOk(m', w)
  {
    ReceiveForeign(m, m', r, w, pc, pc');
    ReceiveOwn(m, m', r, w, pc, pc');
    ForeignWriter(m, m', r, w);
  }

  lemma ReceiveOther(m: Mem, m': Mem, r: Rid, q: Rid, pc: RPc)
    requires Sound(m) && Sound(m') && Foreign(m, m', r) && q != r && ReceiverOk(m, q, pc)
    ensures ReceiverOk(m', q, pc)
  {
  }

  lemma StartTells(m: Mem, r: Rid, writing: bool, k: nat)
    requires Sound(m) && k < N && CellOk(m, k, writing) && r in m.live && r !in m.pos
    requires var m' := Start(m, r, writing); m'.live[r] in m'.cells[k].rc.mask && m'.pos[r] + N <= m'.next[k]
    ensures r in Start(m, r, writing).shield[k]
  {
  }

  lemma FinishTells(m: Mem, m': Mem, r: Rid, w: WPc, pc: RPc, pc': RPc, k: nat)
    requires Sound(m) && ReceiverOk(m, r, pc) && Reads(m, m', r, w, pc, pc') && Sound(m')
    requires MaskTells(m) && k < N && !pc.Out? && !pc.JLoadCursor?
    requires r in m'.live && r in m'.pos && m'.live[r] in m'.cells[k].rc.mask && m'.pos[r] + N <= m'.next[k]
    ensures r in m'.shield[k]
  {
  }

  // What r's own step does to r's own bits.
  lemma OwnTells(m: Mem, m': Mem, r: Rid, w: WPc, pc: RPc, pc': RPc, k: nat)
    requires Sound(m) && ReceiverOk(m, r, pc) && Receive(m, m', r, w, pc, pc') && Sound(m')
    requires MaskTells(m) && k < N && CellOk(m, k, w.WWrite?)
    requires r in m'.live && r in m'.pos && m'.live[r] in m'.cells[k].rc.mask && m'.pos[r] + N <= m'.next[k]
    ensures r in m'.shield[k]
  {
    if pc.JLoadCursor? {
      StartTells(m, r, w.WWrite?, k);
    } else {
      FinishTells(m, m', r, w, pc, pc', k);
    }
  }

  // No receiver but r gets or loses a bit by a step of r.
  lemma OthersBits(m: Mem, m': Mem, r: Rid, w: WPc, pc: RPc, pc': RPc, k: nat, q: Rid)
    requires Sound(m) && ReceiverOk(m, r, pc) && Receive(m, m', r, w, pc, pc') && Sound(m')
    requires k < N && q != r && q in m.live
    ensures m.live[q] in m'.cells[k].rc.mask ==> m.live[q] in m.cells[k].rc.mask
  {
  }

  lemma ReceiveTells(m: Mem, m': Mem, r: Rid, w: WPc, pc: RPc, pc': RPc)
    requires MemOk(m, w.WWrite?) && ReceiverOk(m, r, pc) && Receive(m, m', r, w, pc, pc') && Sound(m')
    requires MaskTells(m) && Foreign(m, m', r)
    ensures MaskTells(m')
  {
    forall k: nat, q | k < N && q in m'.live && q in m'.pos && m'.live[q] in m'.cells[k].rc.mask && m'.pos[q] + N <= m'.next[k]
      ensures q in m'.shield[k]
    {
      if q == r {
        assert CellOk(m, k, w.WWrite?);
        OwnTells(m, m', r, w, pc, pc', k);
      } else {
        OthersBits(m, m', r, w, pc, pc', k, q);
      }
    }
  }

  lemma JoinOwned(m: Mem, r: Rid, b: nat)
    requires ConnOwned(m) && r !in m.live
    ensures ConnOwned(Join(m, r, b))
  {
    var m' := Join(m, r, b);
    forall c | c in m'.conn
      ensures exists q :: q in m'.live && m'.live[q] == c
    {
      if c == b {
        assert m'.live[r] == c;
      } else {
        var q :| q in m.live && m.live[q] == c;
        assert m'.live[q] == c;
      }
    }
  }

  lemma LeaveOwned(m: Mem, r: Rid)
    requires WellSized(m) && ConnOwned(m) && r in m.live
    ensures ConnOwned(Leave(m, r))
  {
    var m' := Leave(m, r);
    forall c | c in m'.conn
      ensures exists q :: q in m'.live && m'.live[q] == c
    {
      var q :| q in m.live && m.live[q] == c;
      assert m'.live[q] == c;
    }
  }

  lemma ReceiveOwned(m: Mem, m': Mem, r: Rid, w: WPc, pc: RPc, pc': RPc)
    requires WellSized(m) && Receive(m, m', r, w, pc, pc') && ConnOwned(m)
    ensures ConnOwned(m')
  {
    if Quits(m, m', r, pc, pc') {
      LeaveOwned(m, r);
    } else if pc.Out? {
      var b: nat :| b !in m.conn && m' == Join(m, r, b);
      JoinOwned(m, r, b);
    } else {
      assert m'.conn == m.conn && m'.live == m.live;
      forall c | c in m'.conn
        ensures exists q :: q in m'.live && m'.live[q] == c
      {
        var q :| q in m.live && m.live[q] == c;
        assert m'.live[q] == c;
      }
    }
  }

  // ---------------------------------------------------------------- runs

  lemma WriterStepInv(s: State, s': State)
    requires Inv(s) && WriterStep(s, s')
    ensures Inv(s')
  {
    PushMem(s.mem, s'.mem, s.w, s'.w);
    PushSelf(s.mem, s'.mem, s.w, s'.w);
    PushTells(s.mem, s'.mem, s.w, s'.w);
    forall r | r in s'.rcv
      ensures ReceiverOk(s'.mem, r, s'.rcv[r])
    {
      PushReceiver(s.mem, s'.mem, s.w, s'.w, r, s.rcv[r]);
    }
  }

  lemma ReceiverStepInv(s: State, s': State, r: Rid)
    requires Inv(s) && ReceiverStep(s, s', r)
    ensures Inv(s')
  {
    var m, m', pc, pc' := s.mem, s'.mem, s.rcv[r], s'.rcv[r];
    assert ReceiverOk(m, r, pc);
    ReceiveMem(m, m', r, s.w, pc, pc');
    ReceiveSelf(m, m', r, s.w, pc, pc');
    ReceiveWriter(m, m', r, s.w, pc, pc');
    ReceiveForeign(m, m', r, s.w, pc, pc');
    ReceiveTells(m, m', r, s.w, pc, pc');
    ReceiveOwned(m, m', r, s.w, pc, pc');
    forall q | q in s'.rcv && q != r
      ensures ReceiverOk(m', q, s'.rcv[q])
    {
      ReceiveOther(m, m', r, q, s.rcv[q]);
    }
  }

  ghost predicate Next(s: State, s': State) {
    WellSized(s.mem) && (WriterStep(s, s') || exists r :: ReceiverStep(s, s', r))
  }

  ghost predicate Run(run: seq<State>) {
    Runs.IsRun(run, Init, Next)
  }

  lemma NextInv(s: State, s': State)
    requires Inv(s) && Next(s, s')
    ensures Inv(s')
  {
    if WriterStep(s, s') {
      WriterStepInv(s, s');
    } else {
      var r :| ReceiverStep(s, s', r);
      ReceiverStepInv(s, s', r);
    }
  }

  lemma {:induction false} RunInv(run: seq<State>, i: nat)
    requires Run(run) && i < |run|
    ensures Inv(run[i])
  {
    assert Runs.Lawful(run, Init, Next, i);
    if i == 0 {
      InitInv(run[0]);
    } else {
      RunInv(run, i - 1);
      NextInv(run[i - 1], run[i]);
    }
  }

  // ---------------------------------------------------------------- guarded receivers

  /** Every slot from r's cursor on waits for r, and so will the next. */
  ghost predicate Guarded(s: State, r: Rid)
    requires WellSized(s.mem)
  {
    var m := s.mem;
    && r in m.live && r in m.pos
    && (forall j: nat | m.pos[r] <= j < m.wt :: Shielded(m, r, j))
    && (s.w.WWrite? ==> r in m.shield[Slot(m.wt)])
    && Sees(s.w, m.live[r])
  }

  // r has moved on by whole messages of the log, and stays guarded.
  ghost predicate ReadsOn(s: State, s': State, r: Rid)
    requires WellSized(s.mem) && WellSized(s'.mem) && Guarded(s, r)
  {
    var m, m' := s.mem, s'.mem;
    && Guarded(s', r) && m.pos[r] <= m'.pos[r] <= |m'.log| && m.log <= m'.log
    && m'.got[r] == m.got[r] + m'.log[m.pos[r]..m'.pos[r]]
  }

  lemma GuardedReadsNothing(s: State, r: Rid)
    requires Inv(s) && Guarded(s, r)
    ensures ReadsOn(s, s, r)
  {
    assert s.mem.log[s.mem.pos[r]..s.mem.pos[r]] == [];
  }

  // The message that is published waits for whom the slot waits.
  lemma PublishShields(s: State, s': State, r: Rid)
    requires Inv(s) && WriterStep(s, s') && s'.mem.wt == s.mem.wt + 1 && r in s.mem.shield[Slot(s.mem.wt)]
    ensures WellSized(s'.mem) && Shielded(s'.mem, r, s.mem.wt) && s.w.WWrite?
  {
    assert CellOk(s.mem, Slot(s.mem.wt), true);
  }

  lemma WriterKeepsWt(s: State, s': State)
    requires WellSized(s.mem) && WriterStep(s, s')
    ensures s'.mem.wt == s.mem.wt || (s'.mem.wt == s.mem.wt + 1 && s.w.WWrite?)
    ensures s.mem.log <= s'.mem.log && s'.mem.pos == s.mem.pos && s'.mem.got == s.mem.got && s'.mem.live == s.mem.live
  {
  }

  // The slots from r's cursor on wait for it still.
  lemma PushKeepsShields(s: State, s': State, r: Rid, j: nat)
    requires Inv(s) && Inv(s') && WriterStep(s, s') && Guarded(s, r) && s.mem.pos[r] <= j < s'.mem.wt
    ensures Shielded(s'.mem, r, j)
  {
    WriterKeepsWt(s, s');
    if j < s.mem.wt {
      PushShields(s.mem, s'.mem, s.w, s'.w, r, j);
    } else {
      PublishShields(s, s', r);
    }
  }

  // And so does the slot that is being written.
  lemma ClaimShields(s: State, s': State, r: Rid)
    requires Inv(s) && WriterStep(s, s') && Guarded(s, r)
    ensures WellSized(s'.mem) && (s'.w.WWrite? ==> r in s'.mem.shield[Slot(s'.mem.wt)])
    ensures Sees(s'.w, s.mem.live[r])
  {
  }

  lemma PushKeepsGuard(s: State, s': State, r: Rid)
    requires Inv(s) && Inv(s') && WriterStep(s, s') && Guarded(s, r)
    ensures ReadsOn(s, s', r)
  {
    WriterKeepsWt(s, s');
    ClaimShields(s, s', r);
    forall j: nat | s.mem.pos[r] <= j < s'.mem.wt
      ensures Shielded(s'.mem, r, j)
    {
      PushKeepsShields(s, s', r, j);
    }
  }

  lemma ForeignKeepsGuard(s: State, s': State, q: Rid, r: Rid)
    requires Inv(s) && Inv(s') && Foreign(s.mem, s'.mem, q) && s'.w == s.w && q != r && Guarded(s, r)
    ensures ReadsOn(s, s', r)
  {
    forall j: nat | s.mem.pos[r] <= j < s.mem.wt
      ensures Shielded(s'.mem, r, j)
    {
      assert Shielded(s.mem, r, j);
    }
  }

  lemma FinishKeepsGuard(s: State, s': State, r: Rid, i: nat)
    requires Inv(s) && Inv(s') && Guarded(s, r) && s'.w == s.w && s.mem.pos[r] == i < s.mem.wt
    requires s'.mem == Finish(ClearBit(s.mem, r, i), r, i, s.mem.log[i])
    ensures ReadsOn(s, s', r)
  {
    var m, m' := s.mem, s'.mem;
    assert Shielded(m, r, i) && m'.log[i..i + 1] == [m.log[i]];
    if s.w.WWrite? {
      assert CellOk(m, Slot(m.wt), true);
    }
    forall j: nat | i + 1 <= j < m.wt
      ensures Shielded(m', r, j)
    {
      assert Shielded(m, r, j);
    }
  }

  lemma OwnStepKeepsGuard(s: State, s': State, r: Rid)
    requires Inv(s) && Inv(s') && ReceiverStep(s, s', r) && Guarded(s, r) && s'.rcv[r] != Gone
    ensures ReadsOn(s, s', r)
  {
    assert ReceiverOk(s.mem, r, s.rcv[r]);
    if s'.mem == s.mem {
      GuardedReadsNothing(s, r);
    } else {
      var i := s.mem.pos[r];
      assert Shielded(s.mem, r, i);
      assert CellOk(s.mem, Slot(i), s.w.WWrite?);
      FinishKeepsGuard(s, s', r, i);
    }
  }

  lemma NextKeepsGuard(s: State, s': State, r: Rid)
    requires Inv(s) && Next(s, s') && Guarded(s, r) && r in s'.mem.live
    ensures Inv(s') && ReadsOn(s, s', r)
  {
    NextInv(s, s');
    if WriterStep(s, s') {
      PushKeepsGuard(s, s', r);
    } else {
      var q :| ReceiverStep(s, s', q);
      if q == r {
        assert ReceiverOk(s'.mem, r, s'.rcv[r]);
        OwnStepKeepsGuard(s, s', r);
      } else {
        assert ReceiverOk(s.mem, q, s.rcv[q]);
        ReceiveForeign(s.mem, s'.mem, q, s.w, s.rcv[q], s'.rcv[q]);
        ForeignKeepsGuard(s, s', q, r);
      }
    }
  }

  ghost predicate Connected(run: seq<State>, a: nat, b: nat, r: Rid)
    requires a <= b < |run|
  {
    forall i | a <= i <= b :: r in run[i].mem.live
  }

  lemma ReadsOnTrans(a: State, b: State, c: State, r: Rid)
    requires WellSized(a.mem) && WellSized(b.mem) && WellSized(c.mem)
    requires Guarded(a, r) && ReadsOn(a, b, r) && ReadsOn(b, c, r)
    ensures ReadsOn(a, c, r)
  {
    var i, j, k := a.mem.pos[r], b.mem.pos[r], c.mem.pos[r];
    assert c.mem.log[i..j] == b.mem.log[i..j];
    assert c.mem.log[i..k] == c.mem.log[i..j] + c.mem.log[j..k];
  }

  lemma RunKeepsGuard(run: seq<State>, b: nat, r: Rid)
    requires Run(run) && 0 < b < |run| && r in run[b].mem.live
    requires WellSized(run[b - 1].mem) && Guarded(run[b - 1], r)
    ensures WellSized(run[b].mem) && ReadsOn(run[b - 1], run[b], r)
  {
    RunInv(run, b - 1);
    assert Runs.Lawful(run, Init, Next, b);
    NextKeepsGuard(run[b - 1], run[b], r);
  }

  /** Once guarded, a receiver that stays connected stays guarded, and is given
      exactly the messages from its cursor on: none lost, doubled or torn. */
  lemma {:induction false} GuardedReadsTheLog(run: seq<State>, a: nat, b: nat, r: Rid)
    requires Run(run) && a <= b < |run| && Connected(run, a, b, r)
    requires WellSized(run[a].mem) && Guarded(run[a], r)
    ensures WellSized(run[b].mem) && ReadsOn(run[a], run[b], r)
    decreases b
  {
    if a < b {
      GuardedReadsTheLog(run, a, b - 1, r);
      RunKeepsGuard(run, b, r);
      ReadsOnTrans(run[a], run[b - 1], run[b], r);
    } else {
      RunInv(run, a);
      GuardedReadsNothing(run[a], r);
    }
  }

  /** And it is at most N behind. */
  lemma GuardedIsNear(s: State, r: Rid)
    requires Inv(s) && Guarded(s, r)
    ensures s.mem.pos[r] <= s.mem.wt <= s.mem.pos[r] + N
  {
    var m := s.mem;
    if m.pos[r] < m.wt {
      assert Shielded(m, r, m.pos[r]);
      assert CellOk(m, Slot(m.pos[r]), s.w.WWrite?);
    }
  }

  /** Who is guarded, told from the shared fields and the writer's locals.  As it
      loads its cursor: everyone, unless the writer has loaded the connections or
      claimed the slot without this receiver's bit. */
  lemma GuardedAtJoinIff(s: State, s': State, r: Rid)
    requires Inv(s) && ReceiverStep(s, s', r) && s.rcv[r] == JLoadCursor && s'.rcv[r] != Gone
    ensures r in s.mem.live && WellSized(s'.mem)
    ensures Guarded(s', r) <==>
            match s.w
            case WLoadWt(_, cc) => s.mem.live[r] in cc
            case WLoadRc(_, cc, _) => s.mem.live[r] in cc
            case WCasRc(_, cc, _, _) => s.mem.live[r] in cc
            case WWrite(_, _, _) => s.mem.live[r] in At(s.mem, s.mem.wt).rc.mask
            case _ => true
  {
    assert ReceiverOk(s.mem, r, s.rcv[r]);
    ReceiverStepInv(s, s', r);
    assert CellOk(s.mem, Slot(s.mem.wt), s.w.WWrite?);
  }

  // The mask of the slot of index c holds bit b.
  ghost predicate Names(m: Mem, c: nat, b: nat)
    requires WellSized(m)
  {
    b in At(m, c).rc.mask
  }

  lemma NamedIsShielded(m: Mem, r: Rid, c: nat, claimed: bool)
    requires MemOk(m, claimed) && MaskTells(m) && r in m.live && r in m.pos
    requires m.pos[r] <= c < m.wt <= m.pos[r] + N && (claimed ==> Slot(c) != Slot(m.wt))
    ensures Names(m, c, m.live[r]) <==> Shielded(m, r, c)
    ensures m.next[Slot(c)] == c + N && At(m, c).data == m.log[c]
  {
    assert CellOk(m, Slot(c), claimed);
    OneRoundOn(c);
    if !claimed || Slot(c) != Slot(m.wt) {
      SameWindow(m.wt, m.next[Slot(c)], c + N);
    }
  }

  // The writer holds no list of receivers that it has still to use.
  predicate Unlisted(w: WPc) {
    !w.WLoadWt? && !w.WLoadRc? && !w.WCasRc?
  }

  // The first index that has not been claimed.
  function Unclaimed(s: State): nat {
    if s.w.WWrite? then s.mem.wt + 1 else s.mem.wt
  }

  // Every slot from r's cursor on that has been claimed names it.
  ghost predicate AllNamed(s: State, r: Rid)
    requires WellSized(s.mem) && r in s.mem.live && r in s.mem.pos
  {
    forall c: nat | s.mem.pos[r] <= c < Unclaimed(s) :: Names(s.mem, c, s.mem.live[r])
  }

  lemma ClaimedIsShielded(s: State, r: Rid)
    requires Inv(s) && s.w.WWrite? && r in s.mem.live && r in s.mem.pos
    ensures Names(s.mem, s.mem.wt, s.mem.live[r]) <==> r in s.mem.shield[Slot(s.mem.wt)]
  {
    assert CellOk(s.mem, Slot(s.mem.wt), true);
  }

  /** Unless the writer holds such a list, a receiver that has not been lapped is
      guarded exactly if every slot it has still to read names it. */
  lemma GuardedIffNamed(s: State, r: Rid)
    requires Inv(s) && Unlisted(s.w) && r in s.mem.live && r in s.mem.pos && Unclaimed(s) <= s.mem.pos[r] + N
    ensures Guarded(s, r) <==> AllNamed(s, r)
  {
    var m := s.mem;
    if s.w.WWrite? {
      ClaimedIsShielded(s, r);
    }
    forall c: nat | m.pos[r] <= c < m.wt
      ensures Names(m, c, m.live[r]) <==> Shielded(m, r, c)
    {
      if s.w.WWrite? {
        WithinARound(c, m.wt);
      }
      NamedIsShielded(m, r, c, s.w.WWrite?);
    }
    assert s.w.WWrite? && AllNamed(s, r) ==> Names(m, m.wt, m.live[r]);
  }

  /** And at each message that is published at its cursor: exactly if the slot's
      mask names it, whatever happened to it before. */
  lemma GuardedAtPublishIff(s: State, s': State, r: Rid)
    requires Inv(s) && WriterStep(s, s') && s'.mem.wt == s.mem.wt + 1
    requires r in s.rcv && s.rcv[r] == RIdle(s.mem.wt)
    ensures r in s.mem.live && WellSized(s'.mem)
    ensures Guarded(s', r) <==> Names(s.mem, s.mem.wt, s.mem.live[r])
  {
    WriterStepInv(s, s');
    assert ReceiverOk(s.mem, r, s.rcv[r]);
    GuardedIffNamed(s', r);
    assert At(s'.mem, s.mem.wt) == At(s.mem, s.mem.wt);
    forall c: nat | s'.mem.pos[r] <= c < s'.mem.wt
      ensures Names(s'.mem, c, s'.mem.live[r]) == Names(s.mem, s.mem.wt, s.mem.live[r])
    {
      assert c == s.mem.wt;
    }
    if Guarded(s', r) {
      assert Names(s'.mem, s.mem.wt, s'.mem.live[r]);
    }
  }

  /** So a receiver whose cursor stands at an index that is published with its bit
      in the mask is given, for as long as it stays connected, exactly the
      messages from that index on. */
  lemma NamedAtCursorReadsOn(run: seq<State>, a: nat, b: nat, r: Rid)
    requires Run(run) && a < b < |run| && Connected(run, a + 1, b, r)
    requires WellSized(run[a].mem) && WriterStep(run[a], run[a + 1]) && run[a + 1].mem.wt == run[a].mem.wt + 1
    requires r in run[a].rcv && run[a].rcv[r] == RIdle(run[a].mem.wt)
    requires r in run[a].mem.live && Names(run[a].mem, run[a].mem.wt, run[a].mem.live[r])
    ensures var i, m := run[a].mem.wt, run[b].mem;
            && r in run[a].mem.got && r in m.got && r in m.pos && i <= m.pos[r] <= |m.log|
            && m.got[r] == run[a].mem.got[r] + m.log[i..m.pos[r]]
  {
    RunInv(run, a);
    assert ReceiverOk(run[a].mem, r, run[a].rcv[r]);
    GuardedAtPublishIff(run[a], run[a + 1], r);
    GuardedReadsTheLog(run, a + 1, b, r);
  }

  /** Once index i is published with r in its mask, the slot holds message i. */
  lemma ShieldedSlotHoldsItsMessage(run: seq<State>, j: nat, r: Rid, i: nat)
    requires Run(run) && j < |run| && WellSized(run[j].mem) && Shielded(run[j].mem, r, i)
    requires i < run[j].mem.wt
    ensures i < |run[j].mem.log| && At(run[j].mem, i).data == run[j].mem.log[i]
  {
    RunInv(run, j);
    assert CellOk(run[j].mem, Slot(i), run[j].w.WWrite?);
  }

  // The two steps by which r itself gives up slot i.
  ghost predicate GivesUp(s: State, s': State, r: Rid, i: nat) {
    && r in s.rcv && r in s'.rcv
    && ((s.rcv[r].RCasRc? && Slot(s.rcv[r].i) == Slot(i) && s'.rcv[r].RIdle?) || s'.rcv[r] == Gone)
  }

  /** ... until r clears its own bit or leaves; no other step ends it, whoever
      joins, leaves or publishes in the meantime. */
  lemma ShieldLastsUntilGivenUp(s: State, s': State, r: Rid, i: nat)
    requires Inv(s) && Next(s, s') && Shielded(s.mem, r, i) && i < s.mem.wt
    requires !GivesUp(s, s', r, i)
    ensures WellSized(s'.mem) && Shielded(s'.mem, r, i)
  {
    if WriterStep(s, s') {
      PushMem(s.mem, s'.mem, s.w, s'.w);
      PushShields(s.mem, s'.mem, s.w, s'.w, r, i);
    } else {
      var q :| ReceiverStep(s, s', q);
      ReceiverKeepsShield(s, s', q, r, i);
    }
  }

  lemma ReceiverKeepsShield(s: State, s': State, q: Rid, r: Rid, i: nat)
    requires Inv(s) && ReceiverStep(s, s', q) && Shielded(s.mem, r, i) && i < s.mem.wt
    requires !GivesUp(s, s', r, i)
    ensures WellSized(s'.mem) && Shielded(s'.mem, r, i)
  {
    assert ReceiverOk(s.mem, q, s.rcv[q]);
    ReceiveMem(s.mem, s'.mem, q, s.w, s.rcv[q], s'.rcv[q]);
    if q != r {
      ReceiveForeign(s.mem, s'.mem, q, s.w, s.rcv[q], s'.rcv[q]);
    } else {
      assert CellOk(s.mem, Slot(i), s.w.WWrite?);
    }
  }

  /** A pop of i that ends while the slot still waits for r returns message i. */
  lemma ShieldedPopIsExact(s: State, s': State, r: Rid)
    requires Inv(s) && ReceiverStep(s, s', r)
    requires s.rcv[r].RLoadRc? || s.rcv[r].RCasRc?
    requires s'.rcv[r].RIdle? && Shielded(s.mem, r, s.rcv[r].i)
    ensures r in s.mem.got && r in s'.mem.got && s.rcv[r].i < |s.mem.log|
    ensures s'.mem.got[r] == s.mem.got[r] + [s.mem.log[s.rcv[r].i]]
  {
    assert ReceiverOk(s.mem, r, s.rcv[r]);
  }

  // ---------------------------------------------------------------- a fixed set

  /** Slot k waits for exactly the receivers that have not finished its index,
      and its mask is exactly their bits. */
  ghost predicate MaskExact(m: Mem, k: nat)
    requires Sound(m) && k < N
  {
    && m.cells[k].rc.mask <= m.conn
    && (forall r | r in m.live && r in m.pos ::
          && (m.live[r] in m.cells[k].rc.mask <==> r in m.shield[k])
          && (r in m.shield[k] <==> m.pos[r] + N <= m.next[k]))
  }

  ghost predicate Fixed(s: State) {
    && Inv(s)
    && s.mem.live.Keys == s.mem.pos.Keys
    && (forall b | b in s.mem.conn :: b in s.mem.live.Values)
    && (forall k: nat | k < N :: MaskExact(s.mem, k))
    && (s.w.WLoadWt? || s.w.WLoadRc? || s.w.WCasRc? ==> s.w.cc == s.mem.conn)
    && (forall r | r in s.mem.live :: Guarded(s, r))
  }

  lemma InitFixed(s: State)
    requires Init(s)
    ensures Fixed(s)
  {
    InitInv(s);
  }

  lemma FixedClaim(m: Mem, k: nat)
    requires MemOk(m, false) && k < N && MaskExact(m, k) && MemOk(Claim(m, m.conn), true)
    ensures MaskExact(Claim(m, m.conn), k)
  {
    assert CellOk(m, k, false);
  }

  lemma FixedPushMask(s: State, s': State, k: nat)
    requires Fixed(s) && WriterStep(s, s') && k < N && Inv(s')
    ensures MaskExact(s'.mem, k)
  {
    assert MaskExact(s.mem, k);
    if s.w.WCasRc? && s'.w.WWrite? {
      PushMem(s.mem, s'.mem, s.w, s'.w);
      FixedClaim(s.mem, k);
    }
  }

  lemma FixedPush(s: State, s': State)
    requires Fixed(s) && WriterStep(s, s')
    ensures Fixed(s')
  {
    WriterStepInv(s, s');
    forall k: nat | k < N
      ensures MaskExact(s'.mem, k)
    {
      FixedPushMask(s, s', k);
    }
    forall r | r in s'.mem.live
      ensures Guarded(s', r)
    {
      PushKeepsGuard(s, s', r);
    }
  }

  lemma FixedClear(m: Mem, m': Mem, r: Rid, i: nat, buff: Msg, k: nat, claimed: bool)
    requires MemOk(m, claimed) && k < N && MaskExact(m, k) && r in m.live && r in m.got && m.pos[r] == i
    requires m' == Finish(ClearBit(m, r, i), r, i, buff) && Sound(m')
    requires Shielded(m, r, i)
    ensures MaskExact(m', k)
  {
    assert CellOk(m, k, claimed);
  }

  lemma FixedReceiveMask(s: State, s': State, r: Rid, k: nat)
    requires Fixed(s) && ReceiverStep(s, s', r) && s'.mem.live == s.mem.live && k < N && Inv(s')
    ensures MaskExact(s'.mem, k)
  {
    var m := s.mem;
    assert MaskExact(m, k);
    assert ReceiverOk(m, r, s.rcv[r]);
    if s'.mem != m {
      assert Guarded(s, r);
      assert Shielded(m, r, s.rcv[r].i) && CellOk(m, Slot(s.rcv[r].i), s.w.WWrite?);
      FixedClear(m, s'.mem, r, s.rcv[r].i, s.rcv[r].buff, k, s.w.WWrite?);
    }
  }

  // A receiver of the fixed set only reads and finishes.
  lemma FixedReceiveSet(m: Mem, m': Mem, r: Rid, w: WPc, pc: RPc, pc': RPc)
    requires Sound(m) && ReceiverOk(m, r, pc) && Receive(m, m', r, w, pc, pc')
    requires m.live.Keys == m.pos.Keys && m'.live == m.live
    ensures m'.conn == m.conn && m'.pos.Keys == m.pos.Keys
  {
    assert r in m.live;
    match pc {
      case RLoadRc(i, buff) => assert m' == m || m' == Finish(m, r, i, buff);
      case RCasRc(i, buff, _) => assert m' == m || m' == Finish(ClearBit(m, r, i), r, i, buff);
      case _ =>
    }
  }

  lemma FixedReceive(s: State, s': State, r: Rid)
    requires Fixed(s) && ReceiverStep(s, s', r) && s'.mem.live == s.mem.live
    ensures Fixed(s')
  {
    assert Inv(s') by { ReceiverStepInv(s, s', r); }
    assert ReceiverOk(s.mem, r, s.rcv[r]);
    FixedReceiveSet(s.mem, s'.mem, r, s.w, s.rcv[r], s'.rcv[r]);
    forall k: nat | k < N
      ensures MaskExact(s'.mem, k)
    {
      FixedReceiveMask(s, s', r, k);
    }
    forall q | q in s'.mem.live
      ensures Guarded(s', q)
    {
      NextKeepsGuard(s, s', q);
    }
  }

  /** A run in which nobody joins or leaves. */
  ghost predicate FixedRun(run: seq<State>) {
    && Run(run)
    && (forall i | 0 < i < |run| :: run[i].mem.live == run[i - 1].mem.live)
  }

  lemma {:induction false} FixedRunInv(run: seq<State>, i: nat)
    requires FixedRun(run) && i < |run|
    ensures Fixed(run[i]) && run[i].mem.live == run[0].mem.live
  {
    assert Runs.Lawful(run, Init, Next, i);
    if i == 0 {
      InitFixed(run[0]);
    } else {
      FixedRunInv(run, i - 1);
      var s, s' := run[i - 1], run[i];
      if WriterStep(s, s') {
        FixedPush(s, s');
      } else {
        var r :| ReceiverStep(s, s', r);
        FixedReceive(s, s', r);
      }
    }
  }

  lemma FixedStays(run: seq<State>, i: nat, r: Rid)
    requires FixedRun(run) && i < |run| && r in run[0].mem.live
    ensures Connected(run, 0, i, r) && Fixed(run[0]) && run[0].mem.pos[r] == 0 && run[0].mem.got[r] == []
  {
    assert Runs.Lawful(run, Init, Next, 0);
    InitFixed(run[0]);
    forall j | 0 <= j <= i
      ensures r in run[j].mem.live
    {
      FixedRunInv(run, j);
    }
  }

  /** Over a fixed set every receiver reads the whole log from message 0. */
  lemma FixedReceiversReadEverything(run: seq<State>, i: nat, r: Rid)
    requires FixedRun(run) && i < |run| && r in run[0].mem.live
    ensures var m := run[i].mem;
            && |m.log| == m.wt
            && r in m.pos && r in m.got
            && m.pos[r] <= m.wt <= m.pos[r] + N
            && m.got[r] == m.log[..m.pos[r]]
  {
    FixedStays(run, i, r);
    GuardedReadsTheLog(run, 0, i, r);
    RunInv(run, i);
    GuardedIsNear(run[i], r);
  }

  // Receiver r has not finished index wt - N.
  ghost predicate Behind(m: Mem, r: Rid)
    requires m.live.Keys == m.pos.Keys
  {
    r in m.live && m.pos[r] + N <= m.wt
  }

  lemma BehindMeansFull(m: Mem, r: Rid)
    requires MemOk(m, false) && MaskExact(m, Slot(m.wt)) && m.live.Keys == m.pos.Keys && Behind(m, r)
    ensures m.live[r] in m.conn * At(m, m.wt).rc.mask
  {
    assert CellOk(m, Slot(m.wt), false);
  }

  lemma FullMeansBehind(m: Mem, b: nat)
    requires MemOk(m, false) && MaskExact(m, Slot(m.wt)) && m.live.Keys == m.pos.Keys
    requires b in m.live.Values && b in At(m, m.wt).rc.mask
    ensures exists r :: Behind(m, r)
  {
    assert CellOk(m, Slot(m.wt), false);
    var r :| r in m.live && m.live[r] == b;
    assert Behind(m, r);
  }

  lemma FullTest(m: Mem)
    requires MemOk(m, false) && MaskExact(m, Slot(m.wt)) && m.live.Keys == m.pos.Keys
    requires forall b | b in m.conn :: b in m.live.Values
    ensures m.conn * At(m, m.wt).rc.mask != {} <==> exists r :: Behind(m, r)
  {
    var both := m.conn * At(m, m.wt).rc.mask;
    if r :| Behind(m, r) {
      BehindMeansFull(m, r);
    }
    if both != {} {
      var b :| b in both;
      FullMeansBehind(m, b);
    }
  }

  /** The full test is exact: a push that reaches it is turned away if and only
      if some receiver has not finished index wt - N. */
  lemma PushRefusedIffFull(run: seq<State>, i: nat, s': State)
    requires FixedRun(run) && i < |run| && run[i].w.WLoadRc?
    requires WellSized(run[i].mem) && WriterStep(run[i], s')
    ensures run[i].mem.live.Keys == run[i].mem.pos.Keys
    ensures s'.w == WIdle <==> exists r :: Behind(run[i].mem, r)
  {
    FixedRunInv(run, i);
    var m := run[i].mem;
    FullTest(m);
    assert CellOk(m, Slot(m.wt), false);
  }
}
