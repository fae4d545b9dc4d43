/** The one-producer, one-consumer ring with its real 32-bit counters, which
    wrap.  `pushed` and `popped` are history variables: the messages published
    and the blocks returned so far; the counters are their lengths mod 2^32. */
module SpscRing {
  import opened Basics
  import opened Ring
  import Runs

  datatype Mem = Mem(size: nat, rd: nat, wt: nat, cells: seq<Msg>, pushed: seq<Msg>, popped: seq<Msg>)

  datatype WPc =
    | WIdle
    | WLoadWt(m: Msg)
    | WLoadRd(m: Msg, slot: nat)
    | WWrite(m: Msg, slot: nat, done: set<nat>)

  datatype RPc =
    | RIdle
    | RLoadRd
    | RLoadWt(slot: nat)
    | RCopy(slot: nat, buff: Msg, done: set<nat>)

  datatype State = State(mem: Mem, w: WPc, r: RPc)

  ghost predicate WellSized(m: Mem) {
    && |m.cells| == N
    && (forall k: nat | k < N :: |m.cells[k]| == m.size)
  }

  // Unsigned arithmetic on the counters.
  function Inc(c: nat): nat { (c + 1) % WORD }

  function Dec(c: nat): nat { (c + WORD - 1) % WORD }

  ghost predicate Push(m: Mem, m': Mem, w: WPc, w': WPc)
    requires WellSized(m)
  {
    match w
    case WIdle => m' == m && w'.WLoadWt? && |w'.m| == m.size
    case WLoadWt(msg) => m' == m && w' == WLoadRd(msg, Slot(m.wt))
    case WLoadRd(msg, slot) =>
      m' == m && w' == if slot == Slot(Dec(m.rd)) then WIdle else WWrite(msg, slot, {})
    case WWrite(msg, slot, done) =>
      || (exists k: nat :: k < m.size && k < |msg| && k !in done && slot < N
            && m' == m.(cells := m.cells[slot := m.cells[slot][k := msg[k]]])
            && w' == WWrite(msg, slot, done + {k}))
      || (Whole(done, m.size) && m' == m.(wt := Inc(m.wt), pushed := m.pushed + [msg]) && w' == WIdle)
  }

  ghost predicate Pop(m: Mem, m': Mem, r: RPc, r': RPc)
    requires WellSized(m)
  {
    match r
    case RIdle => m' == m && r' == RLoadRd
    case RLoadRd => m' == m && r' == RLoadWt(Slot(m.rd))
    case RLoadWt(slot) =>
      && m' == m
      && (if slot == Slot(m.wt) then r' == RIdle
          else r'.RCopy? && r'.slot == slot && |r'.buff| == m.size && r'.done == {})
    case RCopy(slot, buff, done) =>
      || (exists k: nat :: k < m.size && k < |buff| && k !in done && slot < N && m' == m
            && r' == RCopy(slot, buff[k := m.cells[slot][k]], done + {k}))
      || (Whole(done, m.size) && m' == m.(rd := Inc(m.rd), popped := m.popped + [buff]) && r' == RIdle)
  }

  ghost predicate Next(s: State, s': State) {
    && WellSized(s.mem)
    && (|| (Push(s.mem, s'.mem, s.w, s'.w) && s'.r == s.r)
        || (Pop(s.mem, s'.mem, s.r, s'.r) && s'.w == s.w))
  }

  /** Any common starting value will do, so runs may begin just before a wrap. */
  ghost predicate Init(s: State, origin: nat) {
    && WellSized(s.mem) && s.mem.rd == s.mem.wt == origin % WORD
    && s.mem.pushed == [] && s.mem.popped == []
    && s.w == WIdle && s.r == RIdle
  }

  ghost predicate MemOk(m: Mem, origin: nat) {
    var rd, wt := |m.popped|, |m.pushed|;
    && WellSized(m)
    && m.rd == (origin + rd) % WORD && m.wt == (origin + wt) % WORD
    && rd <= wt < rd + N
    && m.popped == m.pushed[..rd]
    && (forall i: nat | i < wt :: |m.pushed[i]| == m.size)
    && (forall i: nat | rd <= i < wt :: m.cells[Slot(origin + i)] == m.pushed[i])
  }

  ghost predicate WriterOk(m: Mem, origin: nat, w: WPc)
    requires WellSized(m)
  {
    match w
    case WIdle => true
    case WLoadWt(msg) => |msg| == m.size
    case WLoadRd(msg, slot) => |msg| == m.size && slot == Slot(origin + |m.pushed|)
    case WWrite(msg, slot, done) =>
      slot == Slot(origin + |m.pushed|) && |m.pushed| + 1 < |m.popped| + N && Agrees(m.cells[slot], msg, done)
  }

  ghost predicate ReaderOk(m: Mem, origin: nat, r: RPc)
    requires WellSized(m)
  {
    match r
    case RLoadWt(slot) => slot == Slot(origin + |m.popped|)
    case RCopy(slot, buff, done) =>
      && slot == Slot(origin + |m.popped|) && |m.popped| < |m.pushed|
      && Agrees(buff, m.pushed[|m.popped|], done)
    case _ => true
  }

  ghost predicate Inv(s: State, origin: nat) {
    MemOk(s.mem, origin) && WriterOk(s.mem, origin, s.w) && ReaderOk(s.mem, origin, s.r)
  }

  lemma WrappedSlot(c: nat)
    ensures Slot(c % WORD) == Slot(c)
  {
    var q := 0x100_0000 * (c / WORD);
    assert c % WORD == c - N * q;
    MultipleOfN(c, q);
  }

  lemma WrappedInc(c: nat)
    ensures Inc(c % WORD) == (c + 1) % WORD
  {
  }

  lemma WrappedDec(c: nat)
    ensures Dec(c % WORD) == (c + WORD - 1) % WORD
  {
  }

  /** 256 divides 2^32, so wrapping a counter changes neither its slot nor those
      of its neighbours. */
  lemma WrapKeepsTheSlot(c: nat)
    ensures Slot(c % WORD) == Slot(c)
    ensures Inc(c % WORD) == (c + 1) % WORD && Slot(Inc(c % WORD)) == Slot(c + 1)
    ensures Slot(Dec(c % WORD)) == Slot(c + N - 1)
  {
    WrappedSlot(c);
    WrappedInc(c);
    WrappedSlot(c + 1);
    WrappedDec(c);
    WrappedSlot(c + WORD - 1);
    MultipleOfN(c + WORD - 1, 0x100_0000 - 1);
    assert c + WORD - 1 - N * (0x100_0000 - 1) == c + N - 1;
  }

  lemma MultipleOfN(c: nat, q: nat)
    requires N * q <= c
    ensures (c - N * q) % N == c % N
  {
  }

  lemma SameSlot(a: nat, b: nat)
    requires a <= b <= a + N
    ensures Slot(a) == Slot(b) <==> (b == a || b == a + N)
  {
  }

  lemma WriteByteMem(m: Mem, origin: nat, k: nat, b: Byte)
    requires MemOk(m, origin) && |m.pushed| + 1 < |m.popped| + N && k < m.size
    ensures var slot := Slot(origin + |m.pushed|);
            MemOk(m.(cells := m.cells[slot := m.cells[slot][k := b]]), origin)
  {
    var slot := Slot(origin + |m.pushed|);
    forall i: nat | |m.popped| <= i < |m.pushed|
      ensures m.cells[slot := m.cells[slot][k := b]][Slot(origin + i)] == m.pushed[i]
    {
      SameSlot(origin + i, origin + |m.pushed|);
    }
  }

  lemma PublishMem(m: Mem, origin: nat, msg: Msg)
    requires MemOk(m, origin) && |m.pushed| + 1 < |m.popped| + N
    requires m.cells[Slot(origin + |m.pushed|)] == msg
    ensures MemOk(m.(wt := Inc(m.wt), pushed := m.pushed + [msg]), origin)
  {
    WrapKeepsTheSlot(origin + |m.pushed|);
    assert (m.pushed + [msg])[..|m.popped|] == m.pushed[..|m.popped|];
  }

  lemma PushMem(m: Mem, m': Mem, origin: nat, w: WPc, w': WPc)
    requires MemOk(m, origin) && WriterOk(m, origin, w) && Push(m, m', w, w')
    ensures MemOk(m', origin)
  {
    if w.WWrite? {
      if w' == WIdle {
        WholeCopyIsEqual(m.cells[w.slot], w.m, w.done);
        PublishMem(m, origin, w.m);
      } else {
        var k: nat :| k < m.size && k < |w.m| && m' == m.(cells := m.cells[w.slot := m.cells[w.slot][k := w.m[k]]]);
        WriteByteMem(m, origin, k, w.m[k]);
      }
    }
  }

  lemma PushInv(s: State, s': State, origin: nat)
    requires Inv(s, origin) && Push(s.mem, s'.mem, s.w, s'.w) && s'.r == s.r
    ensures Inv(s', origin)
  {
    var m := s.mem;
    PushMem(m, s'.mem, origin, s.w, s'.w);
    WrapKeepsTheSlot(origin + |m.pushed|);
    WrapKeepsTheSlot(origin + |m.popped|);
    SameSlot(origin + |m.pushed|, origin + |m.popped| + N - 1);
  }

  lemma PopInv(s: State, s': State, origin: nat)
    requires Inv(s, origin) && Pop(s.mem, s'.mem, s.r, s'.r) && s'.w == s.w
    ensures Inv(s', origin)
  {
    var m := s.mem;
    WrapKeepsTheSlot(origin + |m.pushed|);
    WrapKeepsTheSlot(origin + |m.popped|);
    SameSlot(origin + |m.popped|, origin + |m.pushed|);
    if s.r.RCopy? && s'.r == RIdle {
      var rd := |m.popped|;
      WholeCopyIsEqual(s.r.buff, m.pushed[rd], s.r.done);
      assert m.pushed[..rd + 1] == m.pushed[..rd] + [m.pushed[rd]];
    }
  }

  ghost function Begins(origin: nat): State -> bool {
    s => Init(s, origin)
  }

  ghost predicate Run(run: seq<State>, origin: nat) {
    Runs.IsRun(run, Begins(origin), Next)
  }

  lemma NextInv(s: State, s': State, origin: nat)
    requires Inv(s, origin) && Next(s, s')
    ensures Inv(s', origin)
  {
    if Push(s.mem, s'.mem, s.w, s'.w) && s'.r == s.r {
      PushInv(s, s', origin);
    } else {
      PopInv(s, s', origin);
    }
  }

  lemma {:induction false} RunInv(run: seq<State>, origin: nat, i: nat)
    requires Run(run, origin) && i < |run|
    ensures Inv(run[i], origin)
  {
    assert Runs.Lawful(run, Begins(origin), Next, i);
    if i > 0 {
      RunInv(run, origin, i - 1);
      NextInv(run[i - 1], run[i], origin);
    }
  }

  /** A FIFO of capacity N - 1: the wrapped difference of the counters is its
      length, and pops return the oldest messages in order. */
  lemma RefinesBoundedFifo(run: seq<State>, origin: nat, i: nat)
    requires Run(run, origin) && i < |run|
    ensures var m := run[i].mem;
            && |m.popped| <= |m.pushed|
            && (m.wt + WORD - m.rd) % WORD == |m.pushed| - |m.popped| <= N - 1
            && m.popped == m.pushed[..|m.popped|]
  {
    RunInv(run, origin, i);
    var m := run[i].mem;
    WrappedDifference(origin + |m.popped|, |m.pushed| - |m.popped|);
  }

  lemma WrappedDifference(c: nat, d: nat)
    requires d < N
    ensures ((c + d) % WORD + WORD - c % WORD) % WORD == d
  {
  }

  lemma NeverInTheSameSlot(run: seq<State>, origin: nat, i: nat)
    requires Run(run, origin) && i < |run| && run[i].w.WWrite? && run[i].r.RCopy?
    ensures run[i].w.slot != run[i].r.slot
  {
    RunInv(run, origin, i);
    SameSlot(origin + |run[i].mem.popped|, origin + |run[i].mem.pushed|);
  }

  /** A push is refused exactly when the queue is full as it loads rd_. */
  lemma RefusedIffFull(run: seq<State>, origin: nat, i: nat, s': State)
    requires Run(run, origin) && i < |run| && run[i].w.WLoadRd?
    requires WellSized(run[i].mem) && Push(run[i].mem, s'.mem, run[i].w, s'.w)
    ensures s'.w == WIdle <==> |run[i].mem.pushed| == |run[i].mem.popped| + N - 1
  {
    RunInv(run, origin, i);
    WrapKeepsTheSlot(origin + |run[i].mem.popped|);
    SameSlot(origin + |run[i].mem.pushed|, origin + |run[i].mem.popped| + N - 1);
  }

  /** A pop finds nothing exactly when the queue is empty as it loads wt_. */
  lemma NothingIffEmpty(run: seq<State>, origin: nat, i: nat, s': State)
    requires Run(run, origin) && i < |run| && run[i].r.RLoadWt?
    requires WellSized(run[i].mem) && Pop(run[i].mem, s'.mem, run[i].r, s'.r)
    ensures s'.r == RIdle <==> |run[i].mem.pushed| == |run[i].mem.popped|
  {
    RunInv(run, origin, i);
    WrapKeepsTheSlot(origin + |run[i].mem.pushed|);
    SameSlot(origin + |run[i].mem.popped|, origin + |run[i].mem.pushed|);
  }
}
