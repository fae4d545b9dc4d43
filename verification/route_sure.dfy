/** Exactly which receivers of the single-writer broadcast ring are sure of their
    messages, whatever the others go on to do. */
module RouteSure {
  import opened Ring
  import opened Route
  import Runs
  import opened RouteAlone

  /** From s to s' receiver r has been given exactly the messages it passed. */
  ghost predicate GivenExactly(s: State, s': State, r: Rid) {
    var m, m' := s.mem, s'.mem;
    && r in m.pos && r in m.got && r in m'.pos && r in m'.got
    && m.pos[r] <= m'.pos[r] <= |m'.log|
    && m'.got[r] == m.got[r] + m'.log[m.pos[r]..m'.pos[r]]
  }

  // run' goes on from run while r stays connected.
  ghost predicate Continues(run: seq<State>, run': seq<State>, r: Rid)
    requires run != []
  {
    Run(run') && run <= run' && Connected(run', |run| - 1, |run'| - 1, r)
  }

  ghost predicate Sure(run: seq<State>, r: Rid)
    requires run != []
  {
    forall run' | Continues(run, run', r) :: GivenExactly(Last(run), Last(run'), r)
  }

  /** Some slot that the writer comes to before it has gone round holds r's bit,
      left there by a receiver that has gone: the writer stops in front of it. */
  ghost predicate Blocked(m: Mem, b: nat, lo: nat, hi: nat)
    requires WellSized(m)
  {
    exists j: nat | lo <= j < hi :: Names(m, j, b)
  }

  // ---------------------------------------------------------------- sure

  // What r has copied is the message.
  ghost predicate BufferOk(m: Mem, pc: RPc) {
    match pc
    case RCopy(i, buff, done) => i < |m.log| && Agrees(buff, m.log[i], done)
    case RLoadRc(i, buff) => i < |m.log| && buff == m.log[i]
    case RCasRc(i, buff, _) => i < |m.log| && buff == m.log[i]
    case _ => true
  }

  /** The writer cannot get past index j, and r is less than a round behind it. */
  ghost predicate Stalled(s: State, r: Rid, j: nat)
    requires WellSized(s.mem)
  {
    var m := s.mem;
    && r in m.live && r in m.pos && r in m.got && r in s.rcv
    && j < m.pos[r] + N && Unclaimed(s) <= j
    && Names(m, j, m.live[r])
    && (m.wt == j ==> Sees(s.w, m.live[r]))
    && BufferOk(m, s.rcv[r])
  }

  lemma Meet(x: set<nat>, y: set<nat>, b: nat)
    ensures b in x && b in y ==> x * y != {}
  {
    assert b in x && b in y ==> b in x * y;
  }

  // The writer leaves the slot of j alone.
  lemma WriterKeepsName(s: State, s': State, r: Rid, j: nat)
    requires Inv(s) && WriterStep(s, s') && Stalled(s, r, j) && WellSized(s'.mem)
    ensures Names(s'.mem, j, s.mem.live[r])
    ensures Unclaimed(s') <= j && (s'.mem.wt == j ==> Sees(s'.w, s.mem.live[r]))
  {
    var m := s.mem;
    if s.w.WCasRc? && s'.w.WWrite? {
      Meet(s.w.cc, s.w.rc.mask, m.live[r]);
      WithinARound(m.wt, j);
    } else if s.w.WWrite? {
      WithinARound(m.wt, j);
    }
  }

  lemma WriterStaysStalled(s: State, s': State, r: Rid, j: nat)
    requires Inv(s) && Inv(s') && WriterStep(s, s') && Stalled(s, r, j)
    ensures Stalled(s', r, j) && GivenExactly(s, s', r)
  {
    WriterKeepsName(s, s', r, j);
    assert s'.mem.log[s.mem.pos[r]..s.mem.pos[r]] == [];
  }

  lemma OtherStaysStalled(s: State, s': State, q: Rid, r: Rid, j: nat)
    requires Inv(s) && Inv(s') && ReceiverStep(s, s', q) && q != r && Foreign(s.mem, s'.mem, q) && Stalled(s, r, j)
    ensures Stalled(s', r, j) && GivenExactly(s, s', r)
  {
    var m, m' := s.mem, s'.mem;
    assert m'.log[m.pos[r]..m.pos[r]] == [];
    KeepsBit(m, m', q, s.w, s.rcv[q], s'.rcv[q], Slot(j), r);
  }

  // A step of q takes no other receiver's bit away.
  lemma KeepsBit(m: Mem, m': Mem, q: Rid, w: WPc, pc: RPc, pc': RPc, k: nat, r: Rid)
    requires Sound(m) && Receive(m, m', q, w, pc, pc') && WellSized(m') && k < N && q != r && r in m.live
    ensures m.live[r] in m.cells[k].rc.mask ==> m.live[r] in m'.cells[k].rc.mask
  {
  }

  // The slot of r's next message holds that message.
  lemma SlotIsCurrent(s: State, r: Rid, c: nat)
    requires Inv(s) && c < s.mem.wt && Unclaimed(s) <= c + N
    ensures At(s.mem, c).data == s.mem.log[c]
  {
    var m := s.mem;
    assert CellOk(m, Slot(c), s.w.WWrite?);
    OneRoundOn(c);
    if s.w.WWrite? {
      WithinARound(c, m.wt);
    }
    SameWindow(m.wt, m.next[Slot(c)], c + N);
  }

  lemma CopyStaysStalled(s: State, s': State, r: Rid, j: nat)
    requires Inv(s) && Inv(s') && ReceiverStep(s, s', r) && s'.mem == s.mem && s'.rcv[r] != Gone && Stalled(s, r, j)
    ensures Stalled(s', r, j) && GivenExactly(s, s', r)
  {
    var m := s.mem;
    assert m.log[m.pos[r]..m.pos[r]] == [];
    assert ReceiverOk(m, r, s.rcv[r]);
    if s.rcv[r].RIdle? && s'.rcv[r].RCopy? {
      assert |m.log[m.pos[r]]| == m.size;
    } else if s.rcv[r].RCopy? {
      SlotIsCurrent(s, r, s.rcv[r].i);
      if s'.rcv[r].RLoadRc? {
        WholeCopyIsEqual(s.rcv[r].buff, m.log[s.rcv[r].i], s.rcv[r].done);
      }
    }
  }

  // r finishes index i with a good copy.
  ghost predicate Finishes(s: State, s': State, r: Rid, i: nat) {
    var m, m' := s.mem, s'.mem;
    && r in m.live && r in m'.live && m'.live[r] == m.live[r] && m'.wt == m.wt && m'.log == m.log && i < |m.log|
    && r in m.got && r in m'.got && m'.got[r] == m.got[r] + [m.log[i]]
    && r in m.pos && m.pos[r] == i && r in m'.pos && m'.pos[r] == i + 1
    && r in s'.rcv && s'.rcv[r] == RIdle(i + 1) && s'.w == s.w
  }

  lemma StalledFinishes(s: State, s': State, r: Rid, j: nat)
    requires Inv(s) && ReceiverStep(s, s', r) && s'.mem != s.mem && s'.rcv[r] != Gone && Stalled(s, r, j)
    ensures Finishes(s, s', r, s.mem.pos[r])
  {
    assert ReceiverOk(s.mem, r, s.rcv[r]);
  }

  lemma FinishKeepsName(s: State, s': State, r: Rid, j: nat)
    requires Inv(s) && ReceiverStep(s, s', r) && s'.mem != s.mem && s'.rcv[r] != Gone && Stalled(s, r, j)
    ensures WellSized(s'.mem) && Names(s'.mem, j, s.mem.live[r])
  {
    assert ReceiverOk(s.mem, r, s.rcv[r]);
    WithinARound(s.mem.pos[r], j);
  }

  lemma FinishStaysStalled(s: State, s': State, r: Rid, j: nat)
    requires Inv(s) && Inv(s') && ReceiverStep(s, s', r) && s'.mem != s.mem && s'.rcv[r] != Gone && Stalled(s, r, j)
    ensures Stalled(s', r, j) && GivenExactly(s, s', r)
  {
    StalledFinishes(s, s', r, j);
    FinishKeepsName(s, s', r, j);
    var i := s.mem.pos[r];
    assert s.mem.log[i..i + 1] == [s.mem.log[i]];
  }

  lemma NextStaysStalled(s: State, s': State, r: Rid, j: nat)
    requires Inv(s) && Next(s, s') && Stalled(s, r, j) && r in s'.mem.live
    ensures Inv(s') && Stalled(s', r, j) && GivenExactly(s, s', r)
  {
    NextInv(s, s');
    if WriterStep(s, s') {
      WriterStaysStalled(s, s', r, j);
    } else {
      var q :| ReceiverStep(s, s', q);
      if q != r {
        assert ReceiverOk(s.mem, q, s.rcv[q]);
        ReceiveForeign(s.mem, s'.mem, q, s.w, s.rcv[q], s'.rcv[q]);
        OtherStaysStalled(s, s', q, r, j);
      } else {
        assert ReceiverOk(s'.mem, r, s'.rcv[r]);
        if s'.mem == s.mem {
          CopyStaysStalled(s, s', r, j);
        } else {
          FinishStaysStalled(s, s', r, j);
        }
      }
    }
  }

  lemma ExactlyTrans(a: State, b: State, c: State, r: Rid)
    requires GivenExactly(a, b, r) && GivenExactly(b, c, r) && b.mem.log <= c.mem.log
    ensures GivenExactly(a, c, r)
  {
    var i, j, k := a.mem.pos[r], b.mem.pos[r], c.mem.pos[r];
    assert c.mem.log[i..j] == b.mem.log[i..j];
    assert c.mem.log[i..k] == c.mem.log[i..j] + c.mem.log[j..k];
  }

  lemma ExactlyNothing(s: State, r: Rid)
    requires r in s.mem.pos && r in s.mem.got && s.mem.pos[r] <= |s.mem.log|
    ensures GivenExactly(s, s, r)
  {
    assert s.mem.log[s.mem.pos[r]..s.mem.pos[r]] == [];
  }

  // A receiver that has not read the slot's last message yet may clear its bit.
  ghost predicate MayClear(m: Mem, q: Rid, d: nat) {
    q in m.live && q in m.pos && m.live[q] == d && m.pos[q] + N <= m.wt
  }

  /** The writer has loaded the connections and may yet claim the slot of wt with
      them: it has seen the slot free and nothing has changed, or whoever is still
      in the slot's mask may read on. */
  ghost predicate CanClaim(s: State)
    requires WellSized(s.mem) && !Unlisted(s.w)
  {
    match s.w
    case WCasRc(_, _, _, rc) => At(s.mem, s.mem.wt).rc == rc
    case _ => forall d | d in s.w.cc && Names(s.mem, s.mem.wt, d) :: exists q :: MayClear(s.mem, q, d)
  }

  ghost predicate Doomed(s: State)
    requires WellSized(s.mem)
  {
    !Unlisted(s.w) && !CanClaim(s)
  }

  lemma WriterDoomed(s: State, s': State)
    requires Inv(s) && WriterStep(s, s') && Doomed(s)
    ensures s'.mem == s.mem && (Doomed(s') || (Unlisted(s'.w) && !s'.w.WWrite?))
  {
    if s.w.WLoadRc? {
      var d :| d in s.w.cc && Names(s.mem, s.mem.wt, d) && !exists q :: MayClear(s.mem, q, d);
      assert CellOk(s.mem, Slot(s.mem.wt), false);
      assert d in s.w.cc * At(s.mem, s.mem.wt).rc.mask;
    }
  }

  // A bit that nobody may clear stays.
  lemma BitStays(m: Mem, m': Mem, q: Rid, w: WPc, pc: RPc, pc': RPc, d: nat)
    requires Sound(m) && Sound(m') && ReceiverOk(m, q, pc) && Receive(m, m', q, w, pc, pc') && m'.wt == m.wt
    requires Names(m, m.wt, d) && !exists p :: MayClear(m, p, d)
    ensures Names(m', m.wt, d)
  {
    assert !MayClear(m, q, d);
    if pc.RCasRc? && m' != m && q in m.live && m.live[q] == d {
      WithinARound(pc.i, m.wt);
    }
  }

  lemma NobodyNew(m: Mem, m': Mem, q: Rid, w: WPc, pc: RPc, pc': RPc, d: nat, p: Rid)
    requires Sound(m) && Sound(m') && ReceiverOk(m, q, pc) && Receive(m, m', q, w, pc, pc') && Foreign(m, m', q)
    requires MayClear(m', p, d)
    ensures MayClear(m, p, d)
  {
  }

  lemma ReceiverDoomed(s: State, s': State, q: Rid)
    requires Inv(s) && Inv(s') && ReceiverStep(s, s', q) && Foreign(s.mem, s'.mem, q) && Doomed(s)
    ensures Doomed(s')
  {
    assert ReceiverOk(s.mem, q, s.rcv[q]);
    var m, m' := s.mem, s'.mem;
    if !s.w.WCasRc? {
      var d :| d in s.w.cc && Names(m, m.wt, d) && !exists p :: MayClear(m, p, d);
      BitStays(m, m', q, s.w, s.rcv[q], s'.rcv[q], d);
      forall p
        ensures !MayClear(m', p, d)
      {
        if MayClear(m', p, d) {
          NobodyNew(m, m', q, s.w, s.rcv[q], s'.rcv[q], d, p);
        }
      }
    } else {
      assert m'.cells[Slot(m.wt)].rc.mask <= m.cells[Slot(m.wt)].rc.mask;
    }
  }

  // The same state with the writer between pushes.
  function Idle(s: State): State {
    s.(w := WIdle)
  }

  ghost predicate Stopped(s: State, r: Rid)
    requires WellSized(s.mem)
  {
    exists j :: Stalled(s, r, j)
  }

  /** r is sure: it is guarded, or the writer is stopped; the push under way does
      not count if it is doomed. */
  ghost predicate Safe(s: State, r: Rid)
    requires WellSized(s.mem)
  {
    || Guarded(s, r) || Stopped(s, r)
    || (Doomed(s) && (Guarded(Idle(s), r) || Stopped(Idle(s), r)))
  }

  lemma IdleInv(s: State)
    requires Inv(s) && !s.w.WWrite?
    ensures Inv(Idle(s))
  {
  }

  lemma GuardedExactly(s: State, s': State, r: Rid)
    requires Inv(s) && Next(s, s') && Guarded(s, r) && r in s'.mem.live
    ensures Inv(s') && Guarded(s', r) && GivenExactly(s, s', r)
  {
    NextKeepsGuard(s, s', r);
  }

  lemma IdleReceives(s: State, s': State, q: Rid)
    requires WellSized(s.mem) && ReceiverStep(s, s', q) && !s.w.WWrite?
    ensures Next(Idle(s), Idle(s'))
  {
    assert ReceiverStep(Idle(s), Idle(s'), q);
  }

  // What holds of the state with an idle writer goes on to hold.
  lemma IdleKeepsSafe(s: State, s': State, r: Rid, q: Rid)
    requires Inv(s) && ReceiverStep(s, s', q) && !s.w.WWrite? && r in s'.mem.live
    requires Guarded(Idle(s), r) || Stopped(Idle(s), r)
    ensures WellSized(s'.mem) && (Guarded(Idle(s'), r) || Stopped(Idle(s'), r))
    ensures GivenExactly(s, s', r)
  {
    IdleInv(s);
    IdleReceives(s, s', q);
    if Guarded(Idle(s), r) {
      GuardedExactly(Idle(s), Idle(s'), r);
    } else {
      var j :| Stalled(Idle(s), r, j);
      NextStaysStalled(Idle(s), Idle(s'), r, j);
    }
  }

  lemma DoomedKeepsSafe(s: State, s': State, r: Rid)
    requires Inv(s) && Inv(s') && Next(s, s') && r in s'.mem.live
    requires Doomed(s) && (Guarded(Idle(s), r) || Stopped(Idle(s), r))
    ensures Safe(s', r) && GivenExactly(s, s', r)
  {
    if WriterStep(s, s') {
      WriterDoomed(s, s');
      assert Idle(s') == Idle(s);
      ExactlyNothing(s, r);
      if Stopped(Idle(s), r) && Unlisted(s'.w) {
        var j :| Stalled(Idle(s), r, j);
        assert Stalled(s', r, j);
      }
    } else {
      var q :| ReceiverStep(s, s', q);
      assert ReceiverOk(s.mem, q, s.rcv[q]);
      ReceiveForeign(s.mem, s'.mem, q, s.w, s.rcv[q], s'.rcv[q]);
      ReceiverDoomed(s, s', q);
      IdleKeepsSafe(s, s', r, q);
    }
  }

  lemma NextKeepsSafe(s: State, s': State, r: Rid)
    requires Inv(s) && Next(s, s') && Safe(s, r) && r in s'.mem.live
    ensures Inv(s') && Safe(s', r) && GivenExactly(s, s', r)
  {
    NextInv(s, s');
    if Guarded(s, r) {
      GuardedExactly(s, s', r);
    } else if j :| Stalled(s, r, j) {
      NextStaysStalled(s, s', r, j);
    } else {
      DoomedKeepsSafe(s, s', r);
    }
  }

  lemma RunKeepsSafe(run: seq<State>, b: nat, r: Rid)
    requires Run(run) && 0 < b < |run| && r in run[b].mem.live
    requires WellSized(run[b - 1].mem) && Safe(run[b - 1], r)
    ensures WellSized(run[b].mem) && Safe(run[b], r) && GivenExactly(run[b - 1], run[b], r)
    ensures run[b - 1].mem.log <= run[b].mem.log
  {
    RunInv(run, b - 1);
    assert Runs.Lawful(run, Init, Next, b);
    NextKeepsSafe(run[b - 1], run[b], r);
    LogGrows(run[b - 1], run[b]);
  }

  lemma {:induction false} SafeReadsOn(run: seq<State>, a: nat, b: nat, r: Rid)
    requires Run(run) && a <= b < |run| && Connected(run, a, b, r)
    requires WellSized(run[a].mem) && Safe(run[a], r)
    ensures WellSized(run[b].mem) && Safe(run[b], r) && GivenExactly(run[a], run[b], r)
    decreases b
  {
    if a == b {
      RunInv(run, a);
      SafeHasCursor(run[a], r);
      ExactlyNothing(run[a], r);
    } else {
      SafeReadsOn(run, a, b - 1, r);
      RunKeepsSafe(run, b, r);
      ExactlyTrans(run[a], run[b - 1], run[b], r);
    }
  }

  lemma SafeHasCursor(s: State, r: Rid)
    requires Inv(s) && Safe(s, r)
    ensures r in s.mem.pos && r in s.mem.got && s.mem.pos[r] <= |s.mem.log|
  {
  }

  lemma LogGrows(s: State, s': State)
    requires Inv(s) && Next(s, s')
    ensures s.mem.log <= s'.mem.log
  {
    if !WriterStep(s, s') {
      var q :| ReceiverStep(s, s', q);
      assert ReceiverOk(s.mem, q, s.rcv[q]);
      ReceiverStepInv(s, s', q);
      ReceiveForeign(s.mem, s'.mem, q, s.w, s.rcv[q], s'.rcv[q]);
    }
  }

  // ---------------------------------------------------------------- not sure

  // r alone is connected, with bit b.
  ghost predicate Lone(s: State, r: Rid, b: nat) {
    && WellSized(s.mem) && s.mem.live == map[r := b] && s.mem.conn == {b}
    && r in s.rcv && r in s.mem.pos && r in s.mem.got
  }

  // Nothing that r or the writer sees of the ring itself is different.
  ghost predicate SameRing(s: State, s': State, r: Rid) {
    var m, m' := s.mem, s'.mem;
    && m'.size == m.size && m'.wt == m.wt && m'.cells == m.cells && m'.log == m.log && s'.w == s.w
    && (r in m.live ==> r in m'.live && m'.live[r] == m.live[r])
    && (r in s.rcv ==> r in s'.rcv && s'.rcv[r] == s.rcv[r])
    && (r in m.pos ==> r in m'.pos && m'.pos[r] == m.pos[r])
    && (r in m.got ==> r in m'.got && m'.got[r] == m.got[r])
  }

  lemma LiveCanQuit(run: seq<State>, q: Rid)
    requires Run(run) && q in Last(run).mem.live
    ensures var s := Last(run); WellSized(s.mem) && q in s.rcv && !s.rcv[q].Out? && !s.rcv[q].Gone?
  {
    RunInv(run, |run| - 1);
    assert ReceiverOk(Last(run).mem, q, Last(run).rcv[q]);
  }

  lemma QuitOne(run: seq<State>, q: Rid, r: Rid) returns (run': seq<State>)
    requires Run(run) && WellSized(Last(run).mem) && q in Last(run).mem.live && r in Last(run).mem.live && q != r
    requires q in Last(run).rcv && !Last(run).rcv[q].Out? && !Last(run).rcv[q].Gone?
    ensures GoesOn(run, run', r) && SameRing(Last(run), Last(run'), r)
    ensures Last(run').mem.live == Last(run).mem.live - {q}
  {
    run' := ReceiverGoes(run, q, Leave(Last(run).mem, q), Gone, r);
  }

  lemma LoneOwnsConn(run: seq<State>, r: Rid)
    requires Run(run) && Last(run).mem.live.Keys == {r} && r in Last(run).mem.pos
    ensures Lone(Last(run), r, Last(run).mem.live[r])
  {
    RunInv(run, |run| - 1);
    var m := Last(run).mem;
    forall c | c in m.conn
      ensures c == m.live[r]
    {
      var q :| q in m.live && m.live[q] == c;
    }
    assert m.live == map[r := m.live[r]];
  }

  lemma {:induction false} QuitAll(run: seq<State>, r: Rid) returns (run': seq<State>)
    requires Run(run) && r in Last(run).mem.live && r in Last(run).mem.pos
    ensures GoesOn(run, run', r) && SameRing(Last(run), Last(run'), r)
    ensures Lone(Last(run'), r, Last(run).mem.live[r])
    decreases |Last(run).mem.live.Keys|
  {
    var live := Last(run).mem.live;
    if live.Keys == {r} {
      run' := run;
      LoneOwnsConn(run, r);
    } else {
      var q :| q in live.Keys && q != r;
      LiveCanQuit(run, q);
      var one := QuitOne(run, q, r);
      assert Last(one).mem.live.Keys == live.Keys - {q};
      run' := QuitAll(one, r);
    }
  }

  /** k pushes of msg, into slots that do not hold b. */
  lemma {:induction false} Lap(run: seq<State>, r: Rid, b: nat, k: nat, msg: Msg) returns (run': seq<State>)
    requires Run(run) && Lone(Last(run), r, b) && Last(run).w == WIdle && |msg| == Last(run).mem.size && 0 < k <= N
    requires forall j: nat | Last(run).mem.wt <= j < Last(run).mem.wt + k :: !Names(Last(run).mem, j, b)
    ensures GoesOn(run, run', r) && Lone(Last(run'), r, b)
    ensures var m, m' := Last(run).mem, Last(run').mem;
            && m'.wt == m.wt + k && At(m', m'.wt - 1).data == msg && m.log <= m'.log
            && Last(run').rcv == Last(run).rcv && m'.pos == m.pos && m'.got == m.got
    decreases k
  {
    var m := Last(run).mem;
    assert !Names(m, m.wt, b);
    assert m.conn * At(m, m.wt).rc.mask == {};
    var one := PushAlone(run, msg, r);
    var m1 := Last(one).mem;
    if k == 1 {
      run' := one;
    } else {
      forall j: nat | m1.wt <= j < m1.wt + (k - 1)
        ensures !Names(m1, j, b)
      {
        WithinARound(m.wt, j);
        assert !Names(m, j, b) && At(m1, j) == At(m, j);
      }
      run' := Lap(one, r, b, k - 1, msg);
    }
  }

  // What a pop of i does to the masks.
  lemma PoppedNames(m: Mem, r: Rid, b: nat, i: nat, j: nat)
    requires WellSized(m) && r in m.live && r in m.got && m.live[r] == b
    ensures WellSized(Popped(m, r, i))
    ensures !Names(Popped(m, r, i), i, b)
    ensures Names(Popped(m, r, i), j, b) ==> Names(m, j, b)
    ensures At(Popped(m, r, i), j).data == At(m, j).data
  {
  }

  /** r reads on up to c, and clears its bit on the way. */
  lemma {:induction false} PopTo(run: seq<State>, r: Rid, b: nat, i: nat, c: nat) returns (run': seq<State>)
    requires Run(run) && Lone(Last(run), r, b) && Last(run).rcv[r] == RIdle(i) && i <= c < Last(run).mem.wt
    requires Last(run).mem.pos[r] == i
    ensures GoesOn(run, run', r) && Lone(Last(run'), r, b)
    ensures var s, s' := Last(run), Last(run');
            && s'.w == s.w && s'.rcv[r] == RIdle(c) && s'.mem.pos[r] == c
            && s'.mem.wt == s.mem.wt && s'.mem.log == s.mem.log && s'.mem.size == s.mem.size
            && |s'.mem.got[r]| == |s.mem.got[r]| + (c - i)
            && (forall j: nat :: Names(s'.mem, j, b) ==> Names(s.mem, j, b))
            && (forall j: nat | i <= j < c :: !Names(s'.mem, j, b))
    decreases c - i
  {
    if i == c {
      run' := run;
    } else {
      var m := Last(run).mem;
      var one := PopAlone(run, r, i, r);
      forall j: nat
        ensures Names(Last(one).mem, j, b) ==> Names(m, j, b) && j != i
      {
        PoppedNames(m, r, b, i, j);
      }
      run' := PopTo(one, r, b, i + 1, c);
      assert !Names(Last(one).mem, i, b);
    }
  }

  // Some other message of the same size.
  function Unlike(m: Msg): (m': Msg)
    requires m != []
    ensures |m'| == |m| && m' != m
  {
    m[0 := if m[0] == 0 then 1 else 0]
  }

  /** Alone with the writer, r reads up to c, the writer goes round once, and r is
      handed `bad` for message c. */
  lemma LoneIsLapped(run: seq<State>, r: Rid, b: nat, i: nat, c: nat, bad: Msg) returns (run': seq<State>)
    requires Run(run) && Lone(Last(run), r, b) && Last(run).w == WIdle && |bad| == Last(run).mem.size
    requires Last(run).rcv[r] == RIdle(i) && Last(run).mem.pos[r] == i
    requires i <= c < Last(run).mem.wt <= i + N && !Names(Last(run).mem, c, b)
    requires forall j: nat | Last(run).mem.wt <= j < i + N :: !Names(Last(run).mem, j, b)
    ensures GoesOn(run, run', r)
    ensures var m, m' := Last(run).mem, Last(run').mem;
            && r in m'.pos && r in m'.got && m'.pos[r] == c + 1 && m.log <= m'.log
            && |m'.got[r]| == |m.got[r]| + (c + 1 - i) && m'.got[r][|m'.got[r]| - 1] == bad
  {
    var m := Last(run).mem;
    var read := PopTo(run, r, b, i, c);
    var m1 := Last(read).mem;
    var k := c + N + 1 - m.wt;
    forall j: nat | m1.wt <= j < m1.wt + k
      ensures !Names(m1, j, b)
    {
      if j >= i + N {
        OneRoundOn(j - N);
        assert Names(m1, j, b) == Names(m1, j - N, b);
      }
    }
    var lapped := Lap(read, r, b, k, bad);
    OneRoundOn(c);
    assert At(Last(lapped).mem, c).data == bad;
    run' := PopAlone(lapped, r, c, r);
  }

  // A push goes on: the masks and the receivers stay as they are.
  ghost predicate Writes(s: State, s': State, n: nat) {
    var m, m' := s.mem, s'.mem;
    && WellSized(m) && WellSized(m')
    && s'.rcv == s.rcv && m'.wt == m.wt + n && m.log <= m'.log && m'.size == m.size
    && m'.live == m.live && m'.conn == m.conn && m'.pos == m.pos && m'.got == m.got
    && (forall k: nat | k < N :: m'.cells[k].rc == m.cells[k].rc)
  }

  lemma WriteOneByte(run: seq<State>, k: nat, r: Rid) returns (run': seq<State>)
    requires Run(run) && WellSized(Last(run).mem) && Last(run).w.WWrite? && r in Last(run).mem.live
    requires k < Last(run).mem.size && k < |Last(run).w.m| && k !in Last(run).w.done
    ensures GoesOn(run, run', r) && Writes(Last(run), Last(run'), 0)
    ensures Last(run').w == Last(run).w.(done := Last(run).w.done + {k})
  {
    var m, w := Last(run).mem, Last(run).w;
    run' := WriterGoes(run, WriteByte(m, k, w.m[k]), WWrite(w.m, w.cur, w.done + {k}), r);
  }

  /** The writer finishes what it is writing. */
  lemma {:induction false} FinishWriting(run: seq<State>, r: Rid) returns (run': seq<State>)
    requires Run(run) && WellSized(Last(run).mem) && Last(run).w.WWrite? && r in Last(run).mem.live
    requires |Last(run).w.m| == Last(run).mem.size
    ensures GoesOn(run, run', r) && Writes(Last(run), Last(run'), 1) && Last(run').w == WIdle
    decreases Left(Last(run).w.done, Last(run).mem.size)
  {
    var m, w := Last(run).mem, Last(run).w;
    if k: nat :| k < m.size && k !in w.done {
      OneByteFewer(w.done, m.size, k);
      var one := WriteOneByte(run, k, r);
      run' := FinishWriting(one, r);
    } else {
      run' := WriterGoes(run, Publish(m, w.m), WIdle, r);
    }
  }

  // ---------------------------------------------------------------- the exact condition

  // Each slot from r's cursor up to index e names it, or one that the writer comes
  // to before it has gone round does.
  ghost predicate NamedOrBlocked(s: State, r: Rid, e: nat)
    requires WellSized(s.mem) && r in s.mem.live && r in s.mem.pos
  {
    var m, b, i := s.mem, s.mem.live[r], s.mem.pos[r];
    || (forall c: nat | i <= c < e :: Names(m, c, b))
    || Blocked(m, b, e, i + N)
  }

  /** The condition, in the masks, the cursors and the writer's locals: the slots
      from r's cursor on name it, or a slot that the writer comes to first holds
      r's bit; and if the writer has loaded the connections without r's bit, it
      cannot claim the slot of wt with them, or is stopped by a later slot. */
  ghost predicate Secure(s: State, r: Rid)
    requires WellSized(s.mem) && r in s.mem.live && r in s.mem.pos
  {
    var m, b, i := s.mem, s.mem.live[r], s.mem.pos[r];
    if Unlisted(s.w) then NamedOrBlocked(s, r, Unclaimed(s))
    else
      && NamedOrBlocked(s, r, m.wt)
      && (b in s.w.cc || !CanClaim(s) || Blocked(m, b, m.wt + 1, i + N))
  }

  lemma BlockedIsStalled(s: State, r: Rid, e: nat, j: nat)
    requires Inv(s) && r in s.mem.live && r in s.mem.pos && r in s.rcv && s.rcv[r] == RIdle(s.mem.pos[r])
    requires e <= j < s.mem.pos[r] + N && Names(s.mem, j, s.mem.live[r]) && Unclaimed(s) <= e
    requires s.mem.wt < e || Sees(s.w, s.mem.live[r])
    ensures Stalled(s, r, j)
  {
  }

  lemma UnlistedIsSafe(s: State, r: Rid)
    requires Inv(s) && r in s.mem.live && r in s.mem.pos && r in s.rcv && s.rcv[r] == RIdle(s.mem.pos[r])
    requires Unlisted(s.w) && Unclaimed(s) <= s.mem.pos[r] + N && NamedOrBlocked(s, r, Unclaimed(s))
    ensures Guarded(s, r) || Stopped(s, r)
  {
    GuardedIffNamed(s, r);
    if Blocked(s.mem, s.mem.live[r], Unclaimed(s), s.mem.pos[r] + N) {
      var j: nat :| Unclaimed(s) <= j < s.mem.pos[r] + N && Names(s.mem, j, s.mem.live[r]);
      BlockedIsStalled(s, r, Unclaimed(s), j);
    }
  }

  lemma SecureIsSafe(s: State, r: Rid)
    requires Inv(s) && r in s.mem.live && r in s.mem.pos && r in s.rcv && s.rcv[r] == RIdle(s.mem.pos[r])
    requires Unclaimed(s) <= s.mem.pos[r] + N && Secure(s, r)
    ensures Safe(s, r)
  {
    if Unlisted(s.w) {
      UnlistedIsSafe(s, r);
    } else {
      IdleInv(s);
      UnlistedIsSafe(Idle(s), r);
      if Blocked(s.mem, s.mem.live[r], s.mem.wt + 1, s.mem.pos[r] + N) {
        var j: nat :| s.mem.wt + 1 <= j < s.mem.pos[r] + N && Names(s.mem, j, s.mem.live[r]);
        BlockedIsStalled(s, r, s.mem.wt + 1, j);
      } else if s.mem.live[r] in s.w.cc && Stopped(Idle(s), r) {
        var k :| Stalled(Idle(s), r, k);
        assert Stalled(s, r, k);
      }
    }
  }

  // ---------------------------------------------------------------- every other case is lost

  // r's cursor and everything it depends on are as they were.
  ghost predicate SameForR(s: State, s': State, r: Rid) {
    var m, m' := s.mem, s'.mem;
    && WellSized(m) && WellSized(m') && m'.size == m.size && m.log <= m'.log
    && r in m.live && r in m'.live && m'.live[r] == m.live[r]
    && r in s.rcv && r in s'.rcv && s'.rcv[r] == s.rcv[r]
    && r in m.pos && r in m'.pos && m'.pos[r] == m.pos[r]
    && r in m.got && r in m'.got && m'.got[r] == m.got[r]
  }

  // And the slots from lo on hold r's bit where they did.
  ghost predicate SameBits(s: State, s': State, r: Rid, lo: nat, hi: nat)
    requires SameForR(s, s', r)
  {
    forall j: nat | lo <= j < hi :: Names(s'.mem, j, s.mem.live[r]) == Names(s.mem, j, s.mem.live[r])
  }

  ghost predicate Loses(run: seq<State>, run': seq<State>, r: Rid)
    requires run != []
  {
    Continues(run, run', r) && !GivenExactly(Last(run), Last(run'), r)
  }

  lemma ContinuesTrans(run: seq<State>, run1: seq<State>, run2: seq<State>, r: Rid)
    requires run != [] && Last(run).mem.live.Keys >= {r} && GoesOn(run, run1, r) && GoesOn(run1, run2, r)
    ensures GoesOn(run, run2, r)
  {
  }

  lemma GoesOnContinues(run: seq<State>, run': seq<State>, r: Rid)
    requires run != [] && r in Last(run).mem.live && GoesOn(run, run', r)
    ensures Continues(run, run', r)
  {
  }

  // A last block that is not the message.
  lemma WrongBlock(s: State, s': State, r: Rid, c: nat, bad: Msg)
    requires r in s.mem.pos && r in s.mem.got && r in s'.mem.pos && r in s'.mem.got
    requires s.mem.pos[r] <= c < |s.mem.log| && s.mem.log <= s'.mem.log && s'.mem.pos[r] == c + 1
    requires |s'.mem.got[r]| == |s.mem.got[r]| + (c + 1 - s.mem.pos[r])
    requires s'.mem.got[r][|s'.mem.got[r]| - 1] == bad != s.mem.log[c]
    ensures !GivenExactly(s, s', r)
  {
    var part := s'.mem.log[s.mem.pos[r]..c + 1];
    assert part[|part| - 1] == s.mem.log[c];
  }

  /** With the writer between pushes: everybody else leaves, and r is lapped. */
  lemma IdleLoses(run: seq<State>, r: Rid, c: nat) returns (run': seq<State>)
    requires Run(run) && Inv(Last(run)) && Last(run).w == WIdle && Last(run).mem.size > 0
    requires r in Last(run).rcv && r in Last(run).mem.live && r in Last(run).mem.pos
    requires var i := Last(run).mem.pos[r];
             && Last(run).rcv[r] == RIdle(i) && i <= c < Last(run).mem.wt <= i + N
             && !Names(Last(run).mem, c, Last(run).mem.live[r])
             && !Blocked(Last(run).mem, Last(run).mem.live[r], Last(run).mem.wt, i + N)
    ensures Loses(run, run', r)
  {
    var s := Last(run);
    var i, b := s.mem.pos[r], s.mem.live[r];
    var alone := QuitAll(run, r);
    forall j: nat | s.mem.wt <= j < i + N
      ensures !Names(Last(alone).mem, j, b)
    {
      assert !Names(s.mem, j, b);
    }
    assert |s.mem.log[c]| == s.mem.size;
    var bad := Unlike(s.mem.log[c]);
    run' := LoneIsLapped(alone, r, b, i, c, bad);
    ContinuesTrans(run, alone, run', r);
    GoesOnContinues(run, run', r);
    WrongBlock(s, Last(run'), r, c, bad);
  }

  lemma LosesEarlier(run: seq<State>, run1: seq<State>, run2: seq<State>, r: Rid)
    requires run != [] && GoesOn(run, run1, r) && SameForR(Last(run), Last(run1), r) && Loses(run1, run2, r)
    ensures Loses(run, run2, r)
  {
    forall k | |run| - 1 <= k <= |run2| - 1
      ensures r in run2[k].mem.live
    {
      if k < |run1| {
        assert run2[k] == run1[k];
      }
    }
  }

  // A cursor at i, an unnamed slot c from there on, and no stop before i + N.
  ghost predicate Exposed(s: State, r: Rid, c: nat, e: nat)
    requires WellSized(s.mem) && r in s.mem.live && r in s.mem.pos
  {
    var m, b, i := s.mem, s.mem.live[r], s.mem.pos[r];
    && r in s.rcv && s.rcv[r] == RIdle(i) && m.size > 0
    && i <= c < e && !Names(m, c, b) && !Blocked(m, b, e, i + N)
  }

  lemma SameExposed(s: State, s': State, r: Rid, c: nat, e: nat, e': nat)
    requires SameForR(s, s', r) && Exposed(s, r, c, e) && e <= e'
    requires SameBits(s, s', r, e', s.mem.pos[r] + N) && Names(s'.mem, c, s.mem.live[r]) == Names(s.mem, c, s.mem.live[r])
    ensures Exposed(s', r, c, e')
  {
    var b, i := s.mem.live[r], s.mem.pos[r];
    forall j: nat | e' <= j < i + N
      ensures !Names(s'.mem, j, b)
    {
      assert !Names(s.mem, j, b);
    }
  }

  lemma WritingLoses(run: seq<State>, r: Rid, c: nat) returns (run': seq<State>)
    requires Run(run) && Inv(Last(run)) && Last(run).w.WWrite? && r in Last(run).mem.live && r in Last(run).mem.pos
    requires Exposed(Last(run), r, c, Last(run).mem.wt + 1) && Last(run).mem.wt < Last(run).mem.pos[r] + N
    ensures Loses(run, run', r)
  {
    var s := Last(run);
    var done := FinishWriting(run, r);
    RunInv(done, |done| - 1);
    SameExposed(s, Last(done), r, c, s.mem.wt + 1, s.mem.wt + 1);
    run' := IdleLoses(done, r, c);
    LosesEarlier(run, done, run', r);
  }

  // The bits of a slot other than that of wt, after a push.
  lemma PushedBits(m: Mem, cc: set<nat>, msg: Msg, j: nat, b: nat)
    requires WellSized(m) && |msg| == m.size && Slot(j) != Slot(m.wt)
    ensures WellSized(PushedTo(m, cc, msg)) && Names(PushedTo(m, cc, msg), j, b) == Names(m, j, b)
  {
  }

  // Everybody else has left, and the writer is about to load the connections.
  lemma LonePushes(run: seq<State>, r: Rid, b: nat) returns (run': seq<State>)
    requires Run(run) && Lone(Last(run), r, b) && Last(run).w.WLoadConn? && |Last(run).w.m| == Last(run).mem.size
    requires !Names(Last(run).mem, Last(run).mem.wt, b)
    ensures GoesOn(run, run', r)
    ensures Last(run') == State(PushedTo(Last(run).mem, {b}, Last(run).w.m), WIdle, Last(run).rcv)
  {
    var m, msg := Last(run).mem, Last(run).w.m;
    var loaded := WriterGoes(run, m, WLoadWt(msg, {b}), r);
    run' := FinishPush(loaded, msg, {b}, r);
  }

  // A push to bits cc leaves r as exposed as it was.
  lemma PushedExposed(s: State, s': State, r: Rid, c: nat, cc: set<nat>, msg: Msg)
    requires WellSized(s.mem) && |msg| == s.mem.size && s' == State(PushedTo(s.mem, cc, msg), WIdle, s.rcv)
    requires r in s.mem.live && r in s.mem.pos && r in s.mem.got
    requires Exposed(s, r, c, s.mem.wt) && s.mem.wt < s.mem.pos[r] + N
    ensures SameForR(s, s', r) && Exposed(s', r, c, s.mem.wt + 1)
  {
    var b, i, wt := s.mem.live[r], s.mem.pos[r], s.mem.wt;
    forall j: nat | j == c || wt + 1 <= j < i + N
      ensures Names(s'.mem, j, b) == Names(s.mem, j, b)
    {
      if j == c {
        WithinARound(c, wt);
      } else {
        WithinARound(wt, j);
      }
      PushedBits(s.mem, cc, msg, j, b);
    }
    NarrowExposed(s, r, c, wt);
    SameExposed(s, s', r, c, wt + 1, wt + 1);
  }

  lemma LonePushLoses(run: seq<State>, r: Rid, b: nat, c: nat) returns (run': seq<State>)
    requires Run(run) && Lone(Last(run), r, b) && Last(run).w.WLoadConn? && |Last(run).w.m| == Last(run).mem.size
    requires Exposed(Last(run), r, c, Last(run).mem.wt) && Last(run).mem.wt < Last(run).mem.pos[r] + N
    ensures Loses(run, run', r)
  {
    assert !Names(Last(run).mem, Last(run).mem.wt, b);
    var pushed := LonePushes(run, r, b);
    PushedExposed(Last(run), Last(pushed), r, c, {b}, Last(run).w.m);
    RunInv(pushed, |pushed| - 1);
    run' := IdleLoses(pushed, r, c);
    LosesEarlier(run, pushed, run', r);
  }

  lemma LoadConnLoses(run: seq<State>, r: Rid, c: nat) returns (run': seq<State>)
    requires Run(run) && Inv(Last(run)) && Last(run).w.WLoadConn? && r in Last(run).mem.live && r in Last(run).mem.pos
    requires Exposed(Last(run), r, c, Last(run).mem.wt) && Last(run).mem.wt < Last(run).mem.pos[r] + N
    ensures Loses(run, run', r)
  {
    var alone := QuitAll(run, r);
    SameExposed(Last(run), Last(alone), r, c, Last(run).mem.wt, Last(run).mem.wt);
    run' := LonePushLoses(alone, r, Last(run).mem.live[r], c);
    LosesEarlier(run, alone, run', r);
  }

  lemma NarrowExposed(s: State, r: Rid, c: nat, e: nat)
    requires WellSized(s.mem) && r in s.mem.live && r in s.mem.pos && Exposed(s, r, c, e)
    ensures Exposed(s, r, c, e + 1)
  {
  }

  // The push under way comes to nothing.
  lemma DropPush(run: seq<State>, r: Rid) returns (run': seq<State>)
    requires Run(run) && Inv(Last(run)) && !Unlisted(Last(run).w) && r in Last(run).mem.live
    ensures GoesOn(run, run', r) && Last(run') == Last(run).(w := Last(run').w)
    ensures Last(run').w == WIdle || Last(run').w.WLoadConn?
    decreases if Last(run).w.WLoadWt? then 2 else if Last(run).w.WLoadRc? then 1 else 0
  {
    var m := Last(run).mem;
    match Last(run).w {
      case WCasRc(msg, _, _, _) => run' := WriterGoes(run, m, WLoadConn(msg), r);
      case WLoadRc(msg, cc, cur) =>
        var rc := At(m, cur).rc;
        if cc * rc.mask != {} && rc.ep == m.epoch {
          run' := WriterGoes(run, m, WIdle, r);
        } else {
          var tried := WriterGoes(run, m, WCasRc(msg, cc, cur, rc), r);
          run' := WriterGoes(tried, m, WLoadConn(msg), r);
        }
      case WLoadWt(msg, cc) =>
        var one := WriterGoes(run, m, WLoadRc(msg, cc, m.wt), r);
        RunInv(one, |one| - 1);
        run' := DropPush(one, r);
    }
  }

  lemma ListedLoses(run: seq<State>, r: Rid, c: nat) returns (run': seq<State>)
    requires Run(run) && Inv(Last(run)) && !Unlisted(Last(run).w) && r in Last(run).mem.live && r in Last(run).mem.pos
    requires Exposed(Last(run), r, c, Last(run).mem.wt) && Last(run).mem.wt < Last(run).mem.pos[r] + N
    ensures Loses(run, run', r)
  {
    var dropped := DropPush(run, r);
    RunInv(dropped, |dropped| - 1);
    assert ReceiverOk(Last(run).mem, r, Last(run).rcv[r]);
    if Last(dropped).w == WIdle {
      run' := IdleLoses(dropped, r, c);
    } else {
      run' := LoadConnLoses(dropped, r, c);
    }
    LosesEarlier(run, dropped, run', r);
  }

  // ---- the writer claims a slot without r

  // The writer may claim the slot of wt without r, and is not stopped after it.
  ghost predicate Overlooked(s: State, r: Rid) {
    var m := s.mem;
    && WellSized(m) && r in m.live && r in m.pos && r in m.got && r in s.rcv && s.rcv[r] == RIdle(m.pos[r])
    && m.size > 0 && m.pos[r] <= m.wt < m.pos[r] + N
    && !Unlisted(s.w) && m.live[r] !in s.w.cc && CanClaim(s)
    && !Blocked(m, m.live[r], m.wt + 1, m.pos[r] + N)
  }

  // After the claim r is exposed at wt.
  lemma ClaimExposes(s: State, s': State, r: Rid)
    requires Overlooked(s, r) && s.w.WCasRc?
    requires s' == State(Claim(s.mem, s.w.cc), WWrite(s.w.m, s.w.cur, {}), s.rcv)
    ensures SameForR(s, s', r) && Exposed(s', r, s.mem.wt, s.mem.wt + 1)
  {
    var m, b, wt := s.mem, s.mem.live[r], s.mem.wt;
    forall j: nat | wt + 1 <= j < m.pos[r] + N
      ensures !Names(s'.mem, j, b)
    {
      WithinARound(wt, j);
      assert !Names(m, j, b);
    }
  }

  lemma ClaimLoses(run: seq<State>, r: Rid) returns (run': seq<State>)
    requires Run(run) && Overlooked(Last(run), r) && Last(run).w.WCasRc?
    ensures Loses(run, run', r)
  {
    var s := Last(run);
    RunInv(run, |run| - 1);
    var claimed := WriterGoes(run, Claim(s.mem, s.w.cc), WWrite(s.w.m, s.w.cur, {}), r);
    ClaimExposes(s, Last(claimed), r);
    run' := ClaimedLoses(claimed, r);
    LosesEarlier(run, claimed, run', r);
  }

  lemma ClaimedLoses(run: seq<State>, r: Rid) returns (run': seq<State>)
    requires Run(run) && WellSized(Last(run).mem) && Last(run).w.WWrite? && r in Last(run).mem.live && r in Last(run).mem.pos
    requires Exposed(Last(run), r, Last(run).mem.wt, Last(run).mem.wt + 1) && Last(run).mem.wt < Last(run).mem.pos[r] + N
    ensures Loses(run, run', r)
  {
    RunInv(run, |run| - 1);
    run' := WritingLoses(run, r, Last(run).mem.wt);
  }

  // q has read on, and cleared nothing but its own bit.
  ghost predicate ReadOn(s: State, s': State, q: Rid) {
    var m, m' := s.mem, s'.mem;
    && WellSized(m) && WellSized(m') && s'.w == s.w
    && m'.size == m.size && m'.wt == m.wt && m'.log == m.log && m'.live == m.live && m'.conn == m.conn
    && q in m.live && q in m.pos && q in m'.pos && q in s.rcv && q in s'.rcv
    && s'.rcv == s.rcv[q := s'.rcv[q]] && m'.pos == m.pos[q := m'.pos[q]]
    && (forall p | p in m.got && p != q :: p in m'.got && m'.got[p] == m.got[p])
    && (forall k: nat | k < N :: m'.cells[k].rc.mask <= m.cells[k].rc.mask)
    && (forall k: nat, b | k < N && b in m.cells[k].rc.mask && b != m.live[q] :: b in m'.cells[k].rc.mask)
  }

  // One message further, with the own bit gone from its slot.
  ghost predicate ReadOne(s: State, s': State, q: Rid) {
    && ReadOn(s, s', q)
    && s'.mem.pos[q] == s.mem.pos[q] + 1 && s'.rcv[q] == RIdle(s.mem.pos[q] + 1)
    && !Names(s'.mem, s.mem.pos[q], s.mem.live[q])
  }

  lemma {:induction false} CopyRest(run: seq<State>, q: Rid, r: Rid) returns (run': seq<State>)
    requires Run(run) && WellSized(Last(run).mem) && r in Last(run).mem.live && q in Last(run).rcv
    requires Last(run).rcv[q].RCopy? && |Last(run).rcv[q].buff| == Last(run).mem.size
    ensures GoesOn(run, run', r) && q in Last(run').rcv && Last(run').rcv[q].RLoadRc?
    ensures Last(run').rcv[q].i == Last(run).rcv[q].i
    ensures Last(run') == Last(run).(rcv := Last(run).rcv[q := Last(run').rcv[q]])
    decreases Left(Last(run).rcv[q].done, Last(run).mem.size)
  {
    var m, pc := Last(run).mem, Last(run).rcv[q];
    if k: nat :| k < m.size && k !in pc.done {
      OneByteFewer(pc.done, m.size, k);
      var one := ReceiverGoes(run, q, m, RCopy(pc.i, pc.buff[k := At(m, pc.i).data[k]], pc.done + {k}), r);
      run' := CopyRest(one, q, r);
    } else {
      run' := ReceiverGoes(run, q, m, RLoadRc(pc.i, pc.buff), r);
    }
  }

  lemma FinishFromLoad(run: seq<State>, q: Rid, r: Rid) returns (run': seq<State>)
    requires Run(run) && WellSized(Last(run).mem) && r in Last(run).mem.live && q in Last(run).rcv
    requires q in Last(run).mem.live && q in Last(run).mem.pos && q in Last(run).mem.got
    requires Last(run).rcv[q].RLoadRc? && Last(run).rcv[q].i == Last(run).mem.pos[q]
    ensures GoesOn(run, run', r) && ReadOne(Last(run), Last(run'), q)
  {
    var m, i, buff := Last(run).mem, Last(run).rcv[q].i, Last(run).rcv[q].buff;
    var rc := At(m, i).rc;
    if rc.mask == {} {
      run' := ReceiverGoes(run, q, Finish(m, q, i, buff), RIdle(i + 1), r);
    } else {
      var loaded := ReceiverGoes(run, q, m, RCasRc(i, buff, rc), r);
      run' := ReceiverGoes(loaded, q, Finish(ClearBit(m, q, i), q, i, buff), RIdle(i + 1), r);
    }
    assert Last(run').rcv == Last(run).rcv[q := RIdle(i + 1)];
  }

  // q gets to the load of rc_ of the pop it is in, or of the next.
  lemma ReachLoad(run: seq<State>, q: Rid, r: Rid) returns (run': seq<State>)
    requires Run(run) && WellSized(Last(run).mem) && r in Last(run).mem.live && q in Last(run).rcv
    requires Sound(Last(run).mem) && ReceiverOk(Last(run).mem, q, Last(run).rcv[q])
    requires q in Last(run).mem.live && q in Last(run).mem.pos && Last(run).mem.pos[q] < Last(run).mem.wt
    ensures GoesOn(run, run', r) && q in Last(run').rcv && Last(run').rcv[q].RLoadRc?
    ensures Last(run').rcv[q].i == Last(run).mem.pos[q]
    ensures Last(run') == Last(run).(rcv := Last(run).rcv[q := Last(run').rcv[q]])
  {
    var m, pc := Last(run).mem, Last(run).rcv[q];
    if pc.RIdle? {
      var done: set<nat> := {};
      var started := ReceiverGoes(run, q, m, RCopy(pc.cur, At(m, pc.cur).data, done), r);
      run' := CopyRest(started, q, r);
    } else if pc.RCopy? {
      run' := CopyRest(run, q, r);
    } else if pc.RLoadRc? {
      run' := run;
    } else {
      run' := ReceiverGoes(run, q, m, RLoadRc(pc.i, pc.buff), r);
    }
    assert Last(run').rcv == Last(run).rcv[q := Last(run').rcv[q]];
  }

  // q finishes the pop it is in, or does a whole one.
  lemma ReadNext(run: seq<State>, q: Rid, r: Rid) returns (run': seq<State>)
    requires Run(run) && WellSized(Last(run).mem) && r in Last(run).mem.live
    requires q in Last(run).mem.live && q in Last(run).mem.pos && Last(run).mem.pos[q] < Last(run).mem.wt
    ensures GoesOn(run, run', r) && ReadOne(Last(run), Last(run'), q)
  {
    RunInv(run, |run| - 1);
    assert ReceiverOk(Last(run).mem, q, Last(run).rcv[q]);
    var loaded := ReachLoad(run, q, r);
    run' := FinishFromLoad(loaded, q, r);
    assert Last(run').rcv == Last(run).rcv[q := Last(run').rcv[q]];
  }

  lemma ReadOnTrans(a: State, b: State, c: State, q: Rid)
    requires ReadOn(a, b, q) && ReadOn(b, c, q)
    ensures ReadOn(a, c, q)
  {
  }

  /** q reads past the last message that the slot of wt held. */
  lemma {:induction false} ReadPast(run: seq<State>, q: Rid, r: Rid) returns (run': seq<State>)
    requires Run(run) && WellSized(Last(run).mem) && r in Last(run).mem.live
    requires q in Last(run).mem.live && q in Last(run).mem.pos && Last(run).mem.pos[q] + N <= Last(run).mem.wt
    ensures GoesOn(run, run', r) && ReadOn(Last(run), Last(run'), q)
    ensures !Names(Last(run').mem, Last(run).mem.wt, Last(run).mem.live[q])
    decreases Last(run).mem.wt - Last(run).mem.pos[q]
  {
    var one := ReadNext(run, q, r);
    if Last(run).mem.pos[q] + N == Last(run).mem.wt {
      run' := one;
      OneRoundOn(Last(run).mem.pos[q]);
    } else {
      run' := ReadPast(one, q, r);
      ReadOnTrans(Last(run), Last(one), Last(run'), q);
    }
  }

  // What r sees of q's reading on.
  lemma ReadOnForR(s: State, s': State, q: Rid, r: Rid)
    requires Inv(s) && ReadOn(s, s', q) && q != r && r in s.mem.live && r in s.mem.pos && r in s.rcv
    ensures SameForR(s, s', r) && forall j: nat :: Names(s'.mem, j, s.mem.live[r]) == Names(s.mem, j, s.mem.live[r])
  {
  }

  // One bit fewer, and the others can still be cleared.
  lemma StillClaimable(s: State, s': State, q: Rid)
    requires ReadOn(s, s', q) && !Names(s'.mem, s.mem.wt, s.mem.live[q])
    requires (s.w.WLoadWt? || s.w.WLoadRc?) && CanClaim(s)
    ensures CanClaim(s')
  {
    forall d | d in s'.w.cc && Names(s'.mem, s'.mem.wt, d)
      ensures exists p :: MayClear(s'.mem, p, d)
    {
      assert Names(s.mem, s.mem.wt, d);
      var p :| MayClear(s.mem, p, d);
      assert MayClear(s'.mem, p, d);
    }
  }

  lemma StillOverlooked(s: State, s': State, q: Rid, r: Rid)
    requires Inv(s) && Overlooked(s, r) && (s.w.WLoadWt? || s.w.WLoadRc?) && ReadOn(s, s', q) && q != r
    requires !Names(s'.mem, s.mem.wt, s.mem.live[q])
    ensures SameForR(s, s', r) && Overlooked(s', r)
  {
    StillClaimable(s, s', q);
    ReadOnForR(s, s', q, r);
    forall j: nat | s.mem.wt + 1 <= j < s.mem.pos[r] + N
      ensures !Names(s'.mem, j, s.mem.live[r])
    {
      assert !Names(s.mem, j, s.mem.live[r]);
    }
  }

  lemma OverlookedStays(run: seq<State>, s': State, q: Rid, r: Rid)
    requires Run(run) && Overlooked(Last(run), r) && (Last(run).w.WLoadWt? || Last(run).w.WLoadRc?)
    requires ReadOn(Last(run), s', q) && q != r && !Names(s'.mem, Last(run).mem.wt, Last(run).mem.live[q])
    ensures SameForR(Last(run), s', r) && Overlooked(s', r)
  {
    RunInv(run, |run| - 1);
    StillOverlooked(Last(run), s', q, r);
  }

  // One of those who have to reads past the slot of wt.
  lemma ClearOne(run: seq<State>, r: Rid) returns (run': seq<State>)
    requires Run(run) && Overlooked(Last(run), r) && (Last(run).w.WLoadWt? || Last(run).w.WLoadRc?)
    requires Last(run).w.cc * At(Last(run).mem, Last(run).mem.wt).rc.mask != {}
    ensures Cleared(run, run', r) && Overlooked(Last(run'), r)
    ensures |Last(run').w.cc * At(Last(run').mem, Last(run').mem.wt).rc.mask|
          < |Last(run).w.cc * At(Last(run).mem, Last(run).mem.wt).rc.mask|
  {
    var s := Last(run);
    var both := s.w.cc * At(s.mem, s.mem.wt).rc.mask;
    var d :| d in both;
    assert Names(s.mem, s.mem.wt, d);
    var q :| MayClear(s.mem, q, d);
    run' := ReadPast(run, q, r);
    OverlookedStays(run, Last(run'), q, r);
    Smaller(s.w.cc * At(Last(run').mem, s.mem.wt).rc.mask, both, d);
  }

  // Others have read on; the writer and r's bits are as they were.
  ghost predicate Cleared(run: seq<State>, run': seq<State>, r: Rid)
    requires run != []
  {
    && GoesOn(run, run', r) && SameForR(Last(run), Last(run'), r)
    && Last(run').w == Last(run).w && Last(run').mem.wt == Last(run).mem.wt
  }

  /** Everybody who has to reads past the slot of wt. */
  lemma {:induction false} ClearAll(run: seq<State>, r: Rid) returns (run': seq<State>)
    requires Run(run) && Overlooked(Last(run), r) && (Last(run).w.WLoadWt? || Last(run).w.WLoadRc?)
    ensures Cleared(run, run', r) && Overlooked(Last(run'), r)
    ensures Last(run').w.cc * At(Last(run').mem, Last(run').mem.wt).rc.mask == {}
    decreases |Last(run).w.cc * At(Last(run).mem, Last(run).mem.wt).rc.mask|
  {
    if Last(run).w.cc * At(Last(run).mem, Last(run).mem.wt).rc.mask == {} {
      run' := run;
    } else {
      var one := ClearOne(run, r);
      run' := ClearAll(one, r);
    }
  }

  lemma LoadingLoses(run: seq<State>, r: Rid) returns (run': seq<State>)
    requires Run(run) && Overlooked(Last(run), r) && (Last(run).w.WLoadWt? || Last(run).w.WLoadRc?)
    ensures Loses(run, run', r)
  {
    var clear := ClearAll(run, r);
    var tried := TestPasses(clear, r);
    run' := ClaimLoses(tried, r);
    LosesEarlier(clear, tried, run', r);
    LosesEarlier(run, clear, run', r);
  }

  // The writer finds the slot free.
  lemma TestPasses(run: seq<State>, r: Rid) returns (run': seq<State>)
    requires Run(run) && Overlooked(Last(run), r) && (Last(run).w.WLoadWt? || Last(run).w.WLoadRc?)
    requires Last(run).w.cc * At(Last(run).mem, Last(run).mem.wt).rc.mask == {}
    ensures GoesOn(run, run', r) && Last(run') == Last(run).(w := Last(run').w)
    ensures Last(run').w.WCasRc? && Overlooked(Last(run'), r)
  {
    RunInv(run, |run| - 1);
    var m := Last(run).mem;
    match Last(run).w {
      case WLoadRc(msg, cc, cur) => run' := WriterGoes(run, m, WCasRc(msg, cc, cur, At(m, cur).rc), r);
      case WLoadWt(msg, cc) =>
        var one := WriterGoes(run, m, WLoadRc(msg, cc, m.wt), r);
        run' := WriterGoes(one, m, WCasRc(msg, cc, m.wt, At(m, m.wt).rc), r);
    }
  }

  lemma Smaller(a: set<nat>, b: set<nat>, d: nat)
    requires a <= b - {d} && d in b
    ensures |a| < |b|
  {
    assert |b - {d}| == |b| - 1;
    assert b - {d} == a + (b - {d} - a);
  }

  // ---------------------------------------------------------------- in one

  lemma ExposedLoses(run: seq<State>, r: Rid, c: nat) returns (run': seq<State>)
    requires Run(run) && Inv(Last(run)) && r in Last(run).mem.live && r in Last(run).mem.pos
    requires Exposed(Last(run), r, c, Unclaimed(Last(run))) && NotLapped(Last(run), r)
    ensures Loses(run, run', r)
  {
    match Last(run).w {
      case WIdle => run' := IdleLoses(run, r, c);
      case WLoadConn(_) => run' := LoadConnLoses(run, r, c);
      case WWrite(_, _, _) => run' := WritingLoses(run, r, c);
      case _ => run' := ListedLoses(run, r, c);
    }
  }

  // The writer has not come round to r's next slot, and is not about to with a
  // message that has been chosen already.
  ghost predicate NotLapped(s: State, r: Rid)
    requires r in s.mem.pos
  {
    if s.w == WIdle then s.mem.wt <= s.mem.pos[r] + N else s.mem.wt < s.mem.pos[r] + N
  }

  lemma InsecureLoses(run: seq<State>, r: Rid) returns (run': seq<State>)
    requires Run(run) && Inv(Last(run)) && r in Last(run).mem.live && r in Last(run).mem.pos && r in Last(run).rcv
    requires Last(run).rcv[r] == RIdle(Last(run).mem.pos[r]) && Last(run).mem.size > 0 && NotLapped(Last(run), r)
    requires !Secure(Last(run), r)
    ensures Loses(run, run', r)
  {
    var s := Last(run);
    if !NamedOrBlocked(s, r, Unclaimed(s)) {
      var c: nat :| s.mem.pos[r] <= c < Unclaimed(s) && !Names(s.mem, c, s.mem.live[r]);
      run' := ExposedLoses(run, r, c);
    } else {
      assert ReceiverOk(s.mem, r, s.rcv[r]);
      assert Overlooked(s, r);
      if s.w.WCasRc? {
        run' := ClaimLoses(run, r);
      } else {
        run' := LoadingLoses(run, r);
      }
    }
  }

  /** The exact condition.  A connected receiver between two pops that has not been
      lapped is given, for as long as it stays connected and whatever the others
      do, exactly the messages from its cursor on, if and only if it is secure. */
  lemma SureIff(run: seq<State>, r: Rid)
    requires Run(run) && r in Last(run).rcv && Last(run).rcv[r].RIdle?
    requires r in Last(run).mem.pos && NotLapped(Last(run), r) && Last(run).mem.size > 0
    ensures WellSized(Last(run).mem) && r in Last(run).mem.live
    ensures Sure(run, r) <==> Secure(Last(run), r)
  {
    RunInv(run, |run| - 1);
    assert ReceiverOk(Last(run).mem, r, Last(run).rcv[r]);
    if Secure(Last(run), r) {
      SecureIsSafe(Last(run), r);
      forall run' | Continues(run, run', r)
        ensures GivenExactly(Last(run), Last(run'), r)
      {
        assert run'[|run| - 1] == Last(run);
        SafeReadsOn(run', |run| - 1, |run'| - 1, r);
      }
    } else {
      var run' := InsecureLoses(run, r);
    }
  }

  /** For a receiver that has just joined, its cursor at the write index: it is sure
      unless the writer is at a slot, or may yet claim one, without its bit, and no
      slot that comes after it in the round holds that bit. */
  lemma JoinIsSureIff(run: seq<State>, r: Rid)
    requires Run(run) && r in Last(run).rcv && Last(run).rcv[r] == RIdle(Last(run).mem.wt) && Last(run).mem.size > 0
    ensures WellSized(Last(run).mem) && r in Last(run).mem.live
    ensures var s := Last(run); var m, b := s.mem, s.mem.live[r];
            Sure(run, r) <==>
              match s.w
              case WIdle => true
              case WLoadConn(_) => true
              case WWrite(_, _, _) => Names(m, m.wt, b) || Blocked(m, b, m.wt + 1, m.wt + N)
              case _ => b in s.w.cc || !CanClaim(s) || Blocked(m, b, m.wt + 1, m.wt + N)
  {
    RunInv(run, |run| - 1);
    var s := Last(run);
    assert ReceiverOk(s.mem, r, s.rcv[r]);
    SureIff(run, r);
    if s.w.WWrite? {
      assert forall c: nat | s.mem.wt <= c < s.mem.wt + 1 :: Names(s.mem, c, s.mem.live[r]) == Names(s.mem, s.mem.wt, s.mem.live[r]);
    }
  }

  /** At the publication of the message at its cursor: if and only if some slot's
      mask holds its bit, the slot of that message or any other. */
  lemma PublishedIsSureIff(run: seq<State>, r: Rid, i: nat)
    requires Run(run) && Last(run).w == WIdle && Last(run).mem.wt == i + 1 && Last(run).mem.size > 0
    requires r in Last(run).rcv && Last(run).rcv[r] == RIdle(i)
    ensures WellSized(Last(run).mem) && r in Last(run).mem.live
    ensures Sure(run, r) <==> exists k: nat :: k < N && Last(run).mem.live[r] in Last(run).mem.cells[k].rc.mask
  {
    RunInv(run, |run| - 1);
    var m := Last(run).mem;
    assert ReceiverOk(m, r, Last(run).rcv[r]);
    var b := m.live[r];
    SureIff(run, r);
    if Secure(Last(run), r) {
      if Names(m, i, b) {
        assert b in m.cells[Slot(i)].rc.mask;
      } else {
        var j: nat :| i + 1 <= j < i + N && Names(m, j, b);
        assert b in m.cells[Slot(j)].rc.mask;
      }
    }
    if k: nat :| k < N && b in m.cells[k].rc.mask {
      var j := InWindow(i, k);
      assert Names(m, j, b);
    }
  }

  // Each slot has one index in a round.
  lemma InWindow(i: nat, k: nat) returns (j: nat)
    requires k < N
    ensures i <= j < i + N && Slot(j) == k
  {
    j := if Slot(i) <= k then i + (k - Slot(i)) else i + N - (Slot(i) - k);
  }
}
