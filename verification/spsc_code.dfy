/** push and pop of the one-producer, one-consumer ring as code over the wrapping
    counters and the slots, with the other side running before every access.
    Only the producer lengthens `pushed` and only the consumer lengthens
    `popped`, so both contracts are exact whatever the other side does. */
module SpscCode {
  import opened Basics
  import opened Ring
  import opened SpscRing
  import Runs

  ghost predicate Reachable(s: State, origin: nat) {
    Runs.Reachable(s, Begins(origin), Next)
  }

  lemma ReachableInv(s: State, origin: nat)
    requires Reachable(s, origin)
    ensures Inv(s, origin)
  {
    var run := Runs.Witness(s, Begins(origin), Next);
    RunInv(run, origin, |run| - 1);
  }

  lemma ReachableSized(s: State, origin: nat)
    requires Reachable(s, origin)
    ensures WellSized(s.mem)
  {
    ReachableInv(s, origin);
  }

  // What the two index tests find out.
  lemma IndicesTell(s: State, origin: nat)
    requires Reachable(s, origin)
    ensures var m := s.mem;
            && WellSized(m) && |m.popped| <= |m.pushed| < |m.popped| + N
            && (s.w.WLoadRd? ==> (s.w.slot == Slot(Dec(m.rd)) <==> |m.pushed| == |m.popped| + N - 1))
            && (s.r.RLoadWt? ==> (s.r.slot == Slot(m.wt) <==> |m.pushed| == |m.popped|))
  {
    ReachableInv(s, origin);
    var c, p := origin + |s.mem.popped|, origin + |s.mem.pushed|;
    WrapKeepsTheSlot(c);
    WrapKeepsTheSlot(p);
    SameSlot(p, c + N - 1);
    SameSlot(c, p);
  }

  lemma ReachableStep(s: State, s': State, origin: nat)
    requires Reachable(s, origin) && Next(s, s')
    ensures Reachable(s', origin)
  {
    Runs.ReachableStep(s, s', Begins(origin), Next);
  }

  // What the producer sees of the consumer's steps, and the other way round.
  ghost predicate ConsumerRan(s: State, s': State) {
    && s'.w == s.w && s'.mem.size == s.mem.size && s'.mem.pushed == s.mem.pushed
    && s.mem.popped <= s'.mem.popped
  }

  ghost predicate ProducerRan(s: State, s': State) {
    && s'.r == s.r && s'.mem.size == s.mem.size && s'.mem.popped == s.mem.popped
    && s.mem.pushed <= s'.mem.pushed
  }

  ghost predicate PopStep(s: State, s': State) {
    WellSized(s.mem) && Pop(s.mem, s'.mem, s.r, s'.r) && s'.w == s.w
  }

  ghost predicate PushStep(s: State, s': State) {
    WellSized(s.mem) && Push(s.mem, s'.mem, s.w, s'.w) && s'.r == s.r
  }

  /** Any sequence of the consumer's steps keeps to the contract of
      Queue.LetConsumerRun. */
  lemma {:induction false} PopStepsKeepTheContract(path: seq<State>, origin: nat, n: nat)
    requires n < |path| && Reachable(path[0], origin)
    requires forall i | 0 < i < |path| :: PopStep(path[i - 1], path[i])
    ensures Reachable(path[n], origin) && ConsumerRan(path[0], path[n])
  {
    if n > 0 {
      PopStepsKeepTheContract(path, origin, n - 1);
      assert PopStep(path[n - 1], path[n]);
      ReachableStep(path[n - 1], path[n], origin);
    }
  }

  lemma {:induction false} PushStepsKeepTheContract(path: seq<State>, origin: nat, n: nat)
    requires n < |path| && Reachable(path[0], origin)
    requires forall i | 0 < i < |path| :: PushStep(path[i - 1], path[i])
    ensures Reachable(path[n], origin) && ProducerRan(path[0], path[n])
  {
    if n > 0 {
      PushStepsKeepTheContract(path, origin, n - 1);
      assert PushStep(path[n - 1], path[n]);
      ReachableStep(path[n - 1], path[n], origin);
    }
  }

  ghost function Fresh(size: nat, start: nat, c: Msg): State {
    State(Mem(size, start, start, seq(N, _ => c), [], []), WIdle, RIdle)
  }

  lemma FreshIsReachable(size: nat, start: nat, c: Msg)
    requires start < WORD && |c| == size
    ensures Reachable(Fresh(size, start, c), start)
  {
    var s := Fresh(size, start, c);
    assert Init(s, start);
    Runs.ReachableStart(s, Begins(start), Next);
  }

  class Queue {
    var rd: nat
    var wt: nat
    const elems: array<Msg>
    ghost const origin: nat
    ghost var st: State

    /** An empty ring for messages of the given size, with both counters at any
        common value. */
    constructor (size: nat, start: nat)
      requires start < WORD
      ensures Valid() && st.w == WIdle && st.r == RIdle && rd == wt == start
      ensures st.mem.size == size && st.mem.pushed == [] && st.mem.popped == []
    {
      var c: Msg := seq(size, _ => 0);
      elems := new Msg[N](_ => c);
      rd, wt, origin := start, start, start;
      st := Fresh(size, start, c);
      new;
      FreshIsReachable(size, start, c);
      assert elems[..] == st.mem.cells;
    }

    ghost predicate Valid()
      reads this, elems
    {
      && Reachable(st, origin) && elems.Length == N
      && st.mem.rd == rd && st.mem.wt == wt && st.mem.cells == elems[..]
    }

    /** Before an access of the producer, the consumer takes any number of steps. */
    method LetConsumerRun()
      requires Valid()
      modifies this, elems
      ensures Valid() && ConsumerRan(old(st), st)
    {
    }

    method LetProducerRun()
      requires Valid()
      modifies this, elems
      ensures Valid() && ProducerRan(old(st), st)
    {
    }

    ghost method Pushes(m': Mem, w': WPc)
      requires Reachable(st, origin) && WellSized(st.mem) && Push(st.mem, m', st.w, w')
      modifies `st
      ensures st == State(m', w', old(st.r)) && Reachable(st, origin)
    {
      var s' := State(m', w', st.r);
      ReachableStep(st, s', origin);
      st := s';
    }

    ghost method Pops(m': Mem, r': RPc)
      requires Reachable(st, origin) && WellSized(st.mem) && Pop(st.mem, m', st.r, r')
      modifies `st
      ensures st == State(m', old(st.w), r') && Reachable(st, origin)
    {
      var s' := State(m', st.w, r');
      ReachableStep(st, s', origin);
      st := s';
    }

    // -------------------------------------------------------------- push

    /** The two loads of push: the slot, and whether the ring is full. */
    method SeeRoom(m: Msg) returns (full: bool, slot: nat)
      requires Valid() && st.w == WLoadWt(m)
      modifies this, elems
      ensures Valid() && st.w == (if full then WIdle else WWrite(m, slot, {})) && slot < N
      ensures ConsumerRan(old(st).(w := st.w), st)
      ensures full ==> |old(st.mem.pushed)| == |old(st.mem.popped)| + N - 1
      ensures !full ==> |st.mem.pushed| < |st.mem.popped| + N - 1
    {
      IndicesTell(st, origin);
      LetConsumerRun();
      ReachableSized(st, origin);
      slot := Slot(wt);
      Pushes(st.mem, WLoadRd(m, slot));
      LetConsumerRun();
      IndicesTell(st, origin);
      full := slot == Slot(Dec(rd));
      Pushes(st.mem, if full then WIdle else WWrite(m, slot, {}));
    }

    method WriteOne(m: Msg, slot: nat, ghost done: set<nat>, k: nat)
      requires Valid() && st.w == WWrite(m, slot, done) && slot < N && k < |m| == st.mem.size && k !in done
      modifies this, elems
      ensures Valid() && st.w == WWrite(m, slot, done + {k}) && ConsumerRan(old(st).(w := st.w), st)
    {
      LetConsumerRun();
      ReachableSized(st, origin);
      var block := elems[slot][k := m[k]];
      Pushes(st.mem.(cells := st.mem.cells[slot := block]), WWrite(m, slot, done + {k}));
      elems[slot] := block;
    }

    /** The callback writes the message into the slot. */
    method WriteBlock(m: Msg, slot: nat)
      requires Valid() && st.w == WWrite(m, slot, {}) && slot < N && |m| == st.mem.size
      modifies this, elems
      ensures Valid() && st.w.WWrite? && st.w == WWrite(m, slot, st.w.done) && Whole(st.w.done, st.mem.size)
      ensures ConsumerRan(old(st).(w := st.w), st)
    {
      var k := 0;
      ghost var done: set<nat> := {};
      while k < |m|
        invariant 0 <= k <= |m| == st.mem.size
        invariant Valid() && st.w == WWrite(m, slot, done)
        invariant forall j: nat :: j in done <==> j < k
        invariant ConsumerRan(old(st).(w := st.w), st)
      {
        WriteOne(m, slot, done, k);
        done := done + {k};
        k := k + 1;
      }
    }

    /** push.  It appends exactly when it returns true, and is refused exactly
        when the ring is full as it begins and the consumer takes nothing. */
    method PushMsg(m: Msg) returns (ok: bool)
      requires Valid() && st.w == WIdle && |m| == st.mem.size
      modifies this, elems
      ensures Valid() && st.w == WIdle
      ensures st.mem.pushed == old(st.mem.pushed) + (if ok then [m] else [])
      ensures old(st.mem.popped) <= st.mem.popped
      ensures !ok ==> |old(st.mem.pushed)| == |old(st.mem.popped)| + N - 1
      ensures ok ==> |old(st.mem.pushed)| < |st.mem.popped| + N - 1
    {
      ReachableSized(st, origin);
      Pushes(st.mem, WLoadWt(m));
      var full, slot := SeeRoom(m);
      ok := !full;
      if ok {
        WriteBlock(m, slot);
        LetConsumerRun();
        ReachableSized(st, origin);
        Pushes(st.mem.(wt := Inc(st.mem.wt), pushed := st.mem.pushed + [m]), WIdle);
        wt := Inc(wt);
      }
    }

    // -------------------------------------------------------------- pop

    method SeeMessage(junk: Msg) returns (empty: bool, slot: nat)
      requires Valid() && st.r == RLoadRd && |junk| == st.mem.size
      modifies this, elems
      ensures Valid() && st.r == (if empty then RIdle else RCopy(slot, junk, {})) && slot < N
      ensures ProducerRan(old(st).(r := st.r), st)
      ensures empty ==> |old(st.mem.pushed)| == |old(st.mem.popped)|
      ensures !empty ==> |st.mem.popped| < |st.mem.pushed|
    {
      IndicesTell(st, origin);
      LetProducerRun();
      ReachableSized(st, origin);
      slot := Slot(rd);
      Pops(st.mem, RLoadWt(slot));
      LetProducerRun();
      IndicesTell(st, origin);
      empty := slot == Slot(wt);
      Pops(st.mem, if empty then RIdle else RCopy(slot, junk, {}));
    }

    method ReadOne(buff: Msg, slot: nat, ghost done: set<nat>, k: nat) returns (b: Byte)
      requires Valid() && st.r == RCopy(slot, buff, done) && slot < N && k < |buff| == st.mem.size && k !in done
      modifies this, elems
      ensures Valid() && st.r == RCopy(slot, buff[k := b], done + {k}) && ProducerRan(old(st).(r := st.r), st)
    {
      LetProducerRun();
      ReachableSized(st, origin);
      b := elems[slot][k];
      Pops(st.mem, RCopy(slot, buff[k := b], done + {k}));
    }

    method CopyBlock(junk: Msg, slot: nat) returns (buff: Msg)
      requires Valid() && st.r == RCopy(slot, junk, {}) && slot < N && |junk| == st.mem.size
      modifies this, elems
      ensures Valid() && st.r.RCopy? && st.r == RCopy(slot, buff, st.r.done) && Whole(st.r.done, st.mem.size)
      ensures ProducerRan(old(st).(r := st.r), st)
    {
      buff := junk;
      var k := 0;
      ghost var done: set<nat> := {};
      while k < |buff|
        invariant 0 <= k <= |buff| == st.mem.size
        invariant Valid() && st.r == RCopy(slot, buff, done)
        invariant forall j: nat :: j in done <==> j < k
        invariant ProducerRan(old(st).(r := st.r), st)
      {
        var b := ReadOne(buff, slot, done, k);
        buff := buff[k := b];
        done := done + {k};
        k := k + 1;
      }
    }

    /** pop.  It hands out the oldest message, byte for byte, exactly when it
        returns true; it finds nothing exactly when the queue is empty as it
        begins and the producer publishes nothing. */
    method PopMsg(junk: Msg) returns (ok: bool, buff: Msg)
      requires Valid() && st.r == RIdle && |junk| == st.mem.size
      modifies this, elems
      ensures Valid() && st.r == RIdle
      ensures st.mem.popped == old(st.mem.popped) + (if ok then [buff] else [])
      ensures old(st.mem.pushed) <= st.mem.pushed
      ensures ok ==> |old(st.mem.popped)| < |st.mem.pushed| && buff == st.mem.pushed[|old(st.mem.popped)|]
      ensures !ok ==> |old(st.mem.popped)| == |old(st.mem.pushed)|
    {
      ReachableSized(st, origin);
      Pops(st.mem, RLoadRd);
      var empty, slot := SeeMessage(junk);
      ok, buff := !empty, junk;
      if ok {
        buff := CopyBlock(junk, slot);
        LetProducerRun();
        TakeCopy(slot, buff);
      }
    }

    // The step that hands the block out.
    method TakeCopy(slot: nat, buff: Msg)
      requires Valid() && st.r.RCopy? && st.r == RCopy(slot, buff, st.r.done) && Whole(st.r.done, st.mem.size)
      modifies this
      ensures Valid() && st.r == RIdle && st.mem.pushed == old(st.mem.pushed)
      ensures st.mem.popped == old(st.mem.popped) + [buff]
      ensures |old(st.mem.popped)| < |st.mem.pushed| && buff == st.mem.pushed[|old(st.mem.popped)|]
    {
      ReachableInv(st, origin);
      WholeCopyIsEqual(buff, st.mem.pushed[|st.mem.popped|], st.r.done);
      Pops(st.mem.(rd := Inc(st.mem.rd), popped := st.mem.popped + [buff]), RIdle);
      rd := Inc(rd);
    }
  }
}
