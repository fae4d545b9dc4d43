/** push and pop of the one-producer, many-consumer unicast ring as code over the
    shared fields, with the other threads running before every access.  A retry
    is paid for by somebody else's step or by a spurious failure, of which
    finitely many happen while a call runs. */
module SingleMultiUnicastCode {
  import opened Ring
  import opened SingleMultiUnicast
  import Runs

  ghost predicate Reachable(s: State) {
    Runs.Reachable(s, Init, Next)
  }

  lemma ReachableInv(s: State)
    requires Reachable(s)
    ensures Inv(s)
  {
    var run := Runs.Witness(s, Init, Next);
    RunInv(run, |run| - 1);
  }

  lemma ReachableSized(s: State)
    requires Reachable(s)
    ensures WellSized(s.mem)
  {
    ReachableInv(s);
  }

  // What the two index tests find out.
  lemma IndicesTell(s: State)
    requires Reachable(s)
    ensures WellSized(s.mem) && s.mem.rd <= s.mem.wt < s.mem.rd + N
    ensures Slot(s.mem.wt) == Slot(s.mem.rd + N - 1) <==> s.mem.wt == s.mem.rd + N - 1
    ensures Slot(s.mem.rd) == Slot(s.mem.wt) <==> s.mem.rd == s.mem.wt
  {
    ReachableInv(s);
  }

  lemma ReachableStep(s: State, s': State)
    requires Reachable(s) && Next(s, s')
    ensures Reachable(s')
  {
    assert Next(s, s');
    Runs.ReachableStep(s, s', Init, Next);
  }

  /** What the consumers do, as the producer sees it. */
  ghost predicate ConsumersRan(m: Mem, m': Mem) {
    m'.size == m.size && m'.wt == m.wt && m'.log == m.log && m.rd <= m'.rd
  }

  /** What all the others do, as one consumer sees it. */
  ghost predicate OthersRan(m: Mem, m': Mem) {
    m'.size == m.size && m.wt <= m'.wt && m.log <= m'.log && m.rd <= m'.rd
  }

  ghost predicate ConsumersStep(s: State, s': State) {
    WellSized(s.mem) && exists t :: ConsumerStep(s, s', t)
  }

  ghost predicate StepNotBy(s: State, s': State, t: Tid) {
    WellSized(s.mem) && (WriterStep(s, s') || exists u :: u != t && ConsumerStep(s, s', u))
  }

  /** Any sequence of consumers' steps keeps to the contract of
      Queue.LetConsumersRun. */
  lemma {:induction false} ConsumersKeepTheContract(path: seq<State>, n: nat)
    requires n < |path| && Reachable(path[0])
    requires forall i | 0 < i < |path| :: ConsumersStep(path[i - 1], path[i])
    ensures Reachable(path[n]) && path[n].w == path[0].w && ConsumersRan(path[0].mem, path[n].mem)
  {
    if n > 0 {
      ConsumersKeepTheContract(path, n - 1);
      var s, s' := path[n - 1], path[n];
      assert ConsumersStep(s, s');
      ReachableStep(s, s');
      var t :| ConsumerStep(s, s', t);
    }
  }

  /** Any sequence of steps not by `t` keeps to the contract of
      Queue.LetOthersRun. */
  lemma {:induction false} OthersKeepTheContract(path: seq<State>, t: Tid, n: nat)
    requires n < |path| && Reachable(path[0]) && t in path[0].thr
    requires forall i | 0 < i < |path| :: StepNotBy(path[i - 1], path[i], t)
    ensures var s, s' := path[0], path[n];
            Reachable(s') && t in s'.thr && s'.thr[t] == s.thr[t] && OthersRan(s.mem, s'.mem)
  {
    if n > 0 {
      OthersKeepTheContract(path, t, n - 1);
      var s, s' := path[n - 1], path[n];
      assert StepNotBy(s, s', t);
      ReachableStep(s, s');
      if !WriterStep(s, s') {
        var u :| u != t && ConsumerStep(s, s', u);
      }
    }
  }

  ghost function Fresh(size: nat, c: Msg, consumers: set<Tid>): State {
    State(Mem(size, 0, 0, seq(N, _ => c), [], []), WIdle, map t | t in consumers :: CIdle)
  }

  lemma FreshIsReachable(size: nat, c: Msg, consumers: set<Tid>)
    requires |c| == size
    ensures Reachable(Fresh(size, c, consumers))
  {
    var s := Fresh(size, c, consumers);
    assert Init(s);
    Runs.ReachableStart(s, Init, Next);
  }

  class Queue {
    var rd: nat
    var wt: nat
    const elems: array<Msg>
    ghost var st: State
    // Steps that the other threads still take, and failures that still happen.
    ghost var credit: nat
    // How often the consumer whose call this is has moved rd.
    ghost var takes: nat

    /** An empty ring for messages of the given size and these consumers. */
    constructor (size: nat, ghost consumers: set<Tid>)
      ensures Valid() && st.w == WIdle && st.mem.size == size && st.mem.log == []
      ensures forall t | t in consumers :: At(t, CIdle)
    {
      var c: Msg := seq(size, _ => 0);
      elems := new Msg[N](_ => c);
      rd, wt := 0, 0;
      st := Fresh(size, c, consumers);
      credit, takes := *, 0;
      new;
      FreshIsReachable(size, c, consumers);
      assert elems[..] == st.mem.cells;
    }

    ghost predicate Valid()
      reads this, elems
    {
      && Reachable(st) && elems.Length == N
      && st.mem.rd == rd && st.mem.wt == wt && st.mem.cells == elems[..]
    }

    ghost predicate At(t: Tid, pc: CPc)
      reads this
    {
      t in st.thr && st.thr[t] == pc
    }

    // What a consumer's access does: nothing is taken back, and its own takes.
    twostate predicate Did(took: nat)
      reads this
    {
      OthersRan(old(st.mem), st.mem) && takes == old(takes) + took && credit <= old(credit)
    }

    /** Before an access of the producer, the consumers take any number of steps. */
    method LetConsumersRun()
      requires Valid()
      modifies this, elems
      ensures Valid() && st.w == old(st.w) && ConsumersRan(old(st.mem), st.mem)
    {
    }

    /** Before an access of consumer t, the others take any number of steps. */
    method LetOthersRun(t: Tid)
      requires Valid() && t in st.thr
      modifies this, elems
      ensures Valid() && At(t, old(st.thr[t])) && Did(0)
      ensures credit == old(credit) ==> st.mem == old(st.mem)
    {
    }

    // Whether a weak compare-and-swap fails for no reason.
    method Spurious() returns (b: bool)
      modifies `credit
      ensures credit <= old(credit) && (b ==> credit < old(credit))
    {
      b := false;
    }

    ghost method Writes(m': Mem, w': WPc)
      requires Reachable(st) && WellSized(st.mem) && Push(st.mem, m', st.w, w')
      modifies `st
      ensures st == State(m', w', old(st.thr)) && Reachable(st)
    {
      var s' := State(m', w', st.thr);
      assert WriterStep(st, s');
      ReachableStep(st, s');
      st := s';
    }

    ghost method Takes(t: Tid, m': Mem, pc': CPc)
      requires Reachable(st) && WellSized(st.mem) && t in st.thr && Pop(st.mem, m', st.thr[t], pc')
      modifies `st, `takes
      ensures st == State(m', old(st.w), old(st.thr)[t := pc']) && Reachable(st)
      ensures takes == if m'.rd == old(st.mem.rd) then old(takes) else old(takes) + 1
    {
      var s' := State(m', st.w, st.thr[t := pc']);
      assert ConsumerStep(st, s', t);
      ReachableStep(st, s');
      takes := if m'.rd == st.mem.rd then takes else takes + 1;
      st := s';
    }

    // -------------------------------------------------------------- push

    /** The two loads of push. */
    method SeeRoom(m: Msg) returns (full: bool, cur: nat)
      requires Valid() && st.w == WLoadWt(m)
      modifies this, elems
      ensures Valid() && st.w == (if full then WIdle else WWrite(m, cur, {})) && cur == wt
      ensures ConsumersRan(old(st.mem), st.mem)
      ensures full ==> old(wt) == old(rd) + N - 1
      ensures !full ==> wt < rd + N - 1
    {
      IndicesTell(st);
      LetConsumersRun();
      ReachableSized(st);
      cur := wt;
      Writes(st.mem, WLoadRd(m, cur));
      LetConsumersRun();
      IndicesTell(st);
      full := Slot(cur) == Slot(rd + N - 1);
      Writes(st.mem, if full then WIdle else WWrite(m, cur, {}));
    }

    method WriteOne(m: Msg, cur: nat, ghost done: set<nat>, k: nat)
      requires Valid() && st.w == WWrite(m, cur, done) && k < |m| == st.mem.size && k !in done
      modifies this, elems
      ensures Valid() && st.w == WWrite(m, cur, done + {k}) && ConsumersRan(old(st.mem), st.mem)
    {
      LetConsumersRun();
      ReachableSized(st);
      var block := elems[Slot(cur)][k := m[k]];
      Writes(WriteByte(st.mem, cur, k, m[k]), WWrite(m, cur, done + {k}));
      elems[Slot(cur)] := block;
    }

    method WriteBlock(m: Msg, cur: nat)
      requires Valid() && st.w == WWrite(m, cur, {}) && |m| == st.mem.size
      modifies this, elems
      ensures Valid() && st.w.WWrite? && st.w == WWrite(m, cur, st.w.done) && Whole(st.w.done, st.mem.size)
      ensures ConsumersRan(old(st.mem), st.mem)
    {
      var k := 0;
      ghost var done: set<nat> := {};
      while k < |m|
        invariant 0 <= k <= |m| == st.mem.size
        invariant Valid() && st.w == WWrite(m, cur, done)
        invariant forall j: nat :: j in done <==> j < k
        invariant ConsumersRan(old(st.mem), st.mem)
      {
        WriteOne(m, cur, done, k);
        done := done + {k};
        k := k + 1;
      }
    }

    /** push.  It appends exactly when it returns true; it is refused only if the
        ring was full when it began. */
    method PushMsg(m: Msg) returns (ok: bool)
      requires Valid() && st.w == WIdle && |m| == st.mem.size
      modifies this, elems
      ensures Valid() && st.w == WIdle
      ensures st.mem.log == old(st.mem.log) + (if ok then [m] else [])
      ensures if ok then old(wt) < rd + N - 1 else old(wt) == old(rd) + N - 1
    {
      ReachableSized(st);
      Writes(st.mem, WLoadWt(m));
      var full, cur := SeeRoom(m);
      ok := !full;
      if ok {
        WriteBlock(m, cur);
        LetConsumersRun();
        ReachableSized(st);
        Writes(Publish(st.mem, m), WIdle);
        wt := wt + 1;
      }
    }

    // -------------------------------------------------------------- pop

    /** The two loads a round of pop starts with. */
    method SeeMessage(t: Tid, junk: Msg) returns (empty: bool, cur: nat)
      requires Valid() && At(t, CLoadRd) && |junk| == st.mem.size
      modifies this, elems
      ensures Valid() && At(t, if empty then CIdle else CCopy(cur, junk, {})) && Did(0)
      ensures old(rd) <= cur && (credit == old(credit) ==> cur == rd == old(rd) && wt == old(wt))
      ensures cur <= rd && (empty ==> Slot(cur) == Slot(wt) && (cur == rd ==> rd == wt))
    {
      LetOthersRun(t);
      ReachableSized(st);
      cur := rd;
      Takes(t, st.mem, CLoadWt(cur));
      LetOthersRun(t);
      IndicesTell(st);
      empty := Slot(cur) == Slot(wt);
      Takes(t, st.mem, if empty then CIdle else CCopy(cur, junk, {}));
    }

    method ReadOne(t: Tid, cur: nat, buff: Msg, ghost done: set<nat>, k: nat) returns (b: Byte)
      requires Valid() && At(t, CCopy(cur, buff, done)) && k < |buff| == st.mem.size && k !in done
      modifies this, elems
      ensures Valid() && At(t, CCopy(cur, buff[k := b], done + {k})) && Did(0)
      ensures credit == old(credit) ==> rd == old(rd)
    {
      LetOthersRun(t);
      ReachableSized(st);
      b := elems[Slot(cur)][k];
      Takes(t, st.mem, CCopy(cur, buff[k := b], done + {k}));
    }

    method CopyBlock(t: Tid, cur: nat, junk: Msg) returns (buff: Msg)
      requires Valid() && At(t, CCopy(cur, junk, {})) && |junk| == st.mem.size
      modifies this, elems
      ensures Valid() && t in st.thr && st.thr[t].CCopy? && st.thr[t] == CCopy(cur, buff, st.thr[t].done)
      ensures Whole(st.thr[t].done, st.mem.size) && Did(0)
      ensures credit == old(credit) ==> rd == old(rd)
    {
      buff := junk;
      var k := 0;
      ghost var done: set<nat> := {};
      while k < |buff|
        invariant 0 <= k <= |buff| == st.mem.size
        invariant Valid() && At(t, CCopy(cur, buff, done)) && Did(0)
        invariant forall j: nat :: j in done <==> j < k
        invariant credit == old(credit) ==> rd == old(rd)
      {
        var b := ReadOne(t, cur, buff, done, k);
        buff := buff[k := b];
        done := done + {k};
        k := k + 1;
      }
    }

    method CasRd(t: Tid, cur: nat, buff: Msg) returns (ok: bool)
      requires Valid() && t in st.thr && st.thr[t].CCopy? && st.thr[t] == CCopy(cur, buff, st.thr[t].done)
      requires Whole(st.thr[t].done, st.mem.size)
      modifies this, elems
      ensures Valid() && At(t, if ok then CIdle else CLoadRd) && Did(if ok then 1 else 0)
      ensures ok ==> cur < rd && cur < |st.mem.log| && buff == st.mem.log[cur]
      ensures credit == old(credit) && old(rd) == cur ==> ok
    {
      LetOthersRun(t);
      ReachableInv(st);
      assert ConsumerOk(st.mem, st.thr[t]);
      var fails := Spurious();
      ok := rd == cur && !fails;
      if ok {
        WholeCopyIsEqual(buff, st.mem.log[cur], st.thr[t].done);
        Takes(t, TakeRd(st.mem, buff), CIdle);
        rd := cur + 1;
      } else {
        Takes(t, st.mem, CLoadRd);
      }
    }

    /** pop.  It takes one index exactly when it returns true; the block it hands
        out is then, byte for byte, the message of that index, which nobody had
        taken when the call began.  "Empty" means that its own last loads met the
        test, whatever the others did: the ring is empty at the last one, unless
        another consumer has taken index i meanwhile.  With no interference it was
        empty as the call began. */
    method PopMsg(t: Tid, junk: Msg) returns (ok: bool, buff: Msg, ghost i: nat)
      requires Valid() && At(t, CIdle) && |junk| == st.mem.size
      modifies this, elems
      ensures Valid() && At(t, CIdle) && Did(if ok then 1 else 0)
      ensures ok ==> old(rd) <= i < rd && i < |st.mem.log| && buff == st.mem.log[i]
      ensures !ok ==> old(rd) <= i <= rd && Slot(i) == Slot(wt) && (i == rd ==> rd == wt)
      ensures !ok && credit == old(credit) ==> old(rd) == old(wt)
    {
      ReachableSized(st);
      Takes(t, st.mem, CLoadRd);
      while true
        invariant Valid() && At(t, CLoadRd) && Did(0)
        invariant credit == old(credit) ==> rd == old(rd) && wt == old(wt)
        decreases credit
      {
        var empty, cur := SeeMessage(t, junk);
        i := cur;
        if empty {
          return false, junk, i;
        }
        buff := CopyBlock(t, cur, junk);
        ok := CasRd(t, cur, buff);
        if ok {
          return;
        }
      }
    }
  }
}
