/** Steps of the single-writer broadcast ring one after the other, as they go when
    nobody interferes: whole pushes, whole pops, and receivers leaving. */
module RouteAlone {
  import opened Ring
  import opened Route
  import Runs

  function Last(run: seq<State>): State
    requires run != []
  {
    run[|run| - 1]
  }

  // The run goes on, and r stays connected.
  ghost predicate GoesOn(run: seq<State>, run': seq<State>, r: Rid)
    requires run != []
  {
    && Run(run') && run <= run'
    && (forall i | |run| <= i < |run'| :: r in run'[i].mem.live)
  }

  lemma WriterGoes(run: seq<State>, m': Mem, w': WPc, r: Rid) returns (run': seq<State>)
    requires Run(run) && WellSized(Last(run).mem) && Push(Last(run).mem, m', Last(run).w, w')
    requires r in m'.live
    ensures GoesOn(run, run', r) && Last(run') == State(m', w', Last(run).rcv)
  {
    assert WriterStep(Last(run), State(m', w', Last(run).rcv));
    run' := Runs.Extend(run, State(m', w', Last(run).rcv), Init, Next);
  }

  lemma ReceiverGoes(run: seq<State>, q: Rid, m': Mem, pc': RPc, r: Rid) returns (run': seq<State>)
    requires Run(run) && WellSized(Last(run).mem) && q in Last(run).rcv
    requires Receive(Last(run).mem, m', q, Last(run).w, Last(run).rcv[q], pc')
    requires r in m'.live
    ensures GoesOn(run, run', r) && Last(run') == State(m', Last(run).w, Last(run).rcv[q := pc'])
  {
    var s' := State(m', Last(run).w, Last(run).rcv[q := pc']);
    assert ReceiverStep(Last(run), s', q);
    run' := Runs.Extend(run, s', Init, Next);
  }

  // The slot of wt holds these bytes.
  function Filled(m: Mem, data: Msg): Mem
    requires WellSized(m)
  {
    m.(cells := m.cells[Slot(m.wt) := At(m, m.wt).(data := data)])
  }

  // Memory after a push of msg to the receivers with bits cc.
  ghost function PushedTo(m: Mem, cc: set<nat>, msg: Msg): Mem
    requires WellSized(m) && |msg| == m.size
  {
    Publish(Filled(Claim(m, cc), msg), msg)
  }

  // The bytes are written from the first on.
  lemma {:induction false} WriteOn(run: seq<State>, msg: Msg, k: nat, done: set<nat>, r: Rid) returns (run': seq<State>)
    requires Run(run) && WellSized(Last(run).mem) && r in Last(run).mem.live
    requires Last(run).w == WWrite(msg, Last(run).mem.wt, done) && k <= |msg| == Last(run).mem.size
    requires forall j: nat :: j in done <==> j < k
    requires At(Last(run).mem, Last(run).mem.wt).data[..k] == msg[..k]
    ensures GoesOn(run, run', r) && Last(run').w.WWrite? && Whole(Last(run').w.done, |msg|)
    ensures Last(run') == State(Filled(Last(run).mem, msg), WWrite(msg, Last(run).mem.wt, Last(run').w.done), Last(run).rcv)
    decreases |msg| - k
  {
    var m := Last(run).mem;
    var data := At(m, m.wt).data;
    if k == |msg| {
      run' := run;
      assert data[..k] == data && msg[..k] == msg;
      assert Filled(m, msg) == m;
    } else {
      var one := WriterGoes(run, WriteByte(m, k, msg[k]), WWrite(msg, m.wt, done + {k}), r);
      assert data[k := msg[k]][..k + 1] == data[..k] + [msg[k]] == msg[..k + 1];
      run' := WriteOn(one, msg, k + 1, done + {k}, r);
    }
  }

  // From the loaded connections to the end of the push.
  lemma ClaimSlot(run: seq<State>, msg: Msg, cc: set<nat>, r: Rid) returns (run': seq<State>)
    requires Run(run) && WellSized(Last(run).mem) && r in Last(run).mem.live
    requires Last(run).w == WLoadWt(msg, cc) && cc * At(Last(run).mem, Last(run).mem.wt).rc.mask == {}
    ensures GoesOn(run, run', r)
    ensures var s := Last(run); Last(run') == State(Claim(s.mem, cc), WWrite(msg, s.mem.wt, {}), s.rcv)
  {
    var m := Last(run).mem;
    run' := WriterGoes(run, m, WLoadRc(msg, cc, m.wt), r);
    run' := WriterGoes(run', m, WCasRc(msg, cc, m.wt, At(m, m.wt).rc), r);
    run' := WriterGoes(run', Claim(m, cc), WWrite(msg, m.wt, {}), r);
  }

  lemma FinishPush(run: seq<State>, msg: Msg, cc: set<nat>, r: Rid) returns (run': seq<State>)
    requires Run(run) && WellSized(Last(run).mem) && r in Last(run).mem.live && |msg| == Last(run).mem.size
    requires Last(run).w == WLoadWt(msg, cc) && cc * At(Last(run).mem, Last(run).mem.wt).rc.mask == {}
    ensures GoesOn(run, run', r)
    ensures var s := Last(run); Last(run') == State(PushedTo(s.mem, cc, msg), WIdle, s.rcv)
  {
    var m := Last(run).mem;
    var claimed := ClaimSlot(run, msg, cc, r);
    var none: set<nat> := {};
    var written := WriteOn(claimed, msg, 0, none, r);
    run' := WriterGoes(written, PushedTo(m, cc, msg), WIdle, r);
  }

  lemma LoadForPush(run: seq<State>, msg: Msg, r: Rid) returns (run': seq<State>)
    requires Run(run) && WellSized(Last(run).mem) && r in Last(run).mem.live && |msg| == Last(run).mem.size
    requires Last(run).w == WIdle && Last(run).mem.conn != {}
    ensures GoesOn(run, run', r)
    ensures Last(run') == Last(run).(w := WLoadWt(msg, Last(run).mem.conn))
  {
    var m := Last(run).mem;
    run' := WriterGoes(run, m, WLoadConn(msg), r);
    run' := WriterGoes(run', m, WLoadWt(msg, m.conn), r);
  }

  lemma PushAlone(run: seq<State>, msg: Msg, r: Rid) returns (run': seq<State>)
    requires Run(run) && WellSized(Last(run).mem) && r in Last(run).mem.live && |msg| == Last(run).mem.size
    requires Last(run).w == WIdle && Last(run).mem.conn != {}
    requires Last(run).mem.conn * At(Last(run).mem, Last(run).mem.wt).rc.mask == {}
    ensures GoesOn(run, run', r)
    ensures var s := Last(run); Last(run') == s.(mem := PushedTo(s.mem, s.mem.conn, msg))
  {
    var one := LoadForPush(run, msg, r);
    run' := FinishPush(one, msg, Last(run).mem.conn, r);
  }

  // The bytes are copied from the first on.
  lemma {:induction false} CopyOn(run: seq<State>, q: Rid, i: nat, buff: Msg, k: nat, done: set<nat>, r: Rid) returns (run': seq<State>)
    requires Run(run) && WellSized(Last(run).mem) && r in Last(run).mem.live && q in Last(run).rcv
    requires Last(run).rcv[q] == RCopy(i, buff, done) && k <= |buff| == Last(run).mem.size
    requires forall j: nat :: j in done <==> j < k
    requires buff[..k] == At(Last(run).mem, i).data[..k]
    ensures GoesOn(run, run', r)
    ensures Last(run') == Last(run).(rcv := Last(run).rcv[q := RLoadRc(i, At(Last(run).mem, i).data)])
    decreases |buff| - k
  {
    var m, data := Last(run).mem, At(Last(run).mem, i).data;
    if k == |buff| {
      assert buff[..k] == buff && data[..k] == data;
      run' := ReceiverGoes(run, q, m, RLoadRc(i, data), r);
    } else {
      var one := ReceiverGoes(run, q, m, RCopy(i, buff[k := data[k]], done + {k}), r);
      assert buff[k := data[k]][..k + 1] == buff[..k] + [data[k]] == data[..k + 1];
      run' := CopyOn(one, q, i, buff[k := data[k]], k + 1, done + {k}, r);
      assert Last(one).rcv[q := RLoadRc(i, data)] == Last(run).rcv[q := RLoadRc(i, data)];
    }
  }

  // Memory after a pop of i by q.
  ghost function Popped(m: Mem, q: Rid, i: nat): Mem
    requires WellSized(m) && q in m.live && q in m.got
  {
    Finish(if At(m, i).rc.mask == {} then m else ClearBit(m, q, i), q, i, At(m, i).data)
  }

  lemma PopAlone(run: seq<State>, q: Rid, i: nat, r: Rid) returns (run': seq<State>)
    requires Run(run) && WellSized(Last(run).mem) && r in Last(run).mem.live
    requires q in Last(run).rcv && Last(run).rcv[q] == RIdle(i) && i != Last(run).mem.wt
    requires q in Last(run).mem.live && q in Last(run).mem.got
    ensures GoesOn(run, run', r)
    ensures var s := Last(run); Last(run') == s.(mem := Popped(s.mem, q, i), rcv := s.rcv[q := RIdle(i + 1)])
  {
    var m, rcv, data := Last(run).mem, Last(run).rcv, At(Last(run).mem, i).data;
    var none: set<nat> := {};
    var started := ReceiverGoes(run, q, m, RCopy(i, data, none), r);
    var copied := CopyOn(started, q, i, data, 0, none, r);
    if At(m, i).rc.mask == {} {
      run' := ReceiverGoes(copied, q, Popped(m, q, i), RIdle(i + 1), r);
    } else {
      var loaded := ReceiverGoes(copied, q, m, RCasRc(i, data, At(m, i).rc), r);
      run' := ReceiverGoes(loaded, q, Popped(m, q, i), RIdle(i + 1), r);
    }
    assert rcv[q := RIdle(i + 1)] == Last(run').rcv;
  }
}
