/** A run in which a receiver that joins while a push is under way is given a
    later message in place of the one at its cursor.

    Receiver 0 is connected from the outset.  The writer loads the connections;
    then receiver 1 sets its bit and loads cursor 0, which is the write index.
    Message 0 is published to receiver 0 alone, which leaves, so that nobody is
    waited for at its slot when the writer has gone round the ring. */
module RouteOverwrite {
  import opened Ring
  import opened Route
  import Runs
  import opened RouteAlone
  import opened RouteSure

  ghost function Start0(): State {
    State(
      Mem(1, {0}, 0, 0, seq(N, _ => Cell([0], Rc(0, {}))), [], map[0 := 0],
          seq(N, k requires 0 <= k < N => k), seq(N, _ => {}), map[0 := 0], map[0 := []]),
      WIdle, map[0 := RIdle(0), 1 := Out])
  }

  lemma StartRuns()
    ensures Run([Start0()]) && WellSized(Start0().mem)
  {
    var run := [Start0()];
    assert Start0().mem.live[0] == 0;
    assert Init(Start0());
    Runs.Start(Start0(), Init, Next);
  }

  // Both receivers at cursor 0; the writer knows of receiver 0 only.
  ghost function Joined(): State {
    State(
      Start0().mem.(conn := {0, 1}, live := map[0 := 0, 1 := 1], pos := map[0 := 0, 1 := 0], got := map[0 := [], 1 := []]),
      WLoadWt([0], {0}), map[0 := RIdle(0), 1 := RIdle(0)])
  }

  // Receiver 1 joins between the writer's load of the connections and its claim.
  lemma JoinLate() returns (run: seq<State>)
    ensures Run(run) && Last(run) == Joined()
  {
    StartRuns();
    run := LoadForPush([Start0()], [0], 0);
    var m := Last(run).mem;
    run := ReceiverGoes(run, 1, Join(m, 1, 1), JLoadCursor, 0);
    run := ReceiverGoes(run, 1, Start(Join(m, 1, 1), 1, false), RIdle(0), 0);
  }

  // Message 0 is published, and neither its slot nor another names receiver 1.
  ghost predicate Overlooks(s: State) {
    && WellSized(s.mem) && s.mem.size == 1 && s.mem.wt == 1 && s.mem.log == [[0]]
    && s.mem.live == Joined().mem.live && s.mem.got == Joined().mem.got && s.mem.pos == Joined().mem.pos
    && (forall k: nat | k < N :: 1 !in s.mem.cells[k].rc.mask)
    && s.w == WIdle && s.rcv == Joined().rcv
  }

  lemma PublishedToOne(run: seq<State>) returns (run': seq<State>)
    requires Run(run) && Last(run) == Joined()
    ensures GoesOn(run, run', 1) && Overlooks(Last(run'))
  {
    run' := FinishPush(run, [0], {0}, 1);
  }

  lemma LeftAlone(run: seq<State>) returns (run': seq<State>)
    requires Run(run) && Overlooks(Last(run))
    ensures GoesOn(run, run', 1) && Lone(Last(run'), 1, 1) && SameRing(Last(run), Last(run'), 1)
  {
    run' := QuitAll(run, 1);
  }

  lemma GivenAnother(run: seq<State>) returns (run': seq<State>)
    requires Run(run) && Overlooks(Last(run))
    ensures GoesOn(run, run', 1)
    ensures var m := Last(run').mem;
            1 in m.got && m.log != [] && m.got[1] == [[1]] && m.log[0] == [0]
  {
    var alone := LeftAlone(run);
    run' := LoneIsLapped(alone, 1, 1, 0, 0, [1]);
    ContinuesTrans(run, alone, run', 1);
  }

  /** Receiver 1 stands at cursor 0 when message 0 is published, stays connected,
      and is given message 256 in its place. */
  lemma LateJoinerIsOverwritten() returns (run: seq<State>, a: nat)
    ensures Run(run) && a < |run| && Connected(run, a, |run| - 1, 1)
    ensures 1 in run[a].rcv && run[a].rcv[1] == RIdle(0) && run[a].mem.wt == 0 && run[a].w == WLoadWt([0], {0})
    ensures var m := Last(run).mem;
            1 in m.got && m.log != [] && m.got[1] == [[1]] && m.log[0] == [0]
  {
    var joined := JoinLate();
    a := |joined| - 1;
    var published := PublishedToOne(joined);
    run := GivenAnother(published);
    ContinuesTrans(joined, published, run, 1);
    GoesOnContinues(joined, run, 1);
    assert run[a] == joined[a];
  }
}
