/** Waiting with a predicate that has a side effect.  `send` waits on a predicate
    that tries to push and yields false when it has pushed, so evaluating it
    again after that would push twice.

    What the environment does is a script: at each point where the code loads
    quit_, evaluates the predicate or waits on the condition variable, it takes
    the next answer.  When the script is used up the call is still waiting. */
module WaitFor {

  // One round: the value of quit_, of the predicate, and of cond_.wait.
  datatype Answer = Answer(quit: bool, blocked: bool, woken: bool)

  // What happened, in order.
  datatype Event = QuitWas(b: bool) | PredWas(b: bool) | WaitWas(b: bool)

  datatype Outcome = Waiting | Done(ret: bool)

  const SPINS: nat := 32

  // The number of pushes done: each false evaluation is one.
  function Pushes(trace: seq<Event>): nat {
    if trace == [] then 0
    else Pushes(trace[..|trace| - 1]) + (if trace[|trace| - 1] == PredWas(false) then 1 else 0)
  }

  ghost predicate SawQuit(trace: seq<Event>) {
    QuitWas(true) in trace
  }

  /** No event after a false evaluation. */
  ghost predicate StopsAtFalse(trace: seq<Event>) {
    forall i | 0 <= i < |trace| - 1 :: trace[i] != PredWas(false)
  }

  lemma {:induction false} AtMostOnePush(trace: seq<Event>)
    requires StopsAtFalse(trace)
    ensures Pushes(trace) == if trace != [] && trace[|trace| - 1] == PredWas(false) then 1 else 0
  {
    if trace != [] {
      var front := trace[..|trace| - 1];
      assert StopsAtFalse(front);
      AtMostOnePush(front);
      assert front != [] ==> front[|front| - 1] == trace[|trace| - 2];
    }
  }

  // A call that came back, judged by the last thing that happened in it.
  ghost predicate Explained(trace: seq<Event>, r: Outcome) {
    && StopsAtFalse(trace)
    && (r.Done? ==> trace != [])
    && (trace != [] ==>
          var last := trace[|trace| - 1];
          && (r == Done(true) ==> last == PredWas(false) || last == QuitWas(true))
          && (r == Done(false) ==> last == PredWas(true) || last == WaitWas(false))
          && (r == Waiting ==> last != PredWas(false)))
  }

  datatype Waited = Waited(trace: seq<Event>, r: Outcome, rest: seq<Answer>)

  /** The rounds of wait_if: quit_ first, the predicate only without quit, the
      condition variable only while blocked, and again only when woken. */
  function Rounds(script: seq<Answer>): Waited {
    if script == [] then Waited([], Waiting, [])
    else
      var a, rest := script[0], script[1..];
      if a.quit then Waited([QuitWas(true)], Done(true), rest)
      else if !a.blocked then Waited([QuitWas(false), PredWas(false)], Done(true), rest)
      else if !a.woken then Waited([QuitWas(false), PredWas(true), WaitWas(false)], Done(false), rest)
      else
        var w := Rounds(rest);
        w.(trace := [QuitWas(false), PredWas(true), WaitWas(true)] + w.trace)
  }

  lemma {:induction false} RoundsExplained(script: seq<Answer>)
    ensures Explained(Rounds(script).trace, Rounds(script).r)
    ensures Rounds(script).r == Done(false) ==> WaitWas(false) in Rounds(script).trace
    ensures |Rounds(script).rest| <= |script|
    ensures Rounds(script).r.Done? ==> |Rounds(script).rest| < |script|
  {
    if script != [] {
      RoundsExplained(script[1..]);
    }
  }

  // What one round records.
  function RoundOf(a: Answer): seq<Event> {
    if a.quit then [QuitWas(true)]
    else if !a.blocked then [QuitWas(false), PredWas(false)]
    else [QuitWas(false), PredWas(true), WaitWas(a.woken)]
  }

  lemma RoundsOnce(script: seq<Answer>, before: seq<Event>, round: seq<Event>)
    requires script != [] && round == RoundOf(script[0])
    ensures var a, w := script[0], Rounds(script);
            if !a.quit && a.blocked && a.woken
            then
              var w' := Rounds(script[1..]);
              w.r == w'.r && w.rest == w'.rest && before + w.trace == before + round + w'.trace
            else
              && w.r == Done(a.quit || !a.blocked) && w.rest == script[1..]
              && before + w.trace == before + round
  {
    assert script[0].woken ==> before + (round + Rounds(script[1..]).trace) == before + round + Rounds(script[1..]).trace;
  }

  /** waiter::wait_if, called when the mutex is held. */
  method WaitIf(script: seq<Answer>) returns (r: Outcome, trace: seq<Event>, rest: seq<Answer>)
    ensures Waited(trace, r, rest) == Rounds(script)
  {
    trace, rest := [], script;
    ghost var all := Rounds(script);
    while true
      invariant all.r == Rounds(rest).r && all.rest == Rounds(rest).rest
      invariant all.trace == trace + Rounds(rest).trace
      decreases |rest|
    {
      if rest == [] {
        return Waiting, trace, rest;
      }
      var now := rest[0];
      var go := false;
      var round := [QuitWas(now.quit)];
      if !now.quit {
        round := round + [PredWas(now.blocked)];
        go := now.blocked;
      }
      if go {
        round := round + [WaitWas(now.woken)];
      }
      RoundsOnce(rest, trace, round);
      trace, rest := trace + round, rest[1..];
      if !go {
        return Done(true), trace, rest;
      }
      if !now.woken {
        return Done(false), trace, rest;
      }
    }
  }

  // Evaluations that found the caller blocked, then a wait.
  lemma SpinThenWait(spun: seq<Event>, inner: seq<Event>, r: Outcome)
    requires forall i | 0 <= i < |spun| :: spun[i] == PredWas(true)
    requires Explained(inner, r)
    ensures Explained(spun + inner, r)
  {
    var all := spun + inner;
    forall i | 0 <= i < |all| - 1
      ensures all[i] != PredWas(false)
    {
      assert i >= |spun| ==> all[i] == inner[i - |spun|];
    }
  }

  /** How many answers at the front find the caller blocked, counting no further
      than `most`. */
  function Leading(script: seq<Answer>, most: nat): (k: nat)
    ensures k <= most && k <= |script|
    ensures forall i | 0 <= i < k :: script[i].blocked
    ensures k < most && k < |script| ==> !script[k].blocked
  {
    if most == 0 || script == [] || !script[0].blocked then 0 else 1 + Leading(script[1..], most - 1)
  }

  // k evaluations that found the caller blocked.
  function Spun(k: nat): seq<Event> {
    seq(k, _ => PredWas(true))
  }

  /** wait_for.  Without a timeout there is one evaluation.  Otherwise it evaluates
      until the first false one, which ends the call with true, and at the 33rd
      true one it turns to the condition variable, whose result it returns. */
  method WaitFor(script: seq<Answer>, tm: nat) returns (r: Outcome, trace: seq<Event>)
    ensures Explained(trace, r)
    ensures tm == 0 ==>
      if script == [] then r == Waiting && trace == []
      else r == Done(!script[0].blocked) && trace == [PredWas(script[0].blocked)]
    ensures tm > 0 ==>
      var k := Leading(script, 33);
      if k == 33 then var w := Rounds(script[33..]); r == w.r && trace == Spun(33) + w.trace
      else if k == |script| then r == Waiting && trace == Spun(k)
      else r == Done(true) && trace == Spun(k) + [PredWas(false)]
    ensures tm > 0 && r == Done(false) ==> WaitWas(false) in trace
  {
    trace := [];
    if tm == 0 {
      if script == [] {
        return Waiting, trace;
      }
      return Done(!script[0].blocked), [PredWas(script[0].blocked)];
    }
    var rest := script;
    var k := 0;
    while true
      invariant 0 <= k <= SPINS
      invariant k <= |script| && rest == script[k..] && trace == Spun(k)
      invariant forall i | 0 <= i < k :: script[i].blocked
      decreases |rest|
    {
      if rest == [] {
        return Waiting, trace;
      }
      var blocked := rest[0].blocked;
      rest := rest[1..];
      trace := trace + [PredWas(blocked)];
      if !blocked {
        break;
      }
      // ipc::sleep
      var ret := true;
      if k < SPINS {
        k := k + 1;
      } else {
        RoundsExplained(rest);
        var o, inner, rest' := WaitIf(rest);
        SpinThenWait(trace, inner, o);
        trace, rest := trace + inner, rest';
        if o == Waiting {
          return Waiting, trace;
        }
        ret := o.ret;
        k := 0;
      }
      if !ret {
        return Done(false), trace;
      }
      if k == 0 {
        break;
      }
    }
    return Done(true), trace;
  }

  /** The caller's view: the predicate is never evaluated again once it has
      pushed, so there is at most one push; false means none happened, and true
      means one did, unless the last thing seen was quit_. */
  lemma PushedExactlyOnce(trace: seq<Event>, r: Outcome)
    requires Explained(trace, r)
    ensures Pushes(trace) <= 1
    ensures r == Done(false) ==> Pushes(trace) == 0
    ensures r == Done(true) ==> (Pushes(trace) == 1 <==> trace[|trace| - 1] != QuitWas(true))
    ensures r == Done(true) && !SawQuit(trace) ==> Pushes(trace) == 1
    ensures r == Waiting ==> Pushes(trace) == 0
  {
    AtMostOnePush(trace);
  }

  /** It happens: a wait that finds quit_ set ends true without a push. */
  lemma QuitEndsWithoutPush(blocked: bool, woken: bool, rest: seq<Answer>)
    ensures var w := Rounds([Answer(true, blocked, woken)] + rest);
            w.r == Done(true) && Pushes(w.trace) == 0
  {
    var script := [Answer(true, blocked, woken)] + rest;
    assert Rounds(script).trace == [QuitWas(true)];
    assert Rounds(script).trace[..0] == [];
  }
}
