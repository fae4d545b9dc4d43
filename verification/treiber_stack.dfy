/** The lock-free intrusive stack.  `stack`, `pushed`, `popped` and `used` are
    history variables: the abstract content from the top, the nodes linked in and
    the nodes handed out, in order, and the nodes that some push has been called
    with. */
module TreiberStack {
  import Runs

  type Tid = nat

  type Node = nat

  datatype Link = Null | To(node: Node)

  datatype Pc =
    | Idle
    | PLoadTop(n: Node)
    | PStoreNext(n: Node, seen: Link)
    | PCas(n: Node, seen: Link)
    | CLoadTop
    | CLoadNext(top: Node)
    | CCas(top: Node, nxt: Link)

  datatype State = State(
    top: Link,
    next: map<Node, Link>,
    thr: map<Tid, Pc>,
    stack: seq<Node>,
    pushed: seq<Node>,
    popped: seq<Node>,
    used: set<Node>)

  function Link0(stack: seq<Node>): Link {
    if stack == [] then Null else To(stack[0])
  }

  // pop goes on with the top it has just seen, or returns nullptr.
  function Consider(top: Link): Pc {
    match top case Null => Idle case To(n) => CLoadNext(n)
  }

  // The node that a thread is about to link in.
  ghost predicate Carries(pc: Pc, n: Node) {
    (pc.PLoadTop? || pc.PStoreNext? || pc.PCas?) && pc.n == n
  }

  // A pop under way has seen n on top.
  ghost predicate Sees(pc: Pc, n: Node) {
    (pc.CLoadNext? || pc.CCas?) && pc.top == n
  }

  /** The caller's duty: the node is not on the stack, no other push has it, and
      no pop under way has seen it.  It may have been pushed and popped before. */
  ghost predicate Usable(s: State, n: Node) {
    && n !in s.stack
    && (forall t | t in s.thr :: !Carries(s.thr[t], n) && !Sees(s.thr[t], n))
  }

  function LinkIn(s: State, n: Node): State {
    s.(top := To(n), stack := [n] + s.stack, pushed := s.pushed + [n])
  }

  function TakeOff(s: State, n: Node, nxt: Link): State {
    s.(top := nxt, popped := s.popped + [n], stack := if s.stack == [] then [] else s.stack[1..])
  }

  /** One atomic access of thread `t`.  `careful`: pushes are called with usable
      nodes only. */
  ghost predicate Step(s: State, s': State, t: Tid, careful: bool) {
    && t in s.thr && t in s'.thr
    && var pc' := s'.thr[t];
       var go := s.(thr := s.thr[t := pc']);
       match s.thr[t]
       case Idle =>
         || (s' == go && pc' == CLoadTop)
         || (pc'.PLoadTop? && (careful ==> Usable(s, pc'.n)) && s' == go.(used := s.used + {pc'.n}))
       case PLoadTop(n) => s' == go && pc' == PStoreNext(n, s.top)
       case PStoreNext(n, seen) => s' == go.(next := s.next[n := seen]) && pc' == PCas(n, seen)
       case PCas(n, seen) =>
         || (s.top == seen && s' == LinkIn(go, n) && pc' == Idle)
         || (s' == go && pc' == PStoreNext(n, s.top))
       case CLoadTop => s' == go && pc' == Consider(s.top)
       case CLoadNext(seen) => seen in s.next && s' == go && pc' == CCas(seen, s.next[seen])
       case CCas(seen, nxt) =>
         || (s.top == To(seen) && pc' == Idle && s' == TakeOff(go, seen, nxt))
         || (s' == go && pc' == Consider(s.top))
  }

  ghost predicate Init(s: State) {
    && s.top == Null && s.stack == [] && s.pushed == [] && s.popped == [] && s.used == {}
    && (forall t | t in s.thr :: s.thr[t] == Idle)
  }

  /** Following next from the top visits exactly `stack`, in order. */
  ghost predicate Chain(next: map<Node, Link>, top: Link, stack: seq<Node>) {
    && top == Link0(stack)
    && (forall i | 0 <= i < |stack| :: stack[i] in next && next[stack[i]] == Link0(stack[i + 1..]))
  }

  ghost predicate PcOk(next: map<Node, Link>, pc: Pc) {
    match pc
    case PCas(n, seen) => n in next && next[n] == seen
    case CLoadNext(seen) => seen in next
    case CCas(seen, nxt) => seen in next && next[seen] == nxt
    case _ => true
  }

  ghost predicate Distinct(q: seq<Node>) {
    forall i, j | 0 <= i < j < |q| :: q[i] != q[j]
  }

  /** A carried node is nobody else's business. */
  ghost predicate Apart(stack: seq<Node>, thr: map<Tid, Pc>) {
    && (forall t, n | t in thr && Carries(thr[t], n) :: n !in stack)
    && (forall t, u, n | t in thr && u in thr && Carries(thr[t], n) && Carries(thr[u], n) :: t == u)
    && (forall t, u, n | t in thr && u in thr && Carries(thr[t], n) :: !Sees(thr[u], n))
  }

  ghost predicate Inv(s: State) {
    && Chain(s.next, s.top, s.stack) && Distinct(s.stack)
    && (forall t | t in s.thr :: PcOk(s.next, s.thr[t]))
    && Apart(s.stack, s.thr)
  }

  lemma ChainGrows(next: map<Node, Link>, top: Link, stack: seq<Node>, n: Node)
    requires Chain(next, top, stack) && n in next && next[n] == top
    ensures Chain(next, To(n), [n] + stack)
  {
    var longer := [n] + stack;
    forall i | 0 <= i < |longer|
      ensures longer[i] in next && next[longer[i]] == Link0(longer[i + 1..])
    {
      assert i > 0 ==> longer[i] == stack[i - 1] && longer[i + 1..] == stack[i..];
      assert longer[1..] == stack;
    }
  }

  lemma ChainShrinks(next: map<Node, Link>, top: Link, stack: seq<Node>)
    requires Chain(next, top, stack) && stack != []
    ensures stack[0] in next && Chain(next, next[stack[0]], stack[1..])
  {
    var rest := stack[1..];
    forall i | 0 <= i < |rest|
      ensures rest[i] in next && next[rest[i]] == Link0(rest[i + 1..])
    {
      assert rest[i + 1..] == stack[i + 2..];
    }
  }

  lemma ChainElsewhere(next: map<Node, Link>, top: Link, stack: seq<Node>, n: Node, l: Link)
    requires Chain(next, top, stack) && n !in stack
    ensures Chain(next[n := l], top, stack)
  {
    assert forall i | 0 <= i < |stack| :: stack[i] in stack;
  }

  // Once a swap has succeeded, its thread is idle and n, if anything, is new.
  lemma ApartAfterSwap(stack: seq<Node>, stack': seq<Node>, thr: map<Tid, Pc>, t: Tid)
    requires Apart(stack, thr) && t in thr
    requires forall n | n in stack' :: n in stack || Carries(thr[t], n)
    ensures Apart(stack', thr[t := Idle])
  {
  }

  lemma DistinctGrows(stack: seq<Node>, n: Node)
    requires Distinct(stack) && n !in stack
    ensures Distinct([n] + stack)
    ensures forall x :: x in [n] + stack <==> x == n || x in stack
  {
    forall i, j | 0 <= i < j < |stack| + 1
      ensures ([n] + stack)[i] != ([n] + stack)[j]
    {
      assert ([n] + stack)[j] == stack[j - 1];
    }
  }

  lemma PushLinks(s: State, s': State, t: Tid)
    requires Inv(s) && Step(s, s', t, true) && s'.pushed != s.pushed
    ensures Inv(s') && s.thr[t].PCas?
    ensures s'.stack == [s.thr[t].n] + s.stack && s'.pushed == s.pushed + [s.thr[t].n] && s'.popped == s.popped
  {
    var n := s.thr[t].n;
    assert Carries(s.thr[t], n);
    ChainGrows(s.next, s.top, s.stack, n);
    DistinctGrows(s.stack, n);
    ApartAfterSwap(s.stack, s'.stack, s.thr, t);
  }

  /** A pop's compare-and-swap succeeds only on the current top and with the
      top's current successor, although both were read earlier. */
  lemma PopUnlinks(s: State, s': State, t: Tid)
    requires Inv(s) && Step(s, s', t, true) && s'.popped != s.popped
    ensures Inv(s') && |s.stack| > 0 && s'.pushed == s.pushed
    ensures s'.popped == s.popped + [s.stack[0]] && s'.stack == s.stack[1..]
  {
    assert s.stack[0] == s.thr[t].top;
    ChainShrinks(s.next, s.top, s.stack);
    assert forall x | x in s'.stack :: x in s.stack;
    ApartAfterSwap(s.stack, s'.stack, s.thr, t);
  }

  lemma StoreNextInv(s: State, s': State, t: Tid)
    requires Inv(s) && Step(s, s', t, true) && s.thr[t].PStoreNext?
    ensures Inv(s')
  {
    var n, l := s.thr[t].n, s.thr[t].seen;
    assert Carries(s.thr[t], n);
    ChainElsewhere(s.next, s.top, s.stack, n, l);
    forall u | u in s'.thr && u != t
      ensures PcOk(s'.next, s'.thr[u])
    {
      assert PcOk(s.next, s.thr[u]) && !Carries(s.thr[u], n) && !Sees(s.thr[u], n);
    }
    assert forall x :: Carries(s'.thr[t], x) <==> Carries(s.thr[t], x);
  }

  lemma GotoInv(s: State, s': State, t: Tid)
    requires Inv(s) && Step(s, s', t, true)
    requires s'.next == s.next && s'.pushed == s.pushed && s'.popped == s.popped
    ensures Inv(s') && s'.stack == s.stack
  {
    assert s.top.To? ==> s.top.node == s.stack[0] && s.top.node in s.stack;
    assert forall n :: Carries(s'.thr[t], n) ==> Carries(s.thr[t], n) || Usable(s, n);
    assert forall n :: Sees(s'.thr[t], n) ==> Sees(s.thr[t], n) || n in s.stack;
  }

  lemma StepInv(s: State, s': State, t: Tid)
    requires Inv(s) && Step(s, s', t, true)
    ensures Inv(s')
  {
    if s'.popped != s.popped {
      PopUnlinks(s, s', t);
    } else if s'.pushed != s.pushed {
      PushLinks(s, s', t);
    } else if s.thr[t].PStoreNext? {
      StoreNextInv(s, s', t);
    } else {
      GotoInv(s, s', t);
    }
  }

  ghost predicate Next(s: State, s': State, careful: bool) {
    exists t :: Step(s, s', t, careful)
  }

  ghost function Steps(careful: bool): (State, State) -> bool {
    (s, s') => Next(s, s', careful)
  }

  ghost predicate Run(run: seq<State>, careful: bool) {
    Runs.IsRun(run, Init, Steps(careful))
  }

  lemma {:induction false} RunInv(run: seq<State>, i: nat)
    requires Run(run, true) && i < |run|
    ensures Inv(run[i])
  {
    assert Runs.Lawful(run, Init, Steps(true), i);
    if i > 0 {
      RunInv(run, i - 1);
      var t :| Step(run[i - 1], run[i], t, true);
      StepInv(run[i - 1], run[i], t);
    }
  }

  // ---------------------------------------------------------------- the stack

  // The abstract LIFO operation that a step amounts to.
  datatype Effect = Nothing | Pushes(n: Node) | Pops(n: Node)

  ghost predicate Performs(s: State, s': State, e: Effect) {
    match e
    case Nothing => s'.stack == s.stack && s'.pushed == s.pushed && s'.popped == s.popped && s'.top == s.top
    case Pushes(n) =>
      s'.stack == [n] + s.stack && s'.pushed == s.pushed + [n] && s'.popped == s.popped && n !in s.stack
    case Pops(n) => s.stack == [n] + s'.stack && s'.pushed == s.pushed && s'.popped == s.popped + [n]
  }

  lemma StepPerforms(s: State, s': State, t: Tid)
    requires Inv(s) && Step(s, s', t, true)
    ensures Performs(s, s',
              if s'.pushed != s.pushed then Pushes(s.thr[t].n)
              else if s'.popped != s.popped then Pops(s.thr[t].top)
              else Nothing)
    ensures s'.pushed != s.pushed ==> s.thr[t].PCas?
    ensures s'.popped != s.popped ==> s.thr[t].CCas?
  {
    if s'.popped != s.popped {
      PopUnlinks(s, s', t);
    } else if s'.pushed != s.pushed {
      assert Carries(s.thr[t], s.thr[t].n);
    } else if !s.thr[t].PStoreNext? {
      GotoInv(s, s', t);
    }
  }

  /** Each successful compare-and-swap is one push of the caller's node or one
      pop of the top; every other step leaves the abstract stack alone. */
  lemma EachStepIsOneStackOperation(run: seq<State>, i: nat, s': State, t: Tid)
    requires Run(run, true) && i < |run| && Step(run[i], s', t, true)
    ensures var s := run[i];
            Performs(s, s',
              if s'.pushed != s.pushed then Pushes(s.thr[t].n)
              else if s'.popped != s.popped then Pops(s.thr[t].top)
              else Nothing)
    ensures s'.pushed != run[i].pushed ==> run[i].thr[t].PCas?
    ensures s'.popped != run[i].popped ==> run[i].thr[t].CCas?
  {
    RunInv(run, i);
    StepPerforms(run[i], s', t);
  }

  // Every node has been handed out as often as it was pushed, or is on the stack.
  ghost predicate Balanced(s: State) {
    multiset(s.stack) + multiset(s.popped) == multiset(s.pushed)
  }

  lemma {:induction false} RunBalanced(run: seq<State>, i: nat)
    requires Run(run, true) && i < |run|
    ensures Balanced(run[i])
  {
    assert Runs.Lawful(run, Init, Steps(true), i);
    if i > 0 {
      RunBalanced(run, i - 1);
      RunInv(run, i - 1);
      var t :| Step(run[i - 1], run[i], t, true);
      StepPerforms(run[i - 1], run[i], t);
    }
  }

  /** Following next from the top visits the abstract stack and ends, no node is
      on it twice, and nodes are neither lost nor made up: each has been handed
      out exactly as often as it was pushed, less one if it is on the stack. */
  lemma ReachableIsAcyclic(run: seq<State>, i: nat)
    requires Run(run, true) && i < |run|
    ensures Chain(run[i].next, run[i].top, run[i].stack) && Distinct(run[i].stack)
    ensures multiset(run[i].stack) + multiset(run[i].popped) == multiset(run[i].pushed)
  {
    RunInv(run, i);
    RunBalanced(run, i);
  }

  lemma {:induction false} CountedOnce(q: seq<Node>)
    ensures Distinct(q) <==> forall n :: multiset(q)[n] <= 1
    decreases |q|
  {
    if q != [] {
      var front, x := q[..|q| - 1], q[|q| - 1];
      assert q == front + [x];
      CountedOnce(front);
      if x in front {
        var i :| 0 <= i < |front| && front[i] == x;
        assert q[i] == q[|q| - 1] && multiset(front)[x] >= 1 && multiset(q)[x] >= 2;
      } else {
        assert multiset(front)[x] == 0;
        assert Distinct(q) <==> Distinct(front);
        assert forall n | n != x :: multiset(q)[n] == multiset(front)[n];
      }
    }
  }

  /** In particular, if no node was linked in twice then none was handed out
      twice, and none that was handed out is still linked. */
  lemma PushedOncePoppedOnce(run: seq<State>, i: nat)
    requires Run(run, true) && i < |run| && Distinct(run[i].pushed)
    ensures Distinct(run[i].stack + run[i].popped)
  {
    RunBalanced(run, i);
    CountedOnce(run[i].pushed);
    CountedOnce(run[i].stack + run[i].popped);
  }

  // Every node about has come in by a call of push.
  ghost predicate Known(s: State) {
    && (forall n | n in s.stack :: n in s.used)
    && (forall t, n | t in s.thr && (Carries(s.thr[t], n) || Sees(s.thr[t], n)) :: n in s.used)
  }

  lemma KnownStep(s: State, s': State, t: Tid)
    requires Inv(s) && Known(s) && Step(s, s', t, true)
    ensures Known(s')
  {
    StepPerforms(s, s', t);
    assert s.top.To? ==> s.top.node in s.stack;
    assert forall n :: Carries(s'.thr[t], n) ==> Carries(s.thr[t], n) || n in s'.used;
    assert forall n :: Sees(s'.thr[t], n) ==> Sees(s.thr[t], n) || n in s.stack;
  }

  /** A node that no push has been called with is usable, so calling push at most
      once with each node is one way to be careful. */
  lemma {:induction false} FreshIsUsable(run: seq<State>, i: nat)
    requires Run(run, true) && i < |run|
    ensures Known(run[i]) && forall n :: n !in run[i].used ==> Usable(run[i], n)
  {
    assert Runs.Lawful(run, Init, Steps(true), i);
    if i > 0 {
      FreshIsUsable(run, i - 1);
      RunInv(run, i - 1);
      var t :| Step(run[i - 1], run[i], t, true);
      KnownStep(run[i - 1], run[i], t);
    }
  }

  /** pop returns nullptr only at a moment when the stack is empty. */
  lemma NullOnlyWhenEmpty(run: seq<State>, i: nat, s': State, t: Tid)
    requires Run(run, true) && i < |run| && Step(run[i], s', t, true)
    requires (run[i].thr[t].CLoadTop? || run[i].thr[t].CCas?) && s'.thr[t] == Idle && s'.popped == run[i].popped
    ensures run[i].stack == []
  {
    RunInv(run, i);
  }

  // ---------------------------------------------------------------- without care

  /** What the step itself has to find for the chain to stay in order. */
  ghost predicate Harmless(s: State, s': State, t: Tid)
    requires t in s.thr
  {
    match s.thr[t]
    case PStoreNext(n, seen) => n in s.stack ==> n in s.next && s.next[n] == seen
    case PCas(n, _) => s'.pushed != s.pushed ==> n in s.next && s.next[n] == s.top
    case CCas(n, nxt) => s'.popped != s.popped ==> n in s.next && s.next[n] == nxt
    case _ => true
  }

  /** Whatever nodes pushes are called with, a step keeps the chain in order
      exactly when it is harmless: a node on the stack gets the link it has, a
      push links to the top, a pop installs the top's current successor. */
  lemma StepKeepsChainIff(s: State, s': State, t: Tid)
    requires Chain(s.next, s.top, s.stack) && Step(s, s', t, false)
    ensures Chain(s'.next, s'.top, s'.stack) <==> Harmless(s, s', t)
  {
    match s.thr[t] {
      case PStoreNext(n, seen) => StoreKeepsChainIff(s.next, s.top, s.stack, n, seen);
      case PCas(n, _) =>
        if s'.pushed != s.pushed {
          LinkKeepsChainIff(s.next, s.top, s.stack, n);
        }
      case CCas(n, nxt) =>
        if s'.popped != s.popped {
          assert s.stack != [] && s.stack[0] == n;
          ChainShrinks(s.next, s.top, s.stack);
        }
      case _ =>
    }
  }

  lemma StoreKeepsChainIff(next: map<Node, Link>, top: Link, stack: seq<Node>, n: Node, l: Link)
    requires Chain(next, top, stack)
    ensures Chain(next[n := l], top, stack) <==> (n in stack ==> n in next && next[n] == l)
  {
    if n !in stack {
      ChainElsewhere(next, top, stack, n, l);
    } else {
      var i :| 0 <= i < |stack| && stack[i] == n;
      assert next[n] == Link0(stack[i + 1..]);
    }
  }

  lemma LinkKeepsChainIff(next: map<Node, Link>, top: Link, stack: seq<Node>, n: Node)
    requires Chain(next, top, stack)
    ensures Chain(next, To(n), [n] + stack) <==> n in next && next[n] == top
  {
    var longer := [n] + stack;
    assert longer[0] == n && longer[1..] == stack;
    if n in next && next[n] == top {
      ChainGrows(next, top, stack, n);
    }
  }

  ghost predicate InOrder(s: State) {
    Chain(s.next, s.top, s.stack)
  }

  ghost predicate HarmlessBy(s: State, s': State, t: Tid) {
    Step(s, s', t, false) ==> Harmless(s, s', t)
  }

  ghost predicate HarmlessStep(s: State, s': State) {
    forall t :: HarmlessBy(s, s', t)
  }

  lemma NextKeepsChainIff(s: State, s': State)
    requires Next(s, s', false) && InOrder(s)
    ensures InOrder(s') <==> HarmlessStep(s, s')
  {
    var t :| Step(s, s', t, false);
    StepKeepsChainIff(s, s', t);
    assert HarmlessBy(s, s', t) <==> InOrder(s');
    forall u
      ensures Step(s, s', u, false) ==> (HarmlessBy(s, s', u) <==> InOrder(s'))
    {
      if Step(s, s', u, false) {
        StepKeepsChainIff(s, s', u);
      }
    }
  }

  /** Over a whole run of careless pushes: the chain is in order throughout
      exactly when every step up to then was harmless. */
  lemma {:induction false} RunKeepsChainIff(run: seq<State>, n: nat)
    requires Run(run, false) && n < |run|
    ensures (forall i: nat | i <= n :: InOrder(run[i])) <==> (forall i: nat | i < n :: HarmlessStep(run[i], run[i + 1]))
  {
    if n == 0 {
      assert Runs.Lawful(run, Init, Steps(false), 0);
      assert InOrder(run[0]);
    } else {
      RunKeepsChainIff(run, n - 1);
      if InOrder(run[n - 1]) {
        assert Runs.Lawful(run, Init, Steps(false), n);
        NextKeepsChainIff(run[n - 1], run[n]);
      }
    }
  }

  /** A push of a node that is on the stack always breaks the chain as it stores
      the node's new link. */
  lemma StackedNodeBreaksTheChain(s: State, s': State, t: Tid)
    requires Chain(s.next, s.top, s.stack) && Distinct(s.stack) && Step(s, s', t, false)
    requires s.thr[t].PStoreNext? && s.thr[t].n in s.stack && s.thr[t].seen == s.top
    ensures !Chain(s'.next, s'.top, s'.stack)
  {
    var n := s.thr[t].n;
    var i :| 0 <= i < |s.stack| && s.stack[i] == n;
    assert s.next[n] == Link0(s.stack[i + 1..]) && s.top == To(s.stack[0]);
    assert i + 1 < |s.stack| ==> s.stack[i + 1..][0] == s.stack[i + 1];
    StepKeepsChainIff(s, s', t);
  }

  function Set(s: State, t: Tid, pc: Pc): State {
    s.(thr := s.thr[t := pc])
  }

  function Last(run: seq<State>): State
    requires run != []
  {
    run[|run| - 1]
  }

  lemma Extend(run: seq<State>, s': State, t: Tid, careful: bool) returns (run': seq<State>)
    requires Run(run, careful) && Step(Last(run), s', t, careful)
    ensures run' == run + [s'] && Run(run', careful)
  {
    assert Next(Last(run), s', careful);
    run' := Runs.Extend(run, s', Init, Steps(careful));
  }

  lemma PushAlone(run: seq<State>, t: Tid, n: Node, careful: bool) returns (run': seq<State>)
    requires Run(run, careful) && t in Last(run).thr && Last(run).thr[t] == Idle
    requires careful ==> Usable(Last(run), n)
    ensures Run(run', careful) && run <= run' && |run'| > |run|
    ensures run'[|run|] == Set(Last(run), t, PLoadTop(n)).(used := Last(run).used + {n})
    ensures var s := Last(run); Last(run') == LinkIn(s, n).(next := s.next[n := s.top], used := s.used + {n})
  {
    var s := Last(run);
    var s1 := Set(s, t, PLoadTop(n)).(used := s.used + {n});
    var s2 := Set(s1, t, PStoreNext(n, s.top));
    var s3 := Set(s2, t, PCas(n, s.top)).(next := s.next[n := s.top]);
    run' := Extend(run, s1, t, careful);
    run' := Extend(run', s2, t, careful);
    run' := Extend(run', s3, t, careful);
    run' := Extend(run', LinkIn(Set(s3, t, Idle), n), t, careful);
    assert s.thr[t := Idle] == s.thr;
  }

  // A pop up to, not including, its compare-and-swap.
  lemma PopHalfway(run: seq<State>, t: Tid, careful: bool) returns (run': seq<State>)
    requires Run(run, careful) && t in Last(run).thr && Last(run).thr[t] == Idle
    requires Last(run).top.To? && Last(run).top.node in Last(run).next
    ensures Run(run', careful) && run <= run'
    ensures var s := Last(run); Last(run') == Set(s, t, CCas(s.top.node, s.next[s.top.node]))
  {
    var s := Last(run);
    run' := Extend(run, Set(s, t, CLoadTop), t, careful);
    run' := Extend(run', Set(s, t, CLoadNext(s.top.node)), t, careful);
    run' := Extend(run', Set(s, t, CCas(s.top.node, s.next[s.top.node])), t, careful);
  }

  lemma PopFinishes(run: seq<State>, t: Tid, careful: bool) returns (run': seq<State>)
    requires Run(run, careful) && t in Last(run).thr && Last(run).thr[t].CCas?
    requires Last(run).top == To(Last(run).thr[t].top)
    ensures Run(run', careful) && run <= run'
    ensures var s := Last(run); Last(run') == TakeOff(Set(s, t, Idle), s.thr[t].top, s.thr[t].nxt)
  {
    var s := Last(run);
    run' := Extend(run, TakeOff(Set(s, t, Idle), s.thr[t].top, s.thr[t].nxt), t, careful);
  }

  lemma AnyRun(run: seq<State>)
    requires Run(run, true)
    ensures Run(run, false)
  {
    forall i: nat | i < |run|
      ensures Runs.Lawful(run, Init, Steps(false), i)
    {
      assert Runs.Lawful(run, Init, Steps(true), i);
      if i > 0 {
        var t :| Step(run[i - 1], run[i], t, true);
        assert Step(run[i - 1], run[i], t, false);
      }
    }
  }

  lemma TwoStacked() returns (run: seq<State>)
    ensures Run(run, true)
    ensures var s := Last(run);
            && s.top == To(1) && s.stack == [1, 2] && s.popped == []
            && s.next == map[1 := To(2), 2 := Null] && s.thr == map[0 := Idle, 1 := Idle]
  {
    run := [State(Null, map[], map[0 := Idle, 1 := Idle], [], [], [], {})];
    Runs.Start(run[0], Init, Steps(true));
    run := PushAlone(run, 1, 2, true);
    run := PushAlone(run, 1, 1, true);
  }

  // Thread 1 pushes 2 and 1; thread 0 reads 1 and its successor 2; thread 1 pops both.
  lemma PausedPop() returns (run: seq<State>)
    ensures Run(run, true)
    ensures var s := Last(run);
            && s.top == Null && s.stack == [] && s.popped == [1, 2]
            && s.thr == map[0 := CCas(1, To(2)), 1 := Idle]
  {
    run := TwoStacked();
    run := PopHalfway(run, 0, true);
    run := PopHalfway(run, 1, true);
    run := PopFinishes(run, 1, true);
    run := PopHalfway(run, 1, true);
    run := PopFinishes(run, 1, true);
  }

  /** One push without care is enough.  With 1 on top of 2, thread 0 reads top 1
      and its successor 2 and pauses; thread 1 pops both.  So far every push was
      careful, and 1 is neither stacked nor carried.  Thread 1 pushes 1 again
      although thread 0 has seen it; thread 0's compare-and-swap then succeeds
      and makes node 2, which has been handed out, the top. */
  lemma ReuseBreaksTheStack() returns (before: seq<State>, run: seq<State>)
    ensures Run(before, true) && Run(run, false) && before <= run && |before| < |run|
    ensures Last(before).stack == [] && Last(before).thr == map[0 := CCas(1, To(2)), 1 := Idle]
    ensures 1 in run[|before|].thr && run[|before|].thr[1] == PLoadTop(1)
    ensures Last(run).top == To(2) && 2 in Last(run).popped && Last(run).stack == []
    ensures !InOrder(Last(run))
  {
    before := PausedPop();
    AnyRun(before);
    run := PushAlone(before, 1, 1, false);
    run := PopFinishes(run, 0, false);
    assert Last(before).popped[1] == 2;
  }
}
