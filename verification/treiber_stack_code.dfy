/** push and pop of the lock-free stack as code over the shared top and the
    nodes' next fields, with the other threads running before every access.  A
    retry is paid for by somebody else's step or by a spurious failure, of which
    finitely many happen while a call runs. */
module TreiberStackCode {
  import opened TreiberStack
  import Runs

  ghost predicate Reachable(s: State) {
    Runs.Reachable(s, Init, Steps(true))
  }

  lemma ReachableInv(s: State)
    requires Reachable(s)
    ensures Inv(s)
  {
    var run := Runs.Witness(s, Init, Steps(true));
    RunInv(run, |run| - 1);
  }

  // What top_ says of the stack.
  lemma TopIsFirst(s: State)
    requires Reachable(s)
    ensures match s.top
            case Null => s.stack == []
            case To(n) => s.stack != [] && s.stack == [n] + s.stack[1..] && n !in s.stack[1..]
  {
    ReachableInv(s);
  }

  lemma ReachableStep(s: State, s': State, t: Tid)
    requires Reachable(s) && Step(s, s', t, true)
    ensures Reachable(s')
  {
    assert Next(s, s', true);
    Runs.ReachableStep(s, s', Init, Steps(true));
  }

  /** What steps never take back. */
  ghost predicate Grows(s: State, s': State) {
    s.pushed <= s'.pushed && s.popped <= s'.popped && s.next.Keys <= s'.next.Keys
  }

  lemma StepGrows(s: State, s': State, t: Tid)
    requires Step(s, s', t, true)
    ensures Grows(s, s')
  {
  }

  ghost predicate OtherStep(s: State, s': State, t: Tid) {
    exists u :: u != t && Step(s, s', u, true)
  }

  /** Any sequence of steps by threads other than `t` keeps to the contract of
      Stack.Others. */
  lemma {:induction false} OthersKeepTheirContract(path: seq<State>, t: Tid, n: nat)
    requires n < |path| && Reachable(path[0]) && t in path[0].thr
    requires forall i | 0 < i < |path| :: OtherStep(path[i - 1], path[i], t)
    ensures var s, s' := path[0], path[n];
            Reachable(s') && t in s'.thr && s'.thr[t] == s.thr[t] && Grows(s, s')
  {
    if n > 0 {
      OthersKeepTheirContract(path, t, n - 1);
      var s, s' := path[n - 1], path[n];
      assert OtherStep(s, s', t);
      var u :| u != t && Step(s, s', u, true);
      StepGrows(s, s', u);
      ReachableStep(s, s', u);
    }
  }

  class Stack {
    var top: Link
    var next: map<Node, Link>
    ghost var st: State
    // Steps that the other threads still take, and failures that still happen.
    ghost var credit: nat
    // How often the thread whose call this is has pushed and popped.
    ghost var links: nat
    ghost var takes: nat

    /** An empty stack for the given threads. */
    constructor (ghost threads: set<Tid>)
      ensures Valid() && st.stack == [] && st.used == {}
      ensures st.thr.Keys == threads && forall t | t in threads :: At(t, Idle)
    {
      top, next := Null, map[];
      st := State(Null, map[], map t | t in threads :: Idle, [], [], [], {});
      credit, links, takes := *, 0, 0;
      new;
      Runs.ReachableStart(st, Init, Steps(true));
    }

    // Nothing is taken back, and the caller pushed and popped this often.
    twostate predicate Did(linked: nat, took: nat)
      reads this
    {
      Grows(old(st), st) && links == old(links) + linked && takes == old(takes) + took
    }

    ghost predicate Valid()
      reads this
    {
      Reachable(st) && st.top == top && st.next == next
    }

    ghost predicate At(t: Tid, pc: Pc)
      reads this
    {
      t in st.thr && st.thr[t] == pc
    }

    // Nobody else has moved, or less credit is left.
    twostate predicate Paid(before: State)
      reads this
    {
      credit <= old(credit) && (credit == old(credit) ==> st == before)
    }

    /** Before an access the other threads take any number of steps. */
    method Others(t: Tid)
      requires Valid() && t in st.thr
      modifies this
      ensures Valid() && At(t, old(st.thr[t])) && Did(0, 0) && Paid(old(st))
    {
    }

    // Whether a weak compare-and-swap fails for no reason.
    method Spurious() returns (b: bool)
      modifies `credit
      ensures credit <= old(credit) && (b ==> credit < old(credit))
    {
      b := false;
    }

    ghost method Moves(t: Tid, s': State)
      requires Reachable(st) && Step(st, s', t, true)
      modifies `st, `links, `takes
      ensures st == s' && Reachable(st)
      ensures Did(if s'.pushed == old(st.pushed) then 0 else 1, if s'.popped == old(st.popped) then 0 else 1)
    {
      StepGrows(st, s', t);
      ReachableStep(st, s', t);
      links := if s'.pushed == st.pushed then links else links + 1;
      takes := if s'.popped == st.popped then takes else takes + 1;
      st := s';
    }

    ghost method Goes(t: Tid, pc': Pc)
      requires Reachable(st) && t in st.thr && Step(st, Set(st, t, pc'), t, true)
      modifies `st, `links, `takes
      ensures st == Set(old(st), t, pc') && Reachable(st) && Did(0, 0)
    {
      Moves(t, Set(st, t, pc'));
    }

    // -------------------------------------------------------------- push

    method StoreNext(t: Tid, n: Node, seen: Link)
      requires Valid() && At(t, PStoreNext(n, seen))
      modifies this
      ensures Valid() && At(t, PCas(n, seen)) && Did(0, 0)
      ensures credit <= old(credit)
      ensures credit == old(credit) ==> st.stack == old(st.stack) && st.top == old(st.top)
    {
      Others(t);
      next := next[n := seen];
      Moves(t, Set(st, t, PCas(n, seen)).(next := next));
    }

    method CasOntoTop(t: Tid, n: Node, seen: Link) returns (ok: bool, now: Link)
      requires Valid() && At(t, PCas(n, seen))
      modifies this
      ensures Valid() && At(t, if ok then Idle else PStoreNext(n, now)) && Did(if ok then 1 else 0, 0)
      ensures credit <= old(credit)
      ensures ok ==> Put(old(st), st, n) && (credit == old(credit) ==> st.stack == [n] + old(st.stack))
      ensures !ok ==> now == top && (credit < old(credit) || old(top) != seen)
    {
      Others(t);
      var fails := Spurious();
      now := top;
      ok := top == seen && !fails;
      if ok {
        Moves(t, LinkIn(Set(st, t, Idle), n));
        assert st.pushed[|st.pushed| - 1] == n;
        top := To(n);
      } else {
        Goes(t, PStoreNext(n, now));
      }
    }

    /** push, for a usable node.  It links the node in once; with no interference
        the node is the new top. */
    method PushNode(t: Tid, n: Node)
      requires Valid() && At(t, Idle) && Usable(st, n)
      modifies this
      ensures Valid() && At(t, Idle) && Did(1, 0) && Put(old(st), st, n)
      ensures credit >= old(credit) ==> st.stack == [n] + old(st.stack)
    {
      Moves(t, Set(st, t, PLoadTop(n)).(used := st.used + {n}));
      Others(t);
      var seen := top;
      Goes(t, PStoreNext(n, seen));
      var ok := false;
      while !ok
        invariant Valid() && At(t, if ok then Idle else PStoreNext(n, seen)) && Did(if ok then 1 else 0, 0)
        invariant credit <= old(credit) && (ok ==> Put(old(st), st, n))
        invariant credit == old(credit) ==>
          if ok then st.stack == [n] + old(st.stack) else st.stack == old(st.stack) && seen == top
        decreases !ok, credit, seen != top
      {
        StoreNext(t, n, seen);
        ok, seen := CasOntoTop(t, n, seen);
      }
    }

    // -------------------------------------------------------------- pop

    method LoadNext(t: Tid, node: Node) returns (nxt: Link)
      requires Valid() && At(t, CLoadNext(node))
      modifies this
      ensures Valid() && At(t, CCas(node, nxt)) && Did(0, 0)
      ensures credit <= old(credit)
      ensures credit == old(credit) ==> st.stack == old(st.stack) && st.top == old(st.top)
    {
      Others(t);
      ReachableInv(st);
      assert PcOk(st.next, st.thr[t]);
      nxt := next[node];
      Goes(t, CCas(node, nxt));
    }

    method CasOffTop(t: Tid, node: Node, nxt: Link) returns (ok: bool, now: Link)
      requires Valid() && At(t, CCas(node, nxt))
      modifies this
      ensures Valid() && At(t, if ok then Idle else Consider(now)) && Did(0, if ok then 1 else 0)
      ensures credit <= old(credit)
      ensures ok ==> Taken(old(st), st, node) && (credit == old(credit) ==> old(st.stack) == [node] + st.stack)
      ensures !ok && now == Null ==> st.stack == []
      ensures !ok ==> now == top && (credit < old(credit) || old(top) != To(node))
    {
      Others(t);
      ghost var before := st;
      TopIsFirst(before);
      var fails := Spurious();
      now := top;
      ok := top == To(node) && !fails;
      if ok {
        Moves(t, TakeOff(Set(st, t, Idle), node, nxt));
        assert st.popped[|st.popped| - 1] == node;
        top := nxt;
      } else {
        Goes(t, Consider(now));
      }
    }

    /** pop.  It takes one node exactly when it returns one, which then no longer
        is on the stack; with no interference it was the top.  Null means that
        the stack is empty at the call's last load, whatever the others do, and
        with no interference as the call begins. */
    method PopNode(t: Tid) returns (node: Link)
      requires Valid() && At(t, Idle)
      modifies this
      ensures Valid() && At(t, Idle) && Did(0, if node.To? then 1 else 0)
      ensures if node.To? then Taken(old(st), st, node.node) else st.stack == []
      ensures credit >= old(credit) ==>
        if node.To? then old(st.stack) == [node.node] + st.stack else old(st.stack) == st.stack == []
    {
      Goes(t, CLoadTop);
      Others(t);
      ReachableInv(st);
      node := top;
      Goes(t, Consider(node));
      while node.To?
        invariant Valid() && At(t, Consider(node)) && Did(0, 0)
        invariant credit <= old(credit)
        invariant credit == old(credit) ==> st.stack == old(st.stack) && node == top
        invariant node == Null ==> st.stack == []
        decreases credit, node != top
      {
        var nxt := LoadNext(t, node.node);
        var ok, now := CasOffTop(t, node.node, nxt);
        if ok {
          return;
        }
        node := now;
      }
    }
  }

  /** n has been linked in since s. */
  ghost predicate Put(s: State, s': State, n: Node) {
    exists i: nat :: |s.pushed| <= i < |s'.pushed| && s'.pushed[i] == n
  }

  /** n has been handed out since s and is off the stack. */
  ghost predicate Taken(s: State, s': State, n: Node) {
    n !in s'.stack && exists i: nat :: |s.popped| <= i < |s'.popped| && s'.popped[i] == n
  }
}
