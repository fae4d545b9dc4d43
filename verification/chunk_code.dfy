/** sub_rc as code over the mask in the chunk, with the other receivers running
    before every access.  As in ChannelCode, `st` follows the transitions of
    ChunkReclaim, and finitely many foreign steps and spurious failures happen
    while a call runs. */
module ChunkCode {
  import opened ChunkReclaim
  import Runs

  ghost predicate Reachable(c: Chunk) {
    Runs.Reachable(c, Init, Step)
  }

  lemma ReachableInv(c: Chunk)
    requires Reachable(c)
    ensures Inv(c)
  {
    var run := Runs.Witness(c, Init, Step);
    RunInv(run, |run| - 1);
  }

  // Receiver r is where it was; while it refers to the chunk, so is the mask.
  ghost predicate Keeps(c: Chunk, c': Chunk, r: nat) {
    && r in c.rcv && r in c'.rcv && c'.rcv[r] == c.rcv[r]
    && (Refers(c, r) ==> c'.mask == c.mask && c'.acquired == c.acquired && c'.conns <= c.conns)
  }

  /** A step on the chunk that is not receiver r's, nor the sharing that gives it
      to r. */
  ghost predicate OtherStep(c: Chunk, c': Chunk, r: nat) {
    Step(c, c') && r in c.rcv && r in c'.rcv && c'.rcv[r] == c.rcv[r]
  }

  lemma OneOtherStep(c: Chunk, c': Chunk, r: nat)
    requires Reachable(c) && OtherStep(c, c', r)
    ensures Reachable(c') && Keeps(c, c', r)
  {
    ReachableInv(c);
    Runs.ReachableStep(c, c', Init, Step);
    ReachableInv(c');
  }

  /** Any sequence of steps that leave r where it is keeps to the contract of
      ChunkRef.Others. */
  lemma {:induction false} OthersKeepTheirContract(path: seq<Chunk>, r: nat, n: nat)
    requires n < |path| && Reachable(path[0]) && r in path[0].rcv
    requires forall i | 0 < i < |path| :: OtherStep(path[i - 1], path[i], r)
    ensures Reachable(path[n]) && Keeps(path[0], path[n], r)
  {
    if n > 0 {
      OthersKeepTheirContract(path, r, n - 1);
      OneOtherStep(path[n - 1], path[n], r);
    }
  }

  // Nobody but r refers to the chunk.
  ghost predicate OnlyReferrer(c: Chunk, r: nat) {
    forall q | q != r :: !Refers(c, q)
  }

  /** Taking r's bit out leaves the others that refer to the chunk, so nothing
      exactly when r is the only one. */
  lemma LastOneOut(c: Chunk, r: nat)
    requires Reachable(c) && Refers(c, r)
    ensures c.stage == Shared && r in c.conns && c.conns * (c.mask - {r}) == c.conns - {r}
    ensures c.conns - {r} == {} <==> OnlyReferrer(c, r)
  {
    ReachableInv(c);
    assert forall q :: q in c.conns <==> Refers(c, q);
    if q :| q in c.conns - {r} {
      assert Refers(c, q);
    } else {
      assert forall q | q != r :: q !in c.conns - {r} && q !in c.conns;
    }
  }

  // A chunk whose id has been pushed to the receivers in `mask`.
  ghost function Sent(mask: set<nat>): Chunk {
    Chunk(Shared, mask, mask, map r | r in mask :: Holds, 1, 0)
  }

  lemma SentIsReachable(mask: set<nat>)
    requires mask != {}
    ensures Reachable(Sent(mask))
  {
    var none: map<nat, RPc> := map r | r in mask :: NoRef;
    var c0 := Chunk(InPool, mask, mask, none, 0, 0);
    Runs.ReachableStart(c0, Init, Step);
    var c1 := c0.(stage := Acquired, acquired := 1);
    Runs.ReachableStep(c0, c1, Init, Step);
    var c2 := c1.(stage := Stored);
    Runs.ReachableStep(c1, c2, Init, Step);
    assert none.Keys == mask && Sent(mask).rcv == map r | r in none :: if r in mask then Holds else NoRef;
    Runs.ReachableStep(c2, Sent(mask), Init, Step);
  }

  /** The mask in a chunk. */
  class ChunkRef {
    var conns: set<nat>
    ghost var st: Chunk
    // Steps that the others still take, and failures that still happen.
    ghost var credit: nat

    /** A chunk that has been sent to the receivers in `mask`. */
    constructor (mask: set<nat>)
      requires mask != {}
      ensures Valid() && st.mask == mask && forall r | r in mask :: At(r, Holds)
    {
      conns := mask;
      st := Sent(mask);
      credit := *;
      new;
      SentIsReachable(mask);
    }

    ghost predicate Valid()
      reads this
    {
      Reachable(st) && st.conns == conns
    }

    ghost predicate At(r: nat, pc: RPc)
      reads this
    {
      r in st.rcv && st.rcv[r] == pc
    }

    /** Before an access the others take any number of steps. */
    method Others(r: nat)
      requires Valid() && r in st.rcv
      modifies this
      ensures Valid() && Keeps(old(st), st, r)
      ensures credit <= old(credit) && (credit == old(credit) ==> st == old(st))
    {
    }

    // Whether a weak compare-and-swap fails for no reason.
    method Spurious() returns (b: bool)
      modifies `credit
      ensures credit <= old(credit) && (b ==> credit < old(credit))
    {
      b := false;
    }

    ghost method Moves(r: nat, c': Chunk)
      requires Reachable(st) && r in st.rcv && r in c'.rcv && ReceiverStep(st, c', r)
      modifies `st
      ensures st == c' && Reachable(st)
    {
      Runs.ReachableStep(st, c', Init, Step);
      st := c';
    }

    // The receiver still holds the chunk, and the others have only let go of it.
    twostate predicate Holding(r: nat)
      reads this
    {
      && At(r, Holds) && st.mask == old(st.mask) && st.acquired == old(st.acquired) && conns <= old(conns)
      && credit <= old(credit) && (credit == old(credit) ==> conns == old(conns))
    }

    // The receiver has let go, and is to release the id or not.
    twostate predicate LetGo(r: nat, last: bool)
      reads this
    {
      && At(r, if last then Releasing else NoRef) && st.acquired == old(st.acquired)
      && (last <==> conns == {}) && (conns == {} <==> forall q :: !Refers(st, q))
      && r !in conns && conns <= old(conns)
      && credit <= old(credit) && (credit == old(credit) ==> conns == old(conns) - {r})
    }

    method LoadConns(r: nat) returns (seen: set<nat>)
      requires Valid() && At(r, Holds)
      modifies this
      ensures Valid() && At(r, Loaded(seen)) && st.mask == old(st.mask) && st.acquired == old(st.acquired)
      ensures seen == conns <= old(conns)
      ensures credit <= old(credit) && (credit == old(credit) ==> conns == old(conns))
    {
      Others(r);
      seen := conns;
      Moves(r, st.(rcv := st.rcv[r := Loaded(seen)]));
    }

    // The swap that succeeds.
    method TakeOut(r: nat, last: set<nat>)
      requires Valid() && At(r, Loaded(conns)) && last == st.mask - {r}
      modifies this
      ensures Valid() && LetGo(r, conns == {}) && conns == old(conns) * last && credit == old(credit)
    {
      LastOneOut(st, r);
      conns := conns * last;
      Moves(r, st.(conns := conns, rcv := st.rcv[r := if conns == {} then Releasing else NoRef]));
      assert forall q | q != r :: Refers(st, q) <==> Refers(old(st), q);
    }

    method CasConns(r: nat, seen: set<nat>, last: set<nat>) returns (ok: bool)
      requires Valid() && At(r, Loaded(seen)) && last == st.mask - {r}
      modifies this
      ensures Valid() && if ok then LetGo(r, seen * last == {}) else credit < old(credit) || old(conns) != seen
      ensures !ok ==> At(r, Holds) && st.mask == old(st.mask) && st.acquired == old(st.acquired)
      ensures !ok ==> conns <= old(conns) && credit <= old(credit)
    {
      Others(r);
      var fails := Spurious();
      ok := conns == seen && !fails;
      if ok {
        TakeOut(r, last);
      } else {
        Moves(r, st.(rcv := st.rcv[r := Holds]));
      }
    }

    /** sub_rc.  It takes the caller's bit out, however the others come and go, and
        returns true exactly when nobody then refers to the chunk any more; so a
        caller that is the only one left as it begins is told to release the id. */
    method SubRc(r: nat, currConns: set<nat>) returns (release: bool)
      requires Valid() && At(r, Holds) && currConns == st.mask
      modifies this
      ensures Valid() && LetGo(r, release)
      ensures old(OnlyReferrer(st, r)) ==> release
      ensures credit == old(credit) && release ==> old(OnlyReferrer(st, r))
    {
      LastOneOut(st, r);
      var last := currConns - {r};
      while true
        invariant Valid() && Holding(r)
        decreases credit
      {
        var seen := LoadConns(r);
        var ok := CasConns(r, seen, last);
        if ok {
          return seen * last == {};
        }
      }
    }
  }
}
