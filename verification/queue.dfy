/** A receiver's handle on a queue: its connection bit and its cursor, as
    connect and disconnect set them, while other handles connect and disconnect
    and messages are published.  A word of connection bits is the set of the
    positions that are 1; the bit arithmetic itself is in PackedWords.  Nobody
    but its owner clears a bit, so there is no force_push here. */
module Queue {

  // cc_t has 32 bits.
  const MAX_RECEIVERS: nat := 32

  type Bits = set<nat>

  /** The position that curr | (curr + 1) sets: the first 0 at or after `b`. */
  function LowestFree(cc: Bits, b: nat): (p: nat)
    requires b <= MAX_RECEIVERS
    ensures b <= p <= MAX_RECEIVERS && (p < MAX_RECEIVERS ==> p !in cc)
    ensures forall q | b <= q < p :: q in cc
    decreases MAX_RECEIVERS - b
  {
    if b == MAX_RECEIVERS || b !in cc then b else LowestFree(cc, b + 1)
  }

  predicate Full(cc: Bits) {
    forall b: nat | b < MAX_RECEIVERS :: b in cc
  }

  // The lowest free bit, if any.
  function Lowest(cc: Bits): (id: Bits)
    ensures id !! cc && (id == {} <==> Full(cc))
    ensures id != {} ==> exists b :: id == {b} && b < MAX_RECEIVERS
  {
    var b := LowestFree(cc, 0);
    if b == MAX_RECEIVERS then {} else {b}
  }

  /** The shared part: the connection bits and the ring's write index. */
  class Elems {
    var cc: Bits
    var wt: nat
    // Steps that the others still take, and failures that still happen.
    ghost var credit: nat
    // Every value that cc has had, the present one last.
    ghost var past: seq<Bits>

    constructor ()
      ensures Valid() && cc == {} && wt == 0
    {
      cc, wt, past := {}, 0, [{}];
    }

    ghost predicate Valid()
      reads this
    {
      past != [] && past[|past| - 1] == cc
    }

    // Nothing is taken back.
    twostate predicate Grown()
      reads this
    {
      Valid() && old(wt) <= wt && old(past) <= past && credit <= old(credit)
    }

    // cc was `seen` at some moment between then and now.
    twostate predicate WasSince(seen: Bits)
      reads this
    {
      exists i :: 0 <= |old(past)| - 1 <= i < |past| && past[i] == seen
    }

    // Nobody else has moved, or less credit is left.
    twostate predicate Paid()
      reads this
    {
      credit <= old(credit) && (credit == old(credit) ==> cc == old(cc) && wt == old(wt))
    }

    /** Before an access the others connect, disconnect and publish: they leave the
        bits of `mine` alone. */
    method Others(mine: Bits)
      requires Valid()
      modifies this
      ensures cc * mine == old(cc) * mine && Grown() && Paid()
    {
    }

    // Whether a weak compare-and-swap fails for no reason.
    method Spurious() returns (b: bool)
      modifies `credit
      ensures credit <= old(credit) && (b ==> credit < old(credit))
    {
      b := false;
    }

    method Connections(mine: Bits) returns (curr: Bits)
      requires Valid()
      modifies this
      ensures curr == cc && cc * mine == old(cc) * mine && Grown() && Paid()
    {
      Others(mine);
      curr := cc;
    }

    method Cursor(mine: Bits) returns (cur: nat)
      requires Valid()
      modifies this
      ensures old(wt) <= cur == wt && cc * mine == old(cc) * mine && Grown() && Paid()
    {
      Others(mine);
      cur := wt;
    }

    method CasConnections(curr: Bits, next: Bits) returns (ok: bool)
      requires Valid()
      modifies this
      ensures Grown() && (ok ==> WasSince(curr))
      ensures ok ==> cc == next && (credit == old(credit) ==> old(cc) == curr && wt == old(wt))
      ensures !ok ==> credit < old(credit) || old(cc) != curr
    {
      Others({});
      var fails := Spurious();
      ok := cc == curr && !fails;
      if ok {
        cc, past := next, past + [next];
        assert past[|past| - 2] == curr;
      }
    }

    /** Takes the lowest bit that is free in `seen`, the connections at the moment
        it takes it, or none if all were taken.  With no interference that is the
        moment of the call. */
    method ConnectReceiver() returns (id: Bits, ghost seen: Bits)
      requires Valid()
      modifies this
      ensures id == Lowest(seen) && Grown() && WasSince(seen)
      ensures cc == seen + id
      ensures credit == old(credit) ==> seen == old(cc) && wt == old(wt)
    {
      while true
        invariant Grown()
        invariant credit == old(credit) ==> cc == old(cc) && wt == old(wt)
        decreases credit
      {
        var curr := Connections({});
        id, seen := Lowest(curr), curr;
        if id == {} {
          assert past[|past| - 1] == seen;
          return;
        }
        var ok := CasConnections(curr, curr + id);
        if ok {
          return;
        }
      }
    }

    method DisconnectReceiver(id: Bits) returns (left: Bits)
      requires Valid()
      modifies this
      ensures left == cc && cc !! id && Grown()
      ensures credit == old(credit) ==> cc == old(cc) - id && wt == old(wt)
    {
      Others(id);
      cc, past := cc - id, past + [cc - id];
      return cc;
    }
  }

  class Handle {
    const elems: Elems
    var connected: Bits
    var cursor: nat

    constructor (elems: Elems)
      requires elems.Valid()
      ensures this.elems == elems && connected == {} && cursor == 0 && Valid()
    {
      this.elems, connected, cursor := elems, {}, 0;
    }

    // The handle has no bit, or one bit that is set.
    ghost predicate Valid()
      reads this, elems
    {
      elems.Valid() && (connected == {} || (connected <= elems.cc && exists b :: connected == {b}))
    }

    ghost predicate Connected()
      reads this, elems
    {
      connected != {}
    }

    method IsConnected() returns (yes: bool)
      requires Valid()
      modifies elems
      ensures Valid() && yes == Connected() && elems.Grown() && elems.Paid()
    {
      var cc := elems.Connections(connected);
      yes := cc * connected != {};
      ghost var b :| connected == {} || connected == {b};
      assert connected == {b} ==> b in connected && b in old(elems.cc) * connected;
    }

    /** A second connect changes nothing.  A first one takes the lowest bit that
        was free at some moment of the call and then loads the cursor, which may
        have moved on in between; it fails exactly when all 32 bits were taken at
        that moment. */
    method Connect() returns (ok: bool, ghost seen: Bits)
      requires Valid()
      modifies this, elems
      ensures Valid() && ok == Connected()
      ensures old(Connected()) ==> ok && connected == old(connected) && cursor == old(cursor)
      ensures !old(Connected()) ==> if ok then old(elems.wt) <= cursor <= elems.wt else cursor == old(cursor)
      ensures !old(Connected()) ==> elems.WasSince(seen) && connected == Lowest(seen) && (ok <==> !Full(seen))
      ensures elems.Grown()
      ensures elems.credit == old(elems.credit) ==>
        && elems.wt == old(elems.wt)
        && if old(Connected()) then elems.cc == old(elems.cc)
           else connected == Lowest(old(elems.cc)) && elems.cc == old(elems.cc) + connected
    {
      var already := IsConnected();
      if already {
        return true, {};
      }
      connected, seen := elems.ConnectReceiver();
      assert elems.WasSince(seen);
      ok := IsConnected();
      assert connected <= elems.cc;
      ghost var cc := elems.cc;
      var cur := elems.Cursor(connected);
      assert forall b | b in connected :: b in cc * connected && b in elems.cc * connected;
      if ok {
        cursor := cur;
      }
    }

    /** Gives the bit back; a handle that is not connected changes nothing. */
    method Disconnect() returns (ok: bool)
      requires Valid()
      modifies this, elems
      ensures Valid() && ok == old(Connected()) && !Connected() && cursor == old(cursor)
      ensures elems.cc !! old(connected) && elems.Grown()
      ensures elems.credit == old(elems.credit) ==> elems.cc == old(elems.cc) - old(connected)
    {
      ok := IsConnected();
      if ok {
        var id := connected;
        connected := {};
        var _ := elems.DisconnectReceiver(id);
      }
    }
  }

  /** Leaving undoes joining: without interference the connections are what they
      were before, and in any case the handle has no bit left. */
  method ConnectThenDisconnect(h: Handle) returns (joined: bool)
    requires h.Valid() && !h.Connected()
    modifies h, h.elems
    ensures h.Valid() && !h.Connected() && h.elems.credit <= old(h.elems.credit)
    ensures h.elems.credit == old(h.elems.credit) ==>
      h.elems.cc == old(h.elems.cc) && (joined <==> !Full(old(h.elems.cc)))
  {
    ghost var seen;
    joined, seen := h.Connect();
    var _ := h.Disconnect();
  }
}
