/** What the five ring protocols share: the slot of a counter, bytes and
    messages, and copies that move one byte at a time in any order. */
module Ring {

  newtype Byte = b: int | 0 <= b < 256

  type Msg = seq<Byte>

  type Tid = nat

  // elem_array::elem_max: the counters are cast to 8 bits to find a slot.
  const N: nat := 256

  function Slot(c: nat): (k: nat)
    ensures k < N
  {
    c % N
  }

  lemma OneRoundOn(c: nat)
    ensures Slot(c + N) == Slot(c)
  {
  }

  lemma SameWindow(lo: nat, a: nat, b: nat)
    requires lo <= a < lo + N && lo <= b < lo + N
    ensures Slot(a) == Slot(b) <==> a == b
  {
    if a <= b {
      WithinARound(a, b);
    } else {
      WithinARound(b, a);
    }
  }

  lemma WithinARound(a: nat, b: nat)
    requires a <= b < a + N
    ensures Slot(a) == Slot(b) <==> a == b
  {
  }

  /** `done` are the bytes of `x` that have been brought to agree with `y`. */
  ghost predicate Agrees(x: Msg, y: Msg, done: set<nat>) {
    && |x| == |y|
    && (forall k | k in done :: k < |x| && x[k] == y[k])
  }

  /** Every byte of a block of `size` bytes has been moved. */
  ghost predicate Whole(done: set<nat>, size: nat) {
    forall k: nat | k < size :: k in done
  }

  lemma WholeCopyIsEqual(x: Msg, y: Msg, done: set<nat>)
    requires Agrees(x, y, done) && Whole(done, |x|)
    ensures x == y
  {
    forall k: nat | k < |x|
      ensures x[k] == y[k]
    {
      assert k in done;
    }
  }

  /** How many bytes of a block still have to be moved. */
  ghost function Left(done: set<nat>, size: nat): nat {
    |set k: nat | k < size && k !in done|
  }

  lemma OneByteFewer(done: set<nat>, size: nat, k: nat)
    requires k < size && k !in done
    ensures Left(done + {k}, size) + 1 == Left(done, size)
  {
    var left := set j: nat | j < size && j !in done;
    assert (set j: nat | j < size && j !in done + {k}) == left - {k};
    assert k in left;
  }

  lemma {:induction false} NothingMoved(size: nat)
    ensures Left({}, size) == size
  {
    var none: set<nat> := {};
    if size == 0 {
      assert (set k: nat | k < size && k !in none) == {};
    } else {
      NothingMoved(size - 1);
      assert (set k: nat | k < size && k !in none) == (set k: nat | k < size - 1 && k !in none) + {size - 1};
    }
  }
}
