/** Storage for large messages: the pool of ids, the layout of the chunks in
    shared memory, and the reclamation of a chunk by its last reader. */
module IdPool {

  // id_pool::max_count
  const MAX_COUNT: nat := 32

  ghost function Head(free: seq<nat>): nat {
    if free == [] then MAX_COUNT else free[0]
  }

  // Following next from the first free id visits exactly `free`.
  ghost predicate Strung(next: seq<nat>, free: seq<nat>) {
    && (forall i | 0 <= i < |free| :: free[i] < |next|)
    && (forall i | 0 <= i < |free| :: next[free[i]] == Head(free[i + 1..]))
  }

  lemma StrungLonger(next: seq<nat>, free: seq<nat>, id: nat)
    requires Strung(next, free) && id < |next| && id !in free
    ensures Strung(next[id := Head(free)], [id] + free)
  {
    var longer := [id] + free;
    forall i | 0 <= i < |longer|
      ensures longer[i] < |next| && next[id := Head(free)][longer[i]] == Head(longer[i + 1..])
    {
      assert longer[1..] == free;
      if i > 0 {
        assert longer[i] == free[i - 1] && longer[i + 1..] == free[i..];
        assert free[i - 1] in free;
      }
    }
  }

  lemma StrungShorter(next: seq<nat>, free: seq<nat>)
    requires Strung(next, free) && free != []
    ensures next[free[0]] == Head(free[1..]) && Strung(next, free[1..])
  {
    var rest := free[1..];
    assert forall i | 0 <= i < |rest| :: rest[i] == free[i + 1] && rest[i + 1..] == free[i + 2..];
  }

  /** The free ids as a list threaded through `next`, in place. */
  class IdPool {
    const next: array<nat>
    var cursor: nat
    var prepared: bool
    ghost var free: seq<nat>

    // Zeroed shared memory, before the first use.
    ghost predicate Raw()
      reads this, next
    {
      && next.Length == MAX_COUNT && !prepared && cursor == 0 && free == []
      && (forall i | 0 <= i < MAX_COUNT :: next[i] == 0)
    }

    // cursor, next[cursor], ... visits exactly `free` and ends at MAX_COUNT.
    ghost predicate Valid()
      reads this, next
    {
      && next.Length == MAX_COUNT && prepared
      && (forall i | 0 <= i < |free| :: free[i] < MAX_COUNT)
      && (forall i, j | 0 <= i < j < |free| :: free[i] != free[j])
      && cursor == Head(free)
      && Strung(next[..], free)
    }

    constructor ()
      ensures Raw()
    {
      next := new nat[MAX_COUNT](_ => 0);
      cursor, prepared, free := 0, false, [];
    }

    /** prepare: the first caller strings all ids together. */
    method Prepare()
      requires Raw() || Valid()
      modifies this, next
      ensures Valid()
      ensures old(prepared) ==> free == old(free)
      ensures !old(prepared) ==> free == seq(MAX_COUNT, i => i)
    {
      if !prepared {
        var i := 0;
        while i < MAX_COUNT
          invariant 0 <= i <= MAX_COUNT
          invariant forall j | 0 <= j < i :: next[j] == j + 1
          modifies next
        {
          next[i] := i + 1;
          i := i + 1;
        }
        prepared := true;
        free := seq(MAX_COUNT, j => j);
      }
    }

    /** acquire: an id that nobody holds, or -1. */
    method Acquire() returns (id: int)
      requires Valid()
      modifies this
      ensures Valid()
      ensures id == -1 <==> old(free) == []
      ensures id != -1 ==> 0 <= id < MAX_COUNT && old(free) == [id as nat] + free && id as nat !in free
      ensures id == -1 ==> free == old(free)
    {
      if cursor == MAX_COUNT {
        return -1;
      }
      id := cursor;
      cursor := next[cursor];
      StrungShorter(next[..], free);
      free := free[1..];
    }

    /** release: the id goes back to the front. */
    method Release(id: int) returns (ok: bool)
      requires Valid() && id < MAX_COUNT && (0 <= id ==> id as nat !in free)
      modifies this, next
      ensures Valid()
      ensures ok <==> 0 <= id
      ensures free == if ok then [id as nat] + old(free) else old(free)
    {
      if id < 0 {
        return false;
      }
      StrungLonger(next[..], free, id);
      next[id] := cursor;
      cursor := id;
      free := [id as nat] + free;
      return true;
    }
  }
}

module ChunkLayout {
  import opened Basics
  import Fragments
  import IdPool

  const LARGE_MSG_ALIGN: nat := 1024
  const MAX_ALIGN: nat := 16
  const CONNS_SIZE: nat := 4

  /** ipc::make_align: the next multiple. */
  function MakeAlign(align: nat, size: nat): nat
    requires align > 0
  {
    (size + align - 1) / align * align
  }

  function AlignChunkSize(size: nat): nat
    requires size > 0
  {
    ((size - 1) / LARGE_MSG_ALIGN + 1) * LARGE_MSG_ALIGN
  }

  function CalcChunkSize(size: nat): nat {
    MakeAlign(MAX_ALIGN, AlignChunkSize(MakeAlign(MAX_ALIGN, CONNS_SIZE) + size))
  }

  // chunk_info_t::at, as an offset into the chunks.
  function ChunkAt(chunkSize: nat, id: nat): nat {
    chunkSize * id
  }

  function DataAt(chunkSize: nat, id: nat): nat {
    ChunkAt(chunkSize, id) + MakeAlign(MAX_ALIGN, CONNS_SIZE)
  }

  function ChunksMemSize(chunkSize: nat): nat {
    IdPool.MAX_COUNT * chunkSize
  }

  lemma ScaleUp(c: nat, a: nat, b: nat)
    requires a < b
    ensures c * a + c <= c * b
  {
    assert c * (a + 1) == c * a + c;
    MulMono(c, a + 1, b);
  }

  lemma {:induction false} MulMono(c: nat, a: nat, b: nat)
    requires a <= b
    ensures c * a <= c * b
    decreases b
  {
    if a < b {
      MulMono(c, a, b - 1);
      assert c * b == c * (b - 1) + c;
    }
  }

  /** A chunk holds its mask of readers and then the message, aligned, and the
      slack is less than one large-message unit plus one alignment. */
  lemma ChunkHoldsTheMessage(size: nat)
    ensures var c := CalcChunkSize(size);
            && CONNS_SIZE <= MakeAlign(MAX_ALIGN, CONNS_SIZE)
            && MakeAlign(MAX_ALIGN, CONNS_SIZE) + size <= c
            && c < MakeAlign(MAX_ALIGN, CONNS_SIZE) + size + LARGE_MSG_ALIGN
            && c % MAX_ALIGN == 0
  {
    var need := MakeAlign(MAX_ALIGN, CONNS_SIZE) + size;
    assert MakeAlign(MAX_ALIGN, CONNS_SIZE) == 16;
    var units := (need - 1) / LARGE_MSG_ALIGN + 1;
    assert AlignChunkSize(need) == 16 * (64 * units);
    AlreadyAligned(64 * units);
  }

  lemma AlreadyAligned(q: nat)
    ensures MakeAlign(16, 16 * q) == 16 * q
  {
    assert (16 * q + 15) / 16 == q;
  }

  /** The masks and payloads of different ids do not overlap, and all of them lie
      inside the mapped chunks. */
  lemma ChunksAreDisjoint(size: nat, i: nat, j: nat)
    requires i < j < IdPool.MAX_COUNT
    ensures var c := CalcChunkSize(size);
            && ChunkAt(c, i) + CONNS_SIZE <= DataAt(c, i)
            && DataAt(c, i) + size <= ChunkAt(c, j)
            && DataAt(c, j) + size <= ChunksMemSize(c)
  {
    ChunkHoldsTheMessage(size);
    ScaleUp(CalcChunkSize(size), i, j);
    ScaleUp(CalcChunkSize(size), j, IdPool.MAX_COUNT);
  }

  // A conversion to std::int32_t.
  function I32(x: int): int {
    var u := x % WORD;
    if u < 0x8000_0000 then u else u - WORD
  }

  // remain_ of a large message, and the size that recv works out from it.
  function SentRemain(size: nat): int {
    I32(I32(size) - Fragments.DATA_LENGTH)
  }

  function ReceivedSize(remain: int): int {
    I32(Fragments.DATA_LENGTH + remain)
  }

  /** Sender and receiver agree on the size, hence on the chunk, exactly for
      messages below 2^31 bytes. */
  lemma SizeIsRecovered(size: nat)
    ensures ReceivedSize(SentRemain(size)) == size <==> size < 0x8000_0000
    ensures size < 0x8000_0000 ==>
              CalcChunkSize(ReceivedSize(SentRemain(size)) as nat) == CalcChunkSize(size)
  {
  }
}

/** One id of the chunk pool over its lifetimes.  `mask` is the mask of connections
    that the send of the current lifetime stored; it does not change while that
    message is under way, so it is also what each receiver reads as the current
    connections.  Another lifetime may have another mask.  `acquired` and
    `released` count. */
module ChunkReclaim {
  import Runs

  datatype RPc =
    | NoRef
    | Holds               // the message is queued for, or its buffer held by, the receiver
    | Loaded(seen: set<nat>)
    | Releasing

  datatype Stage = InPool | Acquired | Stored | Shared

  datatype Chunk = Chunk(stage: Stage, mask: set<nat>, conns: set<nat>, rcv: map<nat, RPc>, acquired: nat, released: nat)

  /** A step on one chunk. */
  ghost predicate Step(c: Chunk, c': Chunk) {
    // acquire_storage: the pool hands out the id, then the mask is stored; send
    // has seen to it that somebody is connected
    || (c.stage == InPool && c' == c.(stage := Acquired, acquired := c.acquired + 1))
    || (c.stage == Acquired && c'.mask != {} && c'.mask <= c.rcv.Keys
          && c' == c.(stage := Stored, mask := c'.mask, conns := c'.mask))
    // the message naming the id is pushed to every receiver
    || (c.stage == Stored && c' == c.(stage := Shared, rcv := map r | r in c.rcv :: if r in c.mask then Holds else NoRef))
    || (exists r :: r in c.rcv && r in c'.rcv && ReceiverStep(c, c', r))
  }

  /** sub_rc and recycle_storage by receiver `r`. */
  ghost predicate ReceiverStep(c: Chunk, c': Chunk, r: nat)
    requires r in c.rcv && r in c'.rcv
  {
    var go := c.(rcv := c.rcv[r := c'.rcv[r]]);
    match c.rcv[r]
    case NoRef => false
    case Holds => c' == go && c'.rcv[r] == Loaded(c.conns)
    case Loaded(seen) =>
      || (c.conns == seen
            && c' == go.(conns := seen * (c.mask - {r}))
            && c'.rcv[r] == if seen * (c.mask - {r}) == {} then Releasing else NoRef)
      || (c' == go && c'.rcv[r] == Holds)
    case Releasing =>
      c' == go.(stage := InPool, released := c.released + 1) && c'.rcv[r] == NoRef
  }

  ghost predicate Init(c: Chunk) {
    && c.stage == InPool && c.acquired == c.released == 0
    && (forall r | r in c.rcv :: c.rcv[r] == NoRef)
  }

  // The receiver still refers to the chunk.
  ghost predicate Refers(c: Chunk, r: nat) {
    r in c.rcv && (c.rcv[r].Holds? || c.rcv[r].Loaded?)
  }

  ghost predicate Inv(c: Chunk) {
    && c.acquired == c.released + (if c.stage == InPool then 0 else 1)
    && (c.stage == Shared ==>
          && c.mask != {} && c.mask <= c.rcv.Keys
          && c.conns == (set r | r in c.mask && Refers(c, r))
          && (forall r | r in c.rcv && c.rcv[r] != NoRef :: r in c.mask)
          && (forall r | r in c.rcv && c.rcv[r].Loaded? :: c.conns <= c.rcv[r].seen <= c.mask)
          && (c.conns != {} <==> forall r | r in c.mask :: !c.rcv[r].Releasing?)
          && (forall r, q | r in c.mask && q in c.mask && c.rcv[r].Releasing? && c.rcv[q].Releasing? :: r == q))
    && (c.stage == Stored ==> c.conns == c.mask != {} && c.mask <= c.rcv.Keys)
    && (c.stage != Shared ==> forall r | r in c.rcv :: c.rcv[r] == NoRef)
  }

  lemma LeaveInv(c: Chunk, c': Chunk, r: nat)
    requires Inv(c) && r in c.rcv && r in c'.rcv && ReceiverStep(c, c', r)
    requires c.rcv[r].Loaded? && !c'.rcv[r].Holds?
    ensures Inv(c')
  {
    assert Refers(c, r) && r in c.conns;
    assert forall q | q != r :: Refers(c', q) <==> Refers(c, q);
    assert c'.conns == c.conns - {r};
  }

  lemma StepInv(c: Chunk, c': Chunk)
    requires Inv(c) && Step(c, c')
    ensures Inv(c')
  {
    if r :| r in c.rcv && r in c'.rcv && ReceiverStep(c, c', r) {
      if c.rcv[r].Loaded? && !c'.rcv[r].Holds? {
        LeaveInv(c, c', r);
      } else if c.rcv[r].Releasing? {
        assert c.conns == {};
        assert forall q | q in c.mask :: q in c.conns <==> Refers(c, q);
      } else {
        assert forall q :: Refers(c', q) <==> Refers(c, q);
      }
    } else if c.stage == Stored {
      assert forall q :: Refers(c', q) <==> q in c.mask;
    }
  }

  ghost predicate Run(run: seq<Chunk>) {
    Runs.IsRun(run, Init, Step)
  }

  lemma {:induction false} RunInv(run: seq<Chunk>, i: nat)
    requires Run(run) && i < |run|
    ensures Inv(run[i])
  {
    assert Runs.Lawful(run, Init, Step, i);
    if i > 0 {
      RunInv(run, i - 1);
      StepInv(run[i - 1], run[i]);
    }
  }

  /** The id goes back once for each time it is handed out, and while it can be
      handed out again nobody refers to the chunk. */
  lemma NeverReusedWhileReferredTo(run: seq<Chunk>, i: nat)
    requires Run(run) && i < |run|
    ensures run[i].released <= run[i].acquired <= run[i].released + 1
    ensures run[i].stage == InPool ==> run[i].acquired == run[i].released && forall r :: !Refers(run[i], r)
  {
    RunInv(run, i);
  }

  // The receiver has been told to release the id and is about to.
  ghost predicate Releases(c: Chunk, r: nat) {
    r in c.rcv && c.rcv[r].Releasing?
  }

  /** No id is lost: a chunk that has been sent is still referred to, or else
      exactly one receiver is about to release it. */
  lemma SentIsHeldOrReleased(run: seq<Chunk>, i: nat)
    requires Run(run) && i < |run| && run[i].stage == Shared
    ensures (exists r :: Refers(run[i], r)) <==> !exists r :: Releases(run[i], r)
    ensures forall r, q | Releases(run[i], r) && Releases(run[i], q) :: r == q
  {
    RunInv(run, i);
    var c := run[i];
    assert forall q :: q in c.conns <==> Refers(c, q);
    if q :| q in c.conns {
      assert Refers(c, q);
    } else {
      var r :| r in c.mask && c.rcv[r].Releasing?;
      assert Releases(c, r);
    }
  }

  /** sub_rc tells a receiver to release the id exactly when no other receiver
      refers to the chunk. */
  lemma OnlyTheLastReleases(run: seq<Chunk>, i: nat, c': Chunk, r: nat)
    requires Run(run) && i < |run| && r in run[i].rcv && r in c'.rcv
    requires ReceiverStep(run[i], c', r) && run[i].rcv[r].Loaded? && !c'.rcv[r].Holds?
    ensures c'.rcv[r].Releasing? <==> forall q | q != r :: !Refers(run[i], q)
    ensures c'.rcv.Keys == run[i].rcv.Keys
    ensures c'.rcv[r].Releasing? ==> forall q | q in c'.rcv && q != r :: c'.rcv[q] == NoRef
  {
    RunInv(run, i);
    var c := run[i];
    assert Refers(c, r) && r in c.conns;
    assert forall q :: q in c.conns <==> Refers(c, q);
    assert c'.conns == c.conns - {r};
    if c'.conns != {} {
      var q :| q in c'.conns;
      assert q != r && Refers(c, q);
    }
    forall q | q != r && c'.conns == {}
      ensures q !in c.conns
    {
      assert q !in c'.conns;
    }
    forall q | q in c'.rcv && q != r && c'.rcv[r].Releasing?
      ensures c'.rcv[q] == NoRef
    {
      assert q !in c.conns;
      assert !Refers(c, q) && (q in c.mask ==> !c.rcv[q].Releasing?);
    }
  }
}
