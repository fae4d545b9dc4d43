/** The chunks of one size, all together: sends take ids from the pool and write
    their messages, receivers read, recycle and release, in any order.  A lent
    buffer keeps its message until its receiver recycles it.

    `msgs` and `done` are history variables: the message of each id's current
    lifetime, and the bytes of it that have been written. */
module ChunkRuns {
  import opened Ring
  import opened ChunkLayout
  import opened ChunkPayload
  import ChunkReclaim
  import IdPool
  import Runs

  datatype Sys = Sys(
    mem: Memory,
    free: seq<nat>,
    chunks: map<nat, ChunkReclaim.Chunk>,
    msgs: map<nat, Msg>,
    done: map<nat, set<nat>>)

  ghost predicate SameIds(s: Sys) {
    s.chunks.Keys == s.msgs.Keys == s.done.Keys
  }

  // The message is one for chunks of size c.
  predicate Fits(msg: Msg, c: nat) {
    |msg| < 0x8000_0000 && CalcChunkSize(|msg|) == c
  }

  // acquire_storage takes the id, for a new message.
  ghost predicate Acquires(s: Sys, s': Sys, c: nat, id: nat)
    requires SameIds(s) && id in s.chunks && id in s'.chunks && id in s'.msgs
  {
    var x := s.chunks[id];
    && x.stage.InPool? && s.free == [id] + s'.free && Fits(s'.msgs[id], c)
    && s' == s.(chunks := s.chunks[id := x.(stage := ChunkReclaim.Acquired, acquired := x.acquired + 1)],
                free := s'.free, msgs := s.msgs[id := s'.msgs[id]], done := s.done[id := {}])
  }

  // The sender copies a byte.
  ghost predicate Copies(s: Sys, s': Sys, c: nat, id: nat, k: nat)
    requires SameIds(s) && id in s.chunks
  {
    && s.chunks[id].stage.Stored? && k < |s.msgs[id]|
    && s' == s.(mem := Copied(s.mem, DataAt(c, id) + k, [s.msgs[id][k]]), done := s.done[id := s.done[id] + {k}])
  }

  // The mask is stored, or the message that names the id is pushed.
  ghost predicate GoesOut(s: Sys, s': Sys, id: nat)
    requires SameIds(s) && id in s.chunks && id in s'.chunks
  {
    var x, x' := s.chunks[id], s'.chunks[id];
    && (x.stage.Acquired? || (x.stage.Stored? && x'.stage.Shared? && Whole(s.done[id], |s.msgs[id]|)))
    && ChunkReclaim.Step(x, x') && s' == s.(chunks := s.chunks[id := x'])
  }

  // A receiver recycles, and the last one releases the id.
  ghost predicate Recycles(s: Sys, s': Sys, id: nat)
    requires SameIds(s) && id in s.chunks && id in s'.chunks
  {
    var x, x' := s.chunks[id], s'.chunks[id];
    exists r :: r in x.rcv && r in x'.rcv && ChunkReclaim.ReceiverStep(x, x', r)
      && s' == s.(chunks := s.chunks[id := x'], free := if x'.stage.InPool? then [id] + s.free else s.free)
  }

  /** A step on the chunk `id`. */
  ghost predicate Step(s: Sys, s': Sys, c: nat, id: nat)
    requires SameIds(s)
  {
    && id in s.chunks && id in s'.chunks && id in s'.msgs
    && (|| Acquires(s, s', c, id) || (exists k :: Copies(s, s', c, id, k))
        || GoesOut(s, s', id) || Recycles(s, s', id))
  }

  ghost predicate Init(s: Sys) {
    && SameIds(s)
    && (forall id | id in s.chunks :: id < IdPool.MAX_COUNT && ChunkReclaim.Init(s.chunks[id]) && id in s.free)
    && (forall id | id in s.free :: id in s.chunks)
    && (forall i, j | 0 <= i < j < |s.free| :: s.free[i] != s.free[j])
  }

  // The bytes of chunk id that have been written are in place.
  ghost predicate InPlace(s: Sys, c: nat, id: nat)
    requires SameIds(s) && id in s.chunks
  {
    forall k | k in s.done[id] :: k < |s.msgs[id]| && s.mem(DataAt(c, id) + k) == s.msgs[id][k]
  }

  ghost predicate ChunkOk(s: Sys, c: nat, id: nat)
    requires SameIds(s) && id in s.chunks
  {
    var x := s.chunks[id];
    && id < IdPool.MAX_COUNT
    && ChunkReclaim.Inv(x)
    && (x.stage.InPool? <==> id in s.free)
    && (!x.stage.InPool? ==> Fits(s.msgs[id], c) && InPlace(s, c, id))
    && (x.stage.Shared? ==> Whole(s.done[id], |s.msgs[id]|))
  }

  ghost predicate Inv(s: Sys, c: nat) {
    && SameIds(s)
    && (forall id | id in s.chunks :: ChunkOk(s, c, id))
    && (forall id | id in s.free :: id in s.chunks)
    && (forall i, j | 0 <= i < j < |s.free| :: s.free[i] != s.free[j])
  }

  lemma InitInv(s: Sys, c: nat)
    requires Init(s)
    ensures Inv(s, c)
  {
  }

  // A byte of one message lies in no other chunk's payload.
  lemma ByteApart(c: nat, i: nat, n: nat, k: nat, j: nat, m: nat, l: nat)
    requires i != j && k < n && l < m && DataAt(c, 0) + n <= c && DataAt(c, 0) + m <= c
    ensures DataAt(c, i) + k != DataAt(c, j) + l
  {
    if i < j {
      PayloadsApart(c, i, j, n);
    } else {
      PayloadsApart(c, j, i, m);
    }
  }

  // What a step does to the chunk it is about is a step of that chunk.
  lemma OwnStep(s: Sys, s': Sys, c: nat, id: nat)
    requires SameIds(s) && Step(s, s', c, id) && s'.chunks[id] != s.chunks[id]
    ensures ChunkReclaim.Step(s.chunks[id], s'.chunks[id])
  {
  }

  lemma OwnChunk(s: Sys, s': Sys, c: nat, id: nat)
    requires Inv(s, c) && Step(s, s', c, id)
    ensures SameIds(s') && ChunkReclaim.Inv(s'.chunks[id]) && s'.chunks.Keys == s.chunks.Keys
  {
    SameIdsKept(s, s', c, id);
    assert ChunkOk(s, c, id);
    if s'.chunks[id] != s.chunks[id] {
      OwnStep(s, s', c, id);
      ChunkReclaim.StepInv(s.chunks[id], s'.chunks[id]);
    }
  }

  lemma SameIdsKept(s: Sys, s': Sys, c: nat, id: nat)
    requires SameIds(s) && Step(s, s', c, id)
    ensures SameIds(s') && s'.chunks.Keys == s.chunks.Keys
  {
  }

  // The free ids are those in the pool.
  ghost predicate FreeMatches(s: Sys, p: nat) {
    (p in s.free ==> p in s.chunks) && (p in s.chunks ==> (p in s.free <==> s.chunks[p].stage.InPool?))
  }

  lemma AcquiredFree(s: Sys, s': Sys, c: nat, id: nat, p: nat)
    requires SameIds(s) && id in s.chunks && id in s'.chunks && id in s'.msgs && Acquires(s, s', c, id)
    requires FreeMatches(s, p) && forall i, j | 0 <= i < j < |s.free| :: s.free[i] != s.free[j]
    ensures FreeMatches(s', p)
  {
    assert forall i | 0 <= i < |s'.free| :: s'.free[i] == s.free[i + 1];
    assert s.free[0] == id;
    assert p in s.free <==> p == id || p in s'.free;
  }

  lemma RecycledFree(s: Sys, s': Sys, id: nat, p: nat)
    requires SameIds(s) && id in s.chunks && id in s'.chunks && Recycles(s, s', id)
    requires FreeMatches(s, p) && FreeMatches(s, id) && ChunkReclaim.Inv(s.chunks[id])
    ensures FreeMatches(s', p)
  {
  }

  lemma SentFree(s: Sys, s': Sys, c: nat, id: nat, p: nat)
    requires SameIds(s) && id in s.chunks && id in s'.chunks && FreeMatches(s, p)
    requires FreeMatches(s, id) && ChunkReclaim.Inv(s.chunks[id])
    requires GoesOut(s, s', id) || exists k :: Copies(s, s', c, id, k)
    ensures FreeMatches(s', p)
  {
  }

  lemma FreeOk(s: Sys, s': Sys, c: nat, id: nat, p: nat)
    requires Inv(s, c) && Step(s, s', c, id)
    ensures FreeMatches(s', p)
  {
    assert ChunkOk(s, c, id) && (p in s.chunks ==> ChunkOk(s, c, p));
    assert FreeMatches(s, p) && FreeMatches(s, id);
    if Acquires(s, s', c, id) {
      AcquiredFree(s, s', c, id, p);
    } else if Recycles(s, s', id) {
      RecycledFree(s, s', id, p);
    } else {
      SentFree(s, s', c, id, p);
    }
  }

  lemma FreeDistinct(s: Sys, s': Sys, c: nat, id: nat)
    requires Inv(s, c) && Step(s, s', c, id)
    ensures forall i, j | 0 <= i < j < |s'.free| :: s'.free[i] != s'.free[j]
  {
    assert ChunkOk(s, c, id);
    if Acquires(s, s', c, id) {
      assert forall i | 0 <= i < |s'.free| :: s'.free[i] == s.free[i + 1];
    } else if Recycles(s, s', id) && s'.chunks[id].stage.InPool? {
      assert s'.free == s.free || forall i | 0 < i < |s'.free| :: s'.free[i] == s.free[i - 1];
    }
  }

  // A copied byte is in place, and takes no other out of its place.
  lemma CopyOk(s: Sys, s': Sys, c: nat, id: nat, k: nat, p: nat)
    requires SameIds(s) && id in s.chunks && p in s.chunks && Copies(s, s', c, id, k)
    requires Fits(s.msgs[id], c) && Fits(s.msgs[p], c) && InPlace(s, c, p)
    ensures SameIds(s') && InPlace(s', c, p)
  {
    ChunkHoldsTheMessage(|s.msgs[id]|);
    ChunkHoldsTheMessage(|s.msgs[p]|);
    forall l | l in s'.done[p]
      ensures l < |s'.msgs[p]| && s'.mem(DataAt(c, p) + l) == s'.msgs[p][l]
    {
      if p != id {
        ByteApart(c, id, |s.msgs[id]|, k, p, |s.msgs[p]|, l);
      }
    }
  }

  // What is in place stays in place.
  lemma PlaceOk(s: Sys, s': Sys, c: nat, id: nat, p: nat)
    requires Inv(s, c) && Step(s, s', c, id) && SameIds(s') && p in s'.chunks && p in s.chunks
    requires !s'.chunks[p].stage.InPool?
    ensures Fits(s'.msgs[p], c) && InPlace(s', c, p)
    ensures s'.chunks[p].stage.Shared? ==> Whole(s'.done[p], |s'.msgs[p]|)
  {
    assert ChunkOk(s, c, id) && ChunkOk(s, c, p);
    if k :| Copies(s, s', c, id, k) {
      CopyOk(s, s', c, id, k, p);
    }
  }

  lemma ChunksOk(s: Sys, s': Sys, c: nat, id: nat, p: nat)
    requires Inv(s, c) && Step(s, s', c, id) && SameIds(s') && s'.chunks.Keys == s.chunks.Keys && p in s'.chunks
    requires ChunkReclaim.Inv(s'.chunks[id]) && FreeMatches(s', p)
    ensures ChunkOk(s', c, p)
  {
    assert ChunkOk(s, c, p);
    if !s'.chunks[p].stage.InPool? {
      PlaceOk(s, s', c, id, p);
    }
    assert p != id ==> s'.chunks[p] == s.chunks[p];
  }

  lemma StepInv(s: Sys, s': Sys, c: nat, id: nat)
    requires Inv(s, c) && Step(s, s', c, id)
    ensures Inv(s', c)
  {
    OwnChunk(s, s', c, id);
    FreeDistinct(s, s', c, id);
    forall p
      ensures FreeMatches(s', p)
    {
      FreeOk(s, s', c, id, p);
    }
    forall p | p in s'.chunks
      ensures ChunkOk(s', c, p)
    {
      ChunksOk(s, s', c, id, p);
    }
    assert forall p | p in s'.free :: FreeMatches(s', p);
  }

  ghost predicate Next(s: Sys, s': Sys, c: nat) {
    SameIds(s) && exists id :: Step(s, s', c, id)
  }

  ghost function Steps(c: nat): (Sys, Sys) -> bool {
    (s, s') => Next(s, s', c)
  }

  ghost predicate Run(run: seq<Sys>, c: nat) {
    Runs.IsRun(run, Init, Steps(c))
  }

  lemma {:induction false} RunInv(run: seq<Sys>, c: nat, i: nat)
    requires Run(run, c) && i < |run|
    ensures Inv(run[i], c)
  {
    assert Runs.Lawful(run, Init, Steps(c), i);
    if i == 0 {
      InitInv(run[0], c);
    } else {
      RunInv(run, c, i - 1);
      var id :| Step(run[i - 1], run[i], c, id);
      StepInv(run[i - 1], run[i], c, id);
    }
  }

  // Receiver r has a buffer over chunk id.
  ghost predicate Lends(s: Sys, id: nat, r: nat) {
    id in s.chunks && ChunkReclaim.Refers(s.chunks[id], r)
  }

  /** What a receiver sees in a buffer is the message the buffer was sent for. */
  lemma LentIsWhatWasSent(s: Sys, c: nat, id: nat, r: nat)
    requires Inv(s, c) && Lends(s, id, r)
    ensures Lent(s.mem, id, SentRemain(|s.msgs[id]|)) == s.msgs[id]
  {
    assert ChunkOk(s, c, id);
    var m := s.msgs[id];
    SizeIsRecovered(|m|);
    var seen := Lent(s.mem, id, SentRemain(|m|));
    forall k: nat | k < |m|
      ensures seen[k] == m[k]
    {
      assert k in s.done[id];
    }
  }

  lemma MessageStays(s: Sys, s': Sys, c: nat, id: nat, r: nat)
    requires Inv(s, c) && Next(s, s', c) && Lends(s, id, r)
    ensures id in s.msgs && id in s'.msgs && s'.msgs[id] == s.msgs[id]
  {
    assert ChunkOk(s, c, id);
    var p :| Step(s, s', c, p);
  }

  lemma MessageStaysAt(run: seq<Sys>, c: nat, b: nat, id: nat, r: nat)
    requires Run(run, c) && 0 < b < |run| && Lends(run[b - 1], id, r)
    ensures id in run[b - 1].msgs && id in run[b].msgs && run[b].msgs[id] == run[b - 1].msgs[id]
  {
    RunInv(run, c, b - 1);
    assert Runs.Lawful(run, Init, Steps(c), b);
    MessageStays(run[b - 1], run[b], c, id, r);
  }

  lemma LentAt(run: seq<Sys>, c: nat, b: nat, id: nat, r: nat)
    requires Run(run, c) && b < |run| && Lends(run[b], id, r)
    ensures id in run[b].msgs && Lent(run[b].mem, id, SentRemain(|run[b].msgs[id]|)) == run[b].msgs[id]
  {
    RunInv(run, c, b);
    assert ChunkOk(run[b], c, id);
    LentIsWhatWasSent(run[b], c, id, r);
  }

  /** A lent buffer keeps its message until its receiver recycles it, whatever is
      sent and recycled in the meantime. */
  lemma {:induction false} LentUntilRecycled(run: seq<Sys>, c: nat, a: nat, b: nat, id: nat, r: nat)
    requires Run(run, c) && a <= b < |run| && forall i | a <= i <= b :: Lends(run[i], id, r)
    ensures id in run[a].msgs && id in run[b].msgs && run[b].msgs[id] == run[a].msgs[id]
    ensures Lent(run[b].mem, id, SentRemain(|run[a].msgs[id]|)) == run[a].msgs[id]
    decreases b
  {
    LentAt(run, c, b, id, r);
    if a < b {
      LentUntilRecycled(run, c, a, b - 1, id, r);
      assert Lends(run[b - 1], id, r);
      MessageStaysAt(run, c, b, id, r);
    }
  }
}
