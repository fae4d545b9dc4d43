/** `send` and `recv`: a message of more than 64 bytes goes into a chunk of shared
    memory, whose id is sent, if there is a free one; any other message travels
    through the ring in blocks of 64 bytes and is put together again. */
module Fragments {
  import opened Basics
  import opened Ring

  const DATA_LENGTH: nat := 64
  const LARGE_MSG_LIMIT: nat := DATA_LENGTH
  const GC_TRIGGER: nat := 1024
  const GC_DISTANCE: nat := 8192

  // std::int32_t: remain_ and the offsets in send.
  newtype int32 = x: int | -0x8000_0000 <= x < 0x8000_0000

  const MAX_SIZE: nat := 0x7fff_ffff

  // Where the bytes are: in the fragment's own block, or in the chunk it names.
  datatype Place = Inline | InChunk(chunk: int)

  datatype Frag = Frag(cc: nat, id: nat, remain: int32, data: Msg, place: Place)

  function Min(a: nat, b: nat): nat {
    if a <= b then a else b
  }

  // The zero-initialised data_ of a message with `bytes` copied to its front.
  function Block(bytes: Msg): (d: Msg)
    requires |bytes| <= DATA_LENGTH
    ensures |d| == DATA_LENGTH && d[..|bytes|] == bytes
  {
    bytes + seq(DATA_LENGTH - |bytes|, _ => 0)
  }

  // ---------------------------------------------------------------- sending

  function FragCount(size: nat): nat {
    (size + DATA_LENGTH - 1) / DATA_LENGTH
  }

  /** The j-th fragment: at most 64 bytes from 64 j, and how many bytes follow. */
  function FragAt(cc: nat, id: nat, msg: Msg, j: nat): Frag
    requires |msg| <= MAX_SIZE && j < FragCount(|msg|)
  {
    Frag(cc, id, (|msg| - DATA_LENGTH * (j + 1)) as int32,
         Block(msg[DATA_LENGTH * j..Min(DATA_LENGTH * (j + 1), |msg|)]), Inline)
  }

  function Frags(cc: nat, id: nat, msg: Msg): seq<Frag>
    requires |msg| <= MAX_SIZE
  {
    seq(FragCount(|msg|), j requires 0 <= j < FragCount(|msg|) => FragAt(cc, id, msg, j))
  }

  // The one message that stands for a large one.
  function Large(cc: nat, id: nat, msg: Msg, chunk: int): Frag
    requires |msg| <= MAX_SIZE
  {
    Frag(cc, id, (|msg| - DATA_LENGTH) as int32, Block([]), InChunk(chunk))
  }

  /** send.  `room` is the number of pushes that the queue accepts before one
      fails; `chunk` is the id that acquire_storage hands out for a large message,
      negative if it has none; `stored` is what is copied into the chunk. */
  method Send(cc: nat, id: nat, msg: Msg, room: nat, chunk: int) returns (ok: bool, sent: seq<Frag>, stored: Msg)
    requires |msg| <= MAX_SIZE
    ensures var one := |msg| > 64 && chunk >= 0;
            var all := if one then [Large(cc, id, msg, chunk)] else Frags(cc, id, msg);
            && sent == all[..Min(room, |all|)]
            && (ok <==> msg != [] && |all| <= room)
            && stored == if one then msg else []
  {
    sent, stored := [], [];
    if |msg| == 0 {
      return false, sent, stored;
    }
    var size := |msg| as int32;
    if |msg| > LARGE_MSG_LIMIT && chunk >= 0 {
      stored := msg;
      if room == 0 {
        return false, sent, stored;
      }
      return true, [Frag(cc, id, size - 64, Block([]), InChunk(chunk))], stored;
    }
    ok, sent := SendFragments(cc, id, msg, room);
  }

  /** The fragment loop of send. */
  method SendFragments(cc: nat, id: nat, msg: Msg, room: nat) returns (ok: bool, sent: seq<Frag>)
    requires 0 < |msg| <= MAX_SIZE
    ensures sent == Frags(cc, id, msg)[..Min(room, FragCount(|msg|))]
    ensures ok <==> FragCount(|msg|) <= room
  {
    sent := [];
    var size := |msg| as int32;
    var offset: int32 := 0;
    var i: int32 := 0;
    while i < size / 64
      invariant 0 <= i <= size / 64 && offset == 64 * i
      invariant i as nat <= room
      invariant sent == Frags(cc, id, msg)[..i as nat]
    {
      if |sent| == room {
        return false, sent;
      }
      sent := sent + [Frag(cc, id, size - offset - 64, Block(msg[offset as nat..offset as nat + DATA_LENGTH]), Inline)];
      i, offset := i + 1, offset + 64;
    }
    var remain := size - offset;
    if remain > 0 {
      if |sent| == room {
        return false, sent;
      }
      sent := sent + [Frag(cc, id, remain - 64, Block(msg[offset as nat..offset as nat + remain as nat]), Inline)];
    }
    return true, sent;
  }

  // ---------------------------------------------------------------- receiving

  // A message under way: its full size and the bytes filled in so far (fill_).
  datatype Cached = Cached(size: nat, bytes: Msg)

  // What one popped fragment leads recv to do.  Loan: a buffer over the first
  // `size` bytes of the payload of a chunk.
  datatype Outcome = Again | Bad | Got(buff: Cached) | Loan(chunk: int, size: nat)

  type Cache = map<nat, Cached>

  /** cache_t::append of n bytes. */
  function Append(c: Cached, data: Msg, n: nat): Cached
    requires n <= |data|
  {
    if |c.bytes| >= c.size then c
    else c.(bytes := c.bytes + data[..Min(|c.bytes| + n, c.size) - |c.bytes|])
  }

  predicate Near(a: nat, b: nat) {
    (if a < b then b - a else a - b) <= GC_DISTANCE
  }

  function Gc(cache: Cache, id: nat): Cache {
    if |cache| > GC_TRIGGER then map k | k in cache && Near(k, id) :: cache[k] else cache
  }

  function Accept(me: nat, cache: Cache, f: Frag): (Cache, Outcome)
    requires |f.data| == DATA_LENGTH
  {
    var size := DATA_LENGTH + f.remain as int;
    if f.cc == me then (cache, Again)
    else if size <= 0 then (cache, Bad)
    else if f.place.InChunk? then (cache, if f.place.chunk < 0 then Again else Loan(f.place.chunk, size))
    else if f.id !in cache then
      if size <= DATA_LENGTH then (cache, Got(Cached(size, f.data[..size])))
      else (Gc(cache, f.id)[f.id := Cached(size, f.data)], Again)
    else if f.remain <= 0 then
      (cache - {f.id}, Got(Append(cache[f.id], f.data, size)))
    else
      (cache[f.id := Append(cache[f.id], f.data, DATA_LENGTH)], Again)
  }

  predicate Blocks(stream: seq<Frag>) {
    forall f | f in stream :: |f.data| == DATA_LENGTH
  }

  /** Popping until a buffer is complete, a message is malformed, or the queue
      is empty: the new cache, the rest of the queue and the result. */
  function Drain(me: nat, cache: Cache, inbox: seq<Frag>): (Cache, seq<Frag>, Outcome)
    requires Blocks(inbox)
    decreases |inbox|
  {
    if inbox == [] then (cache, inbox, Again)
    else
      var (next, o) := Accept(me, cache, inbox[0]);
      if o == Again then Drain(me, next, inbox[1..]) else (next, inbox[1..], o)
  }

  /** A receive handle: its reassembly cache and the messages waiting for it. */
  class Receiver {
    const me: nat
    var rc: Cache
    var inbox: seq<Frag>

    constructor (me: nat)
      ensures this.me == me && rc == map[] && inbox == []
    {
      this.me := me;
      rc := map[];
      inbox := [];
    }

    /** With more than 1024 cached messages, drops every one whose id is more than
        8192 away from `id`. */
    method Collect(id: nat)
      modifies `rc
      ensures rc == Gc(old(rc), id)
      ensures forall k :: k in rc <==> k in old(rc) && (|old(rc)| <= 1024 || -8192 <= k - id <= 8192)
      ensures forall k | k in rc :: rc[k] == old(rc)[k]
    {
      if |rc| > GC_TRIGGER {
        var todo := rc.Keys;
        var needDel: set<nat> := {};
        while todo != {}
          invariant todo <= rc.Keys && needDel == (set k | k in rc.Keys - todo && !Near(k, id))
          decreases |todo|
        {
          var k :| k in todo;
          if !Near(k, id) {
            needDel := needDel + {k};
          }
          todo := todo - {k};
        }
        rc := rc - needDel;
      }
    }

    /** recv with a timeout of zero. */
    method Recv() returns (r: Outcome)
      requires Blocks(inbox)
      modifies this
      ensures (rc, inbox, r) == Drain(me, old(rc), old(inbox))
    {
      while inbox != []
        invariant Blocks(inbox)
        invariant Drain(me, rc, inbox) == Drain(me, old(rc), old(inbox))
        decreases |inbox|
      {
        var f := inbox[0];
        inbox := inbox[1..];
        if f.cc == me {
          continue;
        }
        var size := DATA_LENGTH + f.remain as int;
        if size <= 0 {
          return Bad;
        }
        if f.place.InChunk? {
          if f.place.chunk < 0 {
            continue;
          }
          return Loan(f.place.chunk, size);
        }
        if f.id !in rc {
          if size <= DATA_LENGTH {
            return Got(Cached(size, f.data[..size]));
          }
          Collect(f.id);
          rc := rc[f.id := Cached(size, f.data)];
        } else if f.remain <= 0 {
          var c := Append(rc[f.id], f.data, size);
          rc := rc - {f.id};
          return Got(c);
        } else {
          rc := rc[f.id := Append(rc[f.id], f.data, DATA_LENGTH)];
        }
      }
      return Again;
    }
  }

  /** cache_t as it sits in memory: a buffer that is filled in place. */
  class Assembly {
    var fill: nat
    const buff: array<Byte>

    ghost predicate Valid()
      reads this
    {
      fill <= buff.Length
    }

    ghost function View(): Cached
      requires Valid()
      reads this, buff
    {
      Cached(buff.Length, buff[..fill])
    }

    constructor (first: Msg, size: nat)
      requires |first| <= size
      ensures Valid() && View() == Cached(size, first)
    {
      var a := new Byte[size];
      forall k | 0 <= k < |first| {
        a[k] := first[k];
      }
      fill, buff := |first|, a;
    }

    method AppendInPlace(data: Msg, n: nat)
      requires Valid() && n <= |data|
      modifies `fill, buff
      ensures Valid() && View() == Append(old(View()), data, n)
    {
      if fill >= buff.Length || n == 0 {
        return;
      }
      var newFill := Min(fill + n, buff.Length);
      var k := fill;
      while k < newFill
        invariant fill <= k <= newFill
        invariant buff[..fill] == old(buff[..fill])
        invariant forall j | fill <= j < k :: buff[j] == data[j - fill]
      {
        buff[k] := data[k - fill];
        k := k + 1;
      }
      fill := newFill;
    }
  }

  // ---------------------------------------------------------------- round trip

  function Front(stream: seq<Frag>): seq<Frag>
    requires stream != []
  {
    stream[..|stream| - 1]
  }

  function Last(stream: seq<Frag>): Frag
    requires stream != []
  {
    stream[|stream| - 1]
  }

  /** The cache after `stream` has been received, from an empty one. */
  function After(me: nat, stream: seq<Frag>): Cache
    requires Blocks(stream)
  {
    if stream == [] then map[] else Accept(me, After(me, Front(stream)), Last(stream)).0
  }

  /** What receiving the last fragment of `stream` leads to. */
  function Yields(me: nat, stream: seq<Frag>): Outcome
    requires Blocks(stream) && stream != []
  {
    Accept(me, After(me, Front(stream)), Last(stream)).1
  }

  // How many fragments of message `id` have come.
  function Seen(stream: seq<Frag>, id: nat): nat {
    if stream == [] then 0
    else Seen(Front(stream), id) + if Last(stream).id == id then 1 else 0
  }

  ghost predicate Sendable(msgs: map<nat, Msg>) {
    forall id | id in msgs :: 1 <= |msgs[id]| <= MAX_SIZE
  }

  // Messages that take no part in reassembly: one's own, and large ones.
  ghost predicate Noise(me: nat, f: Frag) {
    |f.data| == DATA_LENGTH && (f.cc == me || f.place.InChunk?)
  }

  /** `stream` is an interleaving that keeps the fragments of each message in
      order, from senders other than `me`, with any noise in between. */
  ghost predicate Interleaves(me: nat, stream: seq<Frag>, msgs: map<nat, Msg>)
    requires Sendable(msgs)
    decreases |stream|
  {
    stream != [] ==>
      var f := Last(stream);
      && Interleaves(me, Front(stream), msgs)
      && if f.id !in msgs then Noise(me, f)
         else
           && f.cc != me && Seen(Front(stream), f.id) < FragCount(|msgs[f.id]|)
           && f == FragAt(f.cc, f.id, msgs[f.id], Seen(Front(stream), f.id))
  }

  // The messages of which some fragments have come and some have not.
  ghost function UnderWay(stream: seq<Frag>, msgs: map<nat, Msg>): set<nat> {
    set id | id in msgs && 0 < Seen(stream, id) < FragCount(|msgs[id]|)
  }

  /** Whenever a message of several fragments starts with more than 1024 others
      under way, those are at most 8192 ids away. */
  ghost predicate Close(stream: seq<Frag>, msgs: map<nat, Msg>)
    decreases |stream|
  {
    stream != [] ==>
      var f := Last(stream);
      && Close(Front(stream), msgs)
      && (f.id in msgs && Seen(Front(stream), f.id) == 0 && FragCount(|msgs[f.id]|) > 1 ==>
            || |UnderWay(Front(stream), msgs)| <= 1024
            || (forall k | k in UnderWay(Front(stream), msgs) :: -8192 <= k - f.id <= 8192))
  }

  /** The cache that reassembly ought to have: what has come of each message
      under way. */
  ghost function Expected(stream: seq<Frag>, msgs: map<nat, Msg>): Cache {
    map id | id in UnderWay(stream, msgs) :: Cached(|msgs[id]|, msgs[id][..DATA_LENGTH * Seen(stream, id)])
  }

  lemma {:induction false} InterleavedAreBlocks(me: nat, stream: seq<Frag>, msgs: map<nat, Msg>)
    requires Sendable(msgs) && Interleaves(me, stream, msgs)
    ensures Blocks(stream)
    ensures forall id | id in msgs :: Seen(stream, id) <= FragCount(|msgs[id]|)
    decreases |stream|
  {
    if stream != [] {
      InterleavedAreBlocks(me, Front(stream), msgs);
      assert stream == Front(stream) + [Last(stream)];
    }
  }

  lemma NoiseStep(me: nat, stream: seq<Frag>, msgs: map<nat, Msg>)
    requires Sendable(msgs) && Interleaves(me, stream, msgs) && Blocks(stream) && stream != []
    requires Last(stream).id !in msgs
    ensures UnderWay(stream, msgs) == UnderWay(Front(stream), msgs)
    ensures Expected(stream, msgs) == Expected(Front(stream), msgs)
    ensures After(me, stream) == After(me, Front(stream)) && !Yields(me, stream).Got?
    ensures forall id | id in msgs :: Seen(stream, id) == Seen(Front(stream), id)
  {
    assert forall k | k in msgs :: Seen(stream, k) == Seen(Front(stream), k);
  }

  /** One fragment moves exactly its own message on. */
  lemma UnderWayStep(stream: seq<Frag>, msgs: map<nat, Msg>)
    requires stream != [] && Last(stream).id in msgs
    ensures var id, n := Last(stream).id, Seen(Front(stream), Last(stream).id);
            UnderWay(stream, msgs) ==
              if 0 < n + 1 < FragCount(|msgs[id]|)
              then UnderWay(Front(stream), msgs) + {id}
              else UnderWay(Front(stream), msgs) - {id}
  {
    var id := Last(stream).id;
    assert forall k | k != id :: Seen(stream, k) == Seen(Front(stream), k);
  }

  /** What one fragment of message `m` does when the n before it are in place. */
  lemma AcceptInOrder(me: nat, cache: Cache, f: Frag, m: Msg, n: nat)
    requires 1 <= |m| <= MAX_SIZE && n < FragCount(|m|)
    requires f.cc != me && f == FragAt(f.cc, f.id, m, n)
    requires n == 0 ==> f.id !in cache
    requires n > 0 ==> f.id in cache && cache[f.id] == Cached(|m|, m[..DATA_LENGTH * n])
    ensures var (next, o) := Accept(me, cache, f);
            if n + 1 == FragCount(|m|)
            then o == Got(Cached(|m|, m)) && next == cache - {f.id}
            else o == Again && next == (if n == 0 then Gc(cache, f.id) else cache)[f.id := Cached(|m|, m[..DATA_LENGTH * (n + 1)])]
  {
    var hi := Min(DATA_LENGTH * (n + 1), |m|);
    var part := m[DATA_LENGTH * n..hi];
    assert f.data[..|part|] == part;
    assert m[..DATA_LENGTH * n] + part == m[..hi];
    assert |part| == DATA_LENGTH ==> f.data == part;
    if n + 1 == FragCount(|m|) {
      assert m[..hi] == m;
    }
  }

  /** Reassembly tracks the interleaving exactly. */
  lemma {:induction false} CacheIsExact(me: nat, stream: seq<Frag>, msgs: map<nat, Msg>)
    requires Sendable(msgs) && Interleaves(me, stream, msgs) && Blocks(stream) && Close(stream, msgs)
    ensures After(me, stream) == Expected(stream, msgs)
    decreases |stream|
  {
    if stream != [] {
      CacheIsExactStep(me, stream, msgs);
    }
  }

  lemma ExpectedStep(stream: seq<Frag>, msgs: map<nat, Msg>)
    requires stream != [] && Last(stream).id in msgs
    ensures var id, n := Last(stream).id, Seen(Front(stream), Last(stream).id);
            Expected(stream, msgs) ==
              if n + 1 < FragCount(|msgs[id]|)
              then Expected(Front(stream), msgs)[id := Cached(|msgs[id]|, msgs[id][..DATA_LENGTH * (n + 1)])]
              else Expected(Front(stream), msgs) - {id}
  {
    UnderWayStep(stream, msgs);
    assert forall k | k != Last(stream).id :: Seen(stream, k) == Seen(Front(stream), k);
  }

  /** Collection touches nothing that is under way. */
  lemma NothingCollected(stream: seq<Frag>, msgs: map<nat, Msg>)
    requires stream != [] && Close(stream, msgs) && Last(stream).id in msgs
    requires Seen(Front(stream), Last(stream).id) == 0 && FragCount(|msgs[Last(stream).id]|) > 1
    ensures Gc(Expected(Front(stream), msgs), Last(stream).id) == Expected(Front(stream), msgs)
  {
    var cache := Expected(Front(stream), msgs);
    assert cache.Keys == UnderWay(Front(stream), msgs);
    assert |cache| == |cache.Keys|;
  }

  lemma {:induction false} CacheIsExactStep(me: nat, stream: seq<Frag>, msgs: map<nat, Msg>)
    requires Sendable(msgs) && Interleaves(me, stream, msgs) && Blocks(stream) && Close(stream, msgs)
    requires stream != []
    ensures After(me, stream) == Expected(stream, msgs)
    ensures var f, n := Last(stream), Seen(Front(stream), Last(stream).id);
            if f.id !in msgs then !Yields(me, stream).Got?
            else
              Yields(me, stream) ==
                (if n + 1 == FragCount(|msgs[f.id]|) then Got(Cached(|msgs[f.id]|, msgs[f.id])) else Again)
    decreases |stream|, 0
  {
    var front, f := Front(stream), Last(stream);
    CacheIsExact(me, front, msgs);
    if f.id !in msgs {
      NoiseStep(me, stream, msgs);
      return;
    }
    var cache, m, n := Expected(front, msgs), msgs[f.id], Seen(front, f.id);
    AcceptInOrder(me, cache, f, m, n);
    ExpectedStep(stream, msgs);
    if n == 0 && FragCount(|m|) > 1 {
      NothingCollected(stream, msgs);
    }
  }

  // The number of buffers handed out for message `id`, all of them intact.
  function Intact(me: nat, stream: seq<Frag>, id: nat, msg: Msg): nat
    requires Blocks(stream)
  {
    if stream == [] then 0
    else Intact(me, Front(stream), id, msg) +
         if Last(stream).id == id && Yields(me, stream) == Got(Cached(|msg|, msg)) then 1 else 0
  }

  // The number of buffers handed out for message `id`.
  function Handed(me: nat, stream: seq<Frag>, id: nat): nat
    requires Blocks(stream)
  {
    if stream == [] then 0
    else Handed(me, Front(stream), id) + if Last(stream).id == id && Yields(me, stream).Got? then 1 else 0
  }

  /** Reassembly undoes fragmentation: a message whose fragments have all come
      has been handed out exactly once, byte for byte; one whose fragments have
      not all come has not been handed out. */
  lemma {:induction false} EachMessageComesBackOnce(me: nat, stream: seq<Frag>, msgs: map<nat, Msg>, id: nat)
    requires Sendable(msgs) && Interleaves(me, stream, msgs) && Blocks(stream) && Close(stream, msgs)
    requires id in msgs
    ensures Handed(me, stream, id) == Intact(me, stream, id, msgs[id])
              == if Seen(stream, id) == FragCount(|msgs[id]|) then 1 else 0
    decreases |stream|
  {
    if stream != [] {
      EachMessageComesBackOnce(me, Front(stream), msgs, id);
      CacheIsExactStep(me, stream, msgs);
    }
  }

  /** recv returns a buffer exactly at the last fragment of its message. */
  lemma ReturnedAtItsLastFragment(me: nat, stream: seq<Frag>, msgs: map<nat, Msg>)
    requires Sendable(msgs) && Interleaves(me, stream, msgs) && Blocks(stream) && Close(stream, msgs)
    requires stream != []
    ensures var id := Last(stream).id;
            && (Yields(me, stream).Got? <==> id in msgs && Seen(stream, id) == FragCount(|msgs[id]|))
            && (Yields(me, stream).Got? ==> Yields(me, stream).buff == Cached(|msgs[id]|, msgs[id]))
  {
    CacheIsExactStep(me, stream, msgs);
  }

  /** Received after `past`, none of `more` completes a message. */
  ghost predicate Swallowed(me: nat, past: seq<Frag>, more: seq<Frag>)
    requires Blocks(past) && Blocks(more)
    decreases |more|
  {
    more != [] ==>
      && Yields(me, past + [more[0]]) == Again
      && Swallowed(me, past + [more[0]], more[1..])
  }

  lemma AfterOneMore(me: nat, past: seq<Frag>, f: Frag)
    requires Blocks(past) && |f.data| == DATA_LENGTH
    ensures Blocks(past + [f])
    ensures Accept(me, After(me, past), f) == (After(me, past + [f]), Yields(me, past + [f]))
  {
    assert Front(past + [f]) == past && Last(past + [f]) == f;
  }

  /** From a cache that has seen `past`, a call that leads to `d` swallows n
      fragments of the queue and then returns what the next one yields, or times
      out at the end of the queue. */
  ghost predicate Walk(me: nat, past: seq<Frag>, inbox: seq<Frag>, n: nat, d: (Cache, seq<Frag>, Outcome))
    requires Blocks(past) && Blocks(inbox)
  {
    && n <= |inbox| && Swallowed(me, past, inbox[..n])
    && if n == |inbox| then d == (After(me, past + inbox), [], Again)
       else
         var upto := past + inbox[..n] + [inbox[n]];
         Yields(me, upto) != Again && d == (After(me, upto), inbox[n + 1..], Yields(me, upto))
  }

  lemma Regroup(past: seq<Frag>, inbox: seq<Frag>, n: nat)
    requires inbox != [] && n <= |inbox[1..]|
    ensures inbox[..n + 1][0] == inbox[0] && inbox[..n + 1][1..] == inbox[1..][..n]
    ensures past + [inbox[0]] + inbox[1..] == past + inbox
    ensures n < |inbox[1..]| ==>
              && past + [inbox[0]] + inbox[1..][..n] + [inbox[1..][n]] == past + inbox[..n + 1] + [inbox[n + 1]]
              && inbox[1..][n + 1..] == inbox[n + 2..]
  {
  }

  lemma WalkOn(me: nat, past: seq<Frag>, inbox: seq<Frag>, n: nat, d: (Cache, seq<Frag>, Outcome))
    requires Blocks(past) && Blocks(inbox) && inbox != [] && Yields(me, past + [inbox[0]]) == Again
    requires Walk(me, past + [inbox[0]], inbox[1..], n, d)
    ensures Walk(me, past, inbox, n + 1, d)
  {
    Regroup(past, inbox, n);
  }

  /** One call of recv walks along the stream from where the last one stopped. */
  lemma {:induction false} RecvWalksTheStream(me: nat, past: seq<Frag>, inbox: seq<Frag>) returns (n: nat)
    requires Blocks(past) && Blocks(inbox)
    ensures Walk(me, past, inbox, n, Drain(me, After(me, past), inbox))
    decreases |inbox|
  {
    n := 0;
    if inbox == [] {
      assert past + inbox == past;
    } else {
      AfterOneMore(me, past, inbox[0]);
      if Yields(me, past + [inbox[0]]) == Again {
        n := RecvWalksTheStream(me, past + [inbox[0]], inbox[1..]);
        WalkOn(me, past, inbox, n, Drain(me, After(me, past), inbox));
        n := n + 1;
      } else {
        assert past + inbox[..0] + [inbox[0]] == past + [inbox[0]];
      }
    }
  }

  /** A large message that found a chunk comes back as a buffer over that chunk, of
      the size that was sent, and reassembly does not notice it. */
  lemma LargeMessageIsLent(me: nat, cache: Cache, cc: nat, id: nat, msg: Msg, chunk: nat)
    requires 64 < |msg| <= MAX_SIZE && cc != me
    ensures Accept(me, cache, Large(cc, id, msg, chunk)) == (cache, Loan(chunk, |msg|))
  {
  }

  // ---------------------------------------------------------------- what collection costs

  /** After the first n fragments, the others are those of the message's tail. */
  lemma TailFragments(cc: nat, id: nat, m: Msg, n: nat, j: nat)
    requires |m| <= MAX_SIZE && n + j < FragCount(|m|)
    ensures DATA_LENGTH * n < |m|
    ensures j < FragCount(|m[DATA_LENGTH * n..]|) == FragCount(|m|) - n
    ensures FragAt(cc, id, m, n + j) == FragAt(cc, id, m[DATA_LENGTH * n..], j)
  {
    var tail := m[DATA_LENGTH * n..];
    var lo, hi := DATA_LENGTH * j, Min(DATA_LENGTH * (j + 1), |tail|);
    assert tail[lo..hi] == m[DATA_LENGTH * n + lo..DATA_LENGTH * n + hi];
  }

  lemma {:induction false} AloneIsClose(stream: seq<Frag>, id: nat, m: Msg)
    ensures Close(stream, map[id := m])
    decreases |stream|
  {
    if stream != [] {
      AloneIsClose(Front(stream), id, m);
      assert forall k | k in UnderWay(Front(stream), map[id := m]) :: k == id;
    }
  }

  lemma {:induction false} AloneInterleaves(me: nat, cc: nat, id: nat, m: Msg, n: nat)
    requires 1 <= |m| <= MAX_SIZE && n <= FragCount(|m|) && cc != me
    ensures var s := Frags(cc, id, m)[..n];
            Interleaves(me, s, map[id := m]) && Seen(s, id) == n
    decreases n
  {
    if n > 0 {
      AloneInterleaves(me, cc, id, m, n - 1);
      assert Front(Frags(cc, id, m)[..n]) == Frags(cc, id, m)[..n - 1];
    }
  }

  /** A message dropped from the cache after n of its fragments does come back,
      but without its first 64 n bytes: intact exactly when n is 0. */
  lemma DroppedMessageComesBackTruncated(me: nat, cc: nat, id: nat, m: Msg, n: nat)
    requires 1 <= |m| <= MAX_SIZE && n < FragCount(|m|) && cc != me
    ensures var s := Frags(cc, id, m)[n..];
            var tail := m[DATA_LENGTH * n..];
            && Blocks(s) && Yields(me, s) == Got(Cached(|tail|, tail))
            && (tail == m <==> n == 0)
  {
    TailIsAMessage(cc, id, m, n);
    WholeMessage(me, cc, id, m[DATA_LENGTH * n..], Frags(cc, id, m)[n..]);
  }

  lemma TailIsAMessage(cc: nat, id: nat, m: Msg, n: nat)
    requires |m| <= MAX_SIZE && n < FragCount(|m|)
    ensures DATA_LENGTH * n < |m|
    ensures var tail := m[DATA_LENGTH * n..]; Frags(cc, id, m)[n..] == Frags(cc, id, tail)
  {
    TailFragments(cc, id, m, n, 0);
    var s, tail := Frags(cc, id, m)[n..], m[DATA_LENGTH * n..];
    forall j: nat | j < |s|
      ensures s[j] == Frags(cc, id, tail)[j]
    {
      TailFragments(cc, id, m, n, j);
    }
  }

  lemma WholeMessage(me: nat, cc: nat, id: nat, m: Msg, s: seq<Frag>)
    requires 1 <= |m| <= MAX_SIZE && cc != me
    requires |s| == FragCount(|m|) && forall j: nat | j < |s| :: s[j] == Frags(cc, id, m)[j]
    ensures Blocks(s) && Yields(me, s) == Got(Cached(|m|, m))
  {
    assert s == Frags(cc, id, m)[..FragCount(|m|)];
    AloneInterleaves(me, cc, id, m, FragCount(|m|));
    InterleavedAreBlocks(me, s, map[id := m]);
    AloneIsClose(s, id, m);
    ReturnedAtItsLastFragment(me, s, map[id := m]);
  }

  // ---------------------------------------------------------------- exactly when nothing is lost

  /** The start of a message that makes collection drop one under way. */
  ghost predicate Drops(front: seq<Frag>, f: Frag, msgs: map<nat, Msg>, k: nat) {
    && f.id in msgs && Seen(front, f.id) == 0 && FragCount(|msgs[f.id]|) > 1
    && |UnderWay(front, msgs)| > 1024
    && k in UnderWay(front, msgs) && !(-8192 <= k - f.id <= 8192)
  }

  lemma FirstDrop(stream: seq<Frag>, msgs: map<nat, Msg>) returns (k: nat)
    requires stream != [] && Close(Front(stream), msgs) && !Close(stream, msgs)
    ensures Drops(Front(stream), Last(stream), msgs, k)
  {
    k :| k in UnderWay(Front(stream), msgs) && !(-8192 <= k - Last(stream).id <= 8192);
  }

  lemma DroppedIsGone(me: nat, stream: seq<Frag>, msgs: map<nat, Msg>, k: nat)
    requires Sendable(msgs) && Interleaves(me, stream, msgs) && Blocks(stream) && stream != []
    requires After(me, Front(stream)) == Expected(Front(stream), msgs)
    requires Drops(Front(stream), Last(stream), msgs, k)
    ensures k !in After(me, stream) && k in Expected(stream, msgs)
  {
    var cache := Expected(Front(stream), msgs);
    assert cache.Keys == UnderWay(Front(stream), msgs);
    assert |cache| == |cache.Keys|;
    AcceptInOrder(me, cache, Last(stream), msgs[Last(stream).id], 0);
    ExpectedStep(stream, msgs);
  }

  ghost predicate ExactUpTo(me: nat, stream: seq<Frag>, msgs: map<nat, Msg>)
    requires Blocks(stream)
    decreases |stream|
  {
    After(me, stream) == Expected(stream, msgs) && (stream != [] ==> ExactUpTo(me, Front(stream), msgs))
  }

  /** The cache has been exact all along if and only if no start of a message was
      too far from one under way while more than 1024 were. */
  lemma {:induction false} CacheIsExactIffClose(me: nat, stream: seq<Frag>, msgs: map<nat, Msg>)
    requires Sendable(msgs) && Interleaves(me, stream, msgs) && Blocks(stream)
    ensures ExactUpTo(me, stream, msgs) <==> Close(stream, msgs)
    decreases |stream|
  {
    if stream != [] {
      CacheIsExactIffClose(me, Front(stream), msgs);
      if Close(stream, msgs) {
        CacheIsExact(me, stream, msgs);
      } else if Close(Front(stream), msgs) {
        assert Last(stream).id in msgs;
        var k := FirstDrop(stream, msgs);
        DroppedIsGone(me, stream, msgs, k);
      }
    }
  }

  /** Message v has begun, has not been handed out intact and never will be: if
      the cache has an entry for it at all, its buffer is too small. */
  ghost predicate Lost(me: nat, stream: seq<Frag>, msgs: map<nat, Msg>, v: nat)
    requires Blocks(stream)
  {
    && v in msgs && Seen(stream, v) > 0 && Intact(me, stream, v, msgs[v]) == 0
    && (v in After(me, stream) ==> After(me, stream)[v].size < |msgs[v]|)
  }

  /** What a later fragment of a lost message leads to. */
  lemma LostStep(me: nat, cache: Cache, f: Frag, m: Msg, n: nat)
    requires 1 <= |m| <= MAX_SIZE && 0 < n < FragCount(|m|)
    requires f.cc != me && f == FragAt(f.cc, f.id, m, n)
    requires f.id in cache ==> cache[f.id].size < |m|
    ensures var (next, o) := Accept(me, cache, f);
            && (f.id in next ==> next[f.id].size < |m|)
            && (n + 1 == FragCount(|m|) ==> o.Got?)
            && (o.Got? ==> o.buff.size < |m|)
  {
  }

  lemma LostStays(me: nat, stream: seq<Frag>, msgs: map<nat, Msg>, v: nat)
    requires Sendable(msgs) && Interleaves(me, stream, msgs) && Blocks(stream) && stream != []
    requires Lost(me, Front(stream), msgs, v)
    ensures Lost(me, stream, msgs, v)
    ensures Last(stream).id == v && Seen(stream, v) == FragCount(|msgs[v]|) ==>
              Yields(me, stream).Got? && Yields(me, stream).buff.size < |msgs[v]|
  {
    var f := Last(stream);
    if f.id !in msgs {
      NoiseStep(me, stream, msgs);
    } else if f.id == v {
      LostStep(me, After(me, Front(stream)), f, msgs[v], Seen(Front(stream), v));
    }
  }

  lemma {:induction false} SomethingIsLost(me: nat, stream: seq<Frag>, msgs: map<nat, Msg>) returns (v: nat)
    requires Sendable(msgs) && Interleaves(me, stream, msgs) && Blocks(stream) && !Close(stream, msgs)
    ensures Lost(me, stream, msgs, v)
    decreases |stream|
  {
    if !Close(Front(stream), msgs) {
      v := SomethingIsLost(me, Front(stream), msgs);
      LostStays(me, stream, msgs, v);
    } else {
      v := FirstDrop(stream, msgs);
      CacheIsExact(me, Front(stream), msgs);
      DroppedIsGone(me, stream, msgs, v);
      EachMessageComesBackOnce(me, Front(stream), msgs, v);
    }
  }

  ghost predicate Complete(stream: seq<Frag>, msgs: map<nat, Msg>) {
    forall id | id in msgs :: Seen(stream, id) == FragCount(|msgs[id]|)
  }

  /** When all fragments of all messages have come, every message has come back
      intact, exactly once, if and only if the interleaving was close. */
  lemma AllComeBackIffClose(me: nat, stream: seq<Frag>, msgs: map<nat, Msg>)
    requires Sendable(msgs) && Interleaves(me, stream, msgs) && Blocks(stream) && Complete(stream, msgs)
    ensures (forall id | id in msgs :: Intact(me, stream, id, msgs[id]) == 1) <==> Close(stream, msgs)
  {
    if Close(stream, msgs) {
      forall id | id in msgs
        ensures Intact(me, stream, id, msgs[id]) == 1
      {
        EachMessageComesBackOnce(me, stream, msgs, id);
      }
    } else {
      var v := SomethingIsLost(me, stream, msgs);
      assert Intact(me, stream, v, msgs[v]) == 0;
    }
  }

  // ---- streams on which a message is lost

  ghost predicate TwoFragments(m: Msg) {
    DATA_LENGTH < |m| <= 2 * DATA_LENGTH
  }

  function Below(n: nat): (r: set<nat>)
    ensures |r| == n && forall k: nat :: k in r <==> k < n
  {
    if n == 0 then {} else Below(n - 1) + {n - 1}
  }

  // The same message under the ids 0 to n - 1 and one more.
  function Crowd(m: Msg, n: nat, far: nat): map<nat, Msg> {
    map id | id in Below(n) + {far} :: m
  }

  // The first fragments of messages 0 to k - 1.
  function Starts(m: Msg, k: nat): (s: seq<Frag>)
    requires 1 <= |m| <= MAX_SIZE
    ensures |s| == k && Blocks(s)
  {
    if k == 0 then [] else Starts(m, k - 1) + [FragAt(1, k - 1, m, 0)]
  }

  lemma StartsEnd(m: Msg, k: nat)
    requires TwoFragments(m) && k > 0
    ensures Front(Starts(m, k)) == Starts(m, k - 1) && Last(Starts(m, k)) == FragAt(1, k - 1, m, 0)
  {
  }

  lemma {:induction false} StartsInterleave(m: Msg, n: nat, far: nat, k: nat)
    requires TwoFragments(m) && k <= n <= far
    ensures Interleaves(0, Starts(m, k), Crowd(m, n, far))
    ensures forall id: nat :: Seen(Starts(m, k), id) == if id < k then 1 else 0
  {
    if k > 0 {
      StartsInterleave(m, n, far, k - 1);
      StartsEnd(m, k);
    }
  }

  lemma StartsUnderWay(m: Msg, n: nat, far: nat, k: nat)
    requires TwoFragments(m) && k <= n <= far
    ensures UnderWay(Starts(m, k), Crowd(m, n, far)) == Below(k)
  {
    StartsInterleave(m, n, far, k);
  }

  lemma {:induction false} StartsClose(m: Msg, n: nat, far: nat, k: nat)
    requires TwoFragments(m) && k <= n <= 8192 < far
    ensures Close(Starts(m, k), Crowd(m, n, far))
  {
    if k > 0 {
      StartsClose(m, n, far, k - 1);
      StartsEnd(m, k);
      StartsUnderWay(m, n, far, k - 1);
    }
  }

  // n messages have begun when a far one does.
  function FarStart(m: Msg, n: nat, far: nat): (s: seq<Frag>)
    requires 1 <= |m| <= MAX_SIZE
    ensures s != [] && Blocks(s) && Front(s) == Starts(m, n) && Last(s) == FragAt(1, far, m, 0)
  {
    Starts(m, n) + [FragAt(1, far, m, 0)]
  }

  lemma StartsAreCached(m: Msg, n: nat, far: nat)
    requires TwoFragments(m) && 0 < n <= 8192 < far
    ensures After(0, Starts(m, n)) == Expected(Starts(m, n), Crowd(m, n, far)) && 0 in After(0, Starts(m, n))
  {
    StartsInterleave(m, n, far, n);
    StartsClose(m, n, far, n);
    StartsUnderWay(m, n, far, n);
    CacheIsExact(0, Starts(m, n), Crowd(m, n, far));
    assert 0 in UnderWay(Starts(m, n), Crowd(m, n, far));
  }

  lemma FarStartInterleaves(m: Msg, n: nat, far: nat)
    requires TwoFragments(m) && 0 < n <= far
    ensures Interleaves(0, FarStart(m, n, far), Crowd(m, n, far)) && Seen(FarStart(m, n, far), 0) == 1
  {
    StartsInterleave(m, n, far, n);
  }

  lemma FarStartIsFar(m: Msg, n: nat, far: nat)
    requires TwoFragments(m) && 1024 < n <= 8192 < far
    ensures Drops(Starts(m, n), Last(FarStart(m, n, far)), Crowd(m, n, far), 0)
    ensures !Close(FarStart(m, n, far), Crowd(m, n, far))
  {
    StartsInterleave(m, n, far, n);
    StartsUnderWay(m, n, far, n);
  }

  lemma FarStartDrops(m: Msg, n: nat, far: nat)
    requires TwoFragments(m) && 1024 < n <= 8192 < far
    ensures Interleaves(0, FarStart(m, n, far), Crowd(m, n, far))
    ensures !Close(FarStart(m, n, far), Crowd(m, n, far))
    ensures 0 in After(0, Starts(m, n)) && 0 !in After(0, FarStart(m, n, far)) && Seen(FarStart(m, n, far), 0) == 1
  {
    StartsAreCached(m, n, far);
    FarStartInterleaves(m, n, far);
    FarStartIsFar(m, n, far);
    DroppedIsGone(0, FarStart(m, n, far), Crowd(m, n, far), 0);
  }

  /** With between 1025 and 8192 messages begun, the start of one whose id is more
      than 8192 away from 0 makes collection drop message 0.  Its second and last
      fragment is then taken for a message of its own, and that is what recv
      hands out: the first 64 bytes are missing. */
  lemma CollectionTruncatesAMessage(m: Msg, n: nat, far: nat) returns (stream: seq<Frag>)
    requires TwoFragments(m) && 1024 < n <= 8192 < far
    ensures Blocks(stream) && stream != [] && Front(stream) == FarStart(m, n, far)
    ensures Interleaves(0, stream, Crowd(m, n, far)) && !Close(stream, Crowd(m, n, far))
    ensures 0 in After(0, Front(FarStart(m, n, far))) && 0 !in After(0, FarStart(m, n, far))
    ensures Last(stream).id == 0 && Seen(stream, 0) == FragCount(|m|)
    ensures Yields(0, stream) == Got(Cached(|m| - DATA_LENGTH, m[DATA_LENGTH..]))
  {
    var rest := FragAt(1, 0, m, 1);
    stream := FarStart(m, n, far) + [rest];
    assert Front(stream) == FarStart(m, n, far) && Last(stream) == rest;
    FarStartDrops(m, n, far);
    SecondAlone(0, After(0, FarStart(m, n, far)), m);
  }

  lemma SecondAlone(me: nat, cache: Cache, m: Msg)
    requires TwoFragments(m) && me != 1 && 0 !in cache
    ensures Accept(me, cache, FragAt(1, 0, m, 1)).1 == Got(Cached(|m| - DATA_LENGTH, m[DATA_LENGTH..]))
  {
    var tail := m[DATA_LENGTH..];
    assert m[DATA_LENGTH..|m|] == tail;
    assert Block(tail)[..|tail|] == tail;
  }

  // ---------------------------------------------------------------- bounds

  const CACHE_LIMIT: nat := 16385

  lemma {:induction false} RangeSize(s: set<nat>, lo: nat, hi: nat)
    requires lo <= hi && forall k | k in s :: lo <= k < hi
    ensures |s| <= hi - lo
    decreases hi
  {
    if lo < hi {
      RangeSize(s - {hi - 1}, lo, hi - 1);
    } else {
      assert forall k :: k !in s;
    }
  }

  /** What collection leaves beside the new id is at most 8192 ids on each side. */
  lemma CollectedSize(cache: Cache, id: nat)
    requires id !in cache
    ensures |Gc(cache, id)| <= 2 * GC_DISTANCE
    ensures id !in Gc(cache, id)
  {
    var kept := Gc(cache, id);
    if |cache| > GC_TRIGGER {
      var lo := if id < GC_DISTANCE then 0 else id - GC_DISTANCE;
      RangeSize(kept.Keys + {id}, lo, id + GC_DISTANCE + 1);
      assert |kept| == |kept.Keys|;
    }
  }

  ghost predicate Bounded(cache: Cache) {
    && |cache| <= CACHE_LIMIT
    && (forall k | k in cache :: |cache[k].bytes| <= cache[k].size)
  }

  lemma AcceptKeepsBound(me: nat, cache: Cache, f: Frag)
    requires |f.data| == DATA_LENGTH && Bounded(cache)
    ensures Bounded(Accept(me, cache, f).0)
  {
    if f.id !in cache {
      CollectedSize(cache, f.id);
    }
    SubsetSize((cache - {f.id}).Keys, cache.Keys);
    assert |cache - {f.id}| == |(cache - {f.id}).Keys|;
  }

  /** Whatever fragments arrive, the cache holds at most 16385 messages and none
      is filled beyond its buffer. */
  lemma {:induction false} CacheStaysBounded(me: nat, stream: seq<Frag>)
    requires Blocks(stream)
    ensures Bounded(After(me, stream))
  {
    if stream != [] {
      CacheStaysBounded(me, Front(stream));
      AcceptKeepsBound(me, After(me, Front(stream)), Last(stream));
    }
  }

  /** No fragment makes an entry of another message go away or change, if the
      ids are within 8192 of each other or at most 1024 messages are cached. */
  lemma CollectionSparesTheNear(me: nat, cache: Cache, f: Frag, k: nat)
    requires |f.data| == DATA_LENGTH && k in cache && k != f.id
    requires |cache| <= 1024 || -8192 <= k - f.id <= 8192
    ensures k in Accept(me, cache, f).0 && Accept(me, cache, f).0[k] == cache[k]
  {
  }

  /** The start of a message of several fragments takes exactly the other entries
      away that collection finds too far. */
  lemma CollectionDropsTheFar(me: nat, cache: Cache, cc: nat, id: nat, m: Msg, k: nat)
    requires 64 < |m| <= MAX_SIZE && cc != me && id !in cache && k in cache
    ensures k in Accept(me, cache, FragAt(cc, id, m, 0)).0 <==> |cache| <= 1024 || -8192 <= k - id <= 8192
  {
  }

  // ---------------------------------------------------------------- what recv passes over

  // One's own messages, and large ones whose chunk id is negative.
  predicate Skipped(me: nat, f: Frag) {
    f.cc == me || (64 + f.remain as int > 0 && f.place.InChunk? && f.place.chunk < 0)
  }

  // The queue without them.
  function Foreign(me: nat, inbox: seq<Frag>): (r: seq<Frag>)
    ensures |r| <= |inbox| && forall f :: f in r <==> f in inbox && !Skipped(me, f)
  {
    if inbox == [] then []
    else (if Skipped(me, inbox[0]) then [] else [inbox[0]]) + Foreign(me, inbox[1..])
  }

  lemma PassOver(me: nat, cache: Cache, f: Frag)
    requires |f.data| == DATA_LENGTH && Skipped(me, f)
    ensures Accept(me, cache, f) == (cache, Again)
  {
  }

  lemma DrainFirst(me: nat, cache: Cache, f: Frag, others: seq<Frag>)
    requires Blocks([f] + others) && Blocks(others)
    ensures Drain(me, cache, [f] + others) ==
              var (next, o) := Accept(me, cache, f);
              if o == Again then Drain(me, next, others) else (next, others, o)
  {
    assert ([f] + others)[1..] == others;
  }

  /** recv leaves the same cache and comes to the same end whether such messages
      are in the queue or not, and leaves the same others in it. */
  lemma {:induction false} SkippedAreInvisible(me: nat, cache: Cache, inbox: seq<Frag>)
    requires Blocks(inbox)
    ensures Blocks(Foreign(me, inbox))
    ensures var d, d' := Drain(me, cache, inbox), Drain(me, cache, Foreign(me, inbox));
            d.0 == d'.0 && d.2 == d'.2 && Foreign(me, d.1) == d'.1
    decreases |inbox|
  {
    if inbox != [] {
      var f := inbox[0];
      SkippedAreInvisible(me, Accept(me, cache, f).0, inbox[1..]);
      if Skipped(me, f) {
        PassOver(me, cache, f);
        assert Foreign(me, inbox) == Foreign(me, inbox[1..]);
        assert Drain(me, cache, inbox) == Drain(me, cache, inbox[1..]);
      } else {
        assert Foreign(me, inbox) == [f] + Foreign(me, inbox[1..]);
        DrainFirst(me, cache, f, Foreign(me, inbox[1..]));
      }
    }
  }

  /** A foreign message of no size at all ends the call with nothing; what came
      before it in the queue is gone and what comes after it is left. */
  lemma {:induction false} MalformedEndsTheCall(me: nat, cache: Cache, own: seq<Frag>, bad: Frag, rest: seq<Frag>)
    requires Blocks(own + [bad] + rest) && bad.cc != me && 64 + bad.remain as int <= 0
    requires forall f | f in own :: Skipped(me, f)
    ensures Drain(me, cache, own + [bad] + rest) == (cache, rest, Bad)
    decreases |own|
  {
    var inbox := own + [bad] + rest;
    if own == [] {
      assert inbox[0] == bad && inbox[1..] == rest;
    } else {
      assert inbox[0] == own[0] && inbox[1..] == own[1..] + [bad] + rest;
      assert Skipped(me, own[0]);
      MalformedEndsTheCall(me, cache, own[1..], bad, rest);
    }
  }
}
