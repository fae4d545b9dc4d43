/** What is in the chunks: the sender copies a large message into the chunk it has
    acquired, and the receiver works out where to look from what it was sent. */
module ChunkPayload {
  import opened Ring
  import opened ChunkLayout

  // The byte at each offset into the mapped chunks.
  type Memory = nat -> Byte

  function Copied(mem: Memory, at: nat, bytes: Msg): Memory {
    (o: nat) => if at <= o < at + |bytes| then bytes[o - at] else mem(o)
  }

  function Slice(mem: Memory, at: nat, n: nat): (m: Msg)
    ensures |m| == n
  {
    seq(n, k requires 0 <= k < n => mem(at + k))
  }

  // send, for a message of its own size or one that shares its chunks.
  function StoredIn(mem: Memory, chunkSize: nat, id: nat, msg: Msg): Memory {
    Copied(mem, DataAt(chunkSize, id), msg)
  }

  // The buffer that recv lends, for the remain_ it was sent.
  function Lent(mem: Memory, id: nat, remain: int): Msg {
    var size := ReceivedSize(remain);
    if size < 0 then [] else Slice(mem, DataAt(CalcChunkSize(size), id), size)
  }

  lemma CopyReadsBack(mem: Memory, at: nat, bytes: Msg)
    ensures Slice(Copied(mem, at, bytes), at, |bytes|) == bytes
  {
  }

  lemma CopyElsewhere(mem: Memory, at: nat, bytes: Msg, lo: nat, n: nat)
    requires lo + n <= at || at + |bytes| <= lo
    ensures Slice(Copied(mem, at, bytes), lo, n) == Slice(mem, lo, n)
  {
  }

  // The payload areas of two chunks are apart.
  lemma PayloadsApart(c: nat, i: nat, j: nat, n: nat)
    requires i < j && DataAt(c, 0) + n <= c
    ensures DataAt(c, i) + n <= DataAt(c, j)
  {
    ScaleUp(c, i, j);
  }

  /** The receiver reads the message in the chunk it works out, whatever is stored
      in another chunk of that size meanwhile. */
  lemma LentBufferIsTheMessage(mem: Memory, id: nat, msg: Msg, other: nat, bytes: Msg)
    requires id != other && |msg| < 0x8000_0000
    requires DataAt(CalcChunkSize(|msg|), 0) + |bytes| <= CalcChunkSize(|msg|)
    ensures ReceivedSize(SentRemain(|msg|)) == |msg|
    ensures var c := CalcChunkSize(|msg|);
            Lent(StoredIn(StoredIn(mem, c, id, msg), c, other, bytes), id, SentRemain(|msg|)) == msg
  {
    var c := CalcChunkSize(|msg|);
    SizeIsRecovered(|msg|);
    ChunkHoldsTheMessage(|msg|);
    if id < other {
      PayloadsApart(c, id, other, |msg|);
    } else {
      PayloadsApart(c, other, id, |bytes|);
    }
    CopyReadsBack(mem, DataAt(c, id), msg);
    CopyElsewhere(StoredIn(mem, c, id, msg), DataAt(c, other), bytes, DataAt(c, id), |msg|);
  }
}
