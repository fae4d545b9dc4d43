/** The bit arithmetic under the broadcast rings: the packed 64-bit read counter
    rc_ (8 bits of epoch, 24 bits of update counter, 32 receiver bits), the
    commit flag f_ct_, and the receiver bit that connect hands out. */
module PackedWords {
  import opened Basics
  import opened Ring

  const RC_MASK: bv64 := 0x0000_0000_ffff_ffff
  const EP_MASK: bv64 := 0x00ff_ffff_ffff_ffff
  const IC_MASK: bv64 := 0xff00_0000_ffff_ffff
  const IC_INCR: bv64 := 0x0000_0001_0000_0000

  const IC_PERIOD: nat := 0x100_0000

  function IncRc(rc: bv64): bv64 {
    (rc & IC_MASK) | ((rc + IC_INCR) & !IC_MASK)
  }

  function IncMask(rc: bv64): bv64 {
    IncRc(rc) & !RC_MASK
  }

  // The three fields.
  function Epoch(rc: bv64): bv64 { rc & !EP_MASK }

  function Ic(rc: bv64): bv24 { ((rc >> 32) & 0xff_ffff) as bv24 }

  function Readers(rc: bv64): bv64 { rc & RC_MASK }

  // ---------------------------------------------------------------- one update

  /** The word that push and force_push store: a new epoch, a new set of readers. */
  predicate Claims(rc: bv64, rc': bv64, epoch: bv64, cc: bv64) {
    && epoch & EP_MASK == 0 && cc & !RC_MASK == 0
    && rc' == IncMask(epoch | (rc & EP_MASK)) | cc
  }

  /** The word that pop stores: the reader's own bit is gone. */
  predicate Clears(rc: bv64, rc': bv64, id: bv64) {
    && id & !RC_MASK == 0
    && rc' == IncRc(rc) & !id
  }

  /** The counter goes up by one (modulo 2^24), the epoch and the readers become
      the given ones. */
  lemma ClaimFields(rc: bv64, rc': bv64, epoch: bv64, cc: bv64)
    requires Claims(rc, rc', epoch, cc)
    ensures Ic(rc') == Ic(rc) + 1
    ensures Epoch(rc') == epoch
    ensures Readers(rc') == cc
  {
  }

  /** The counter goes up by one, the epoch and the other readers stay. */
  lemma ClearFields(rc: bv64, rc': bv64, id: bv64)
    requires Clears(rc, rc', id)
    ensures Ic(rc') == Ic(rc) + 1
    ensures Epoch(rc') == Epoch(rc)
    ensures Readers(rc') == Readers(rc) & !id
  {
  }

  // ---------------------------------------------------------------- k updates

  function Low(x: bv24): bv8 { (x & 0xff) as bv8 }

  function Mid(x: bv24): bv8 { ((x >> 8) & 0xff) as bv8 }

  function High(x: bv24): bv8 { ((x >> 16) & 0xff) as bv8 }

  // The counter as a number, byte by byte.
  function Value(x: bv24): nat {
    High(x) as nat * 0x1_0000 + Mid(x) as nat * 0x100 + Low(x) as nat
  }

  lemma Carry(x: bv24)
    ensures Low(x + 1) == Low(x) + 1
    ensures Mid(x + 1) == if Low(x) == 0xff then Mid(x) + 1 else Mid(x)
    ensures High(x + 1) == if Low(x) == 0xff && Mid(x) == 0xff then High(x) + 1 else High(x)
  {
  }

  lemma NextByte(a: bv8)
    ensures a as nat < 0x100
    ensures a as nat == 0xff <==> a == 0xff
    ensures (a + 1) as nat == if a == 0xff then 0 else a as nat + 1
  {
  }

  lemma ByteSum(l: nat, m: nat, h: nat, l': nat, m': nat, h': nat)
    requires l < 0x100 && m < 0x100 && h < 0x100
    requires l' == if l == 0xff then 0 else l + 1
    requires m' == if l == 0xff then (if m == 0xff then 0 else m + 1) else m
    requires h' == if l == 0xff && m == 0xff then (if h == 0xff then 0 else h + 1) else h
    ensures h' * 0x1_0000 + m' * 0x100 + l' == (h * 0x1_0000 + m * 0x100 + l + 1) % IC_PERIOD
  {
  }

  lemma ValueSucc(x: bv24)
    ensures Value(x + 1) == (Value(x) + 1) % IC_PERIOD
  {
    Carry(x);
    NextByte(Low(x));
    NextByte(Mid(x));
    NextByte(High(x));
    ByteSum(Low(x) as nat, Mid(x) as nat, High(x) as nat,
            Low(x + 1) as nat, Mid(x + 1) as nat, High(x + 1) as nat);
  }

  /** `rc'` is what one successful compare-and-swap made of `rc`. */
  ghost predicate Updates(rc: bv64, rc': bv64) {
    (exists epoch, cc :: Claims(rc, rc', epoch, cc)) || (exists id :: Clears(rc, rc', id))
  }

  lemma UpdateTicks(rc: bv64, rc': bv64)
    requires Updates(rc, rc')
    ensures Ic(rc') == Ic(rc) + 1
  {
    if epoch, cc :| Claims(rc, rc', epoch, cc) {
      ClaimFields(rc, rc', epoch, cc);
    } else {
      var id :| Clears(rc, rc', id);
      ClearFields(rc, rc', id);
    }
  }

  // What the update counter of a word reads.
  function Count(rc: bv64): (c: nat)
    ensures c < IC_PERIOD
  {
    ValueInRange(Ic(rc));
    Value(Ic(rc))
  }

  lemma ValueInRange(x: bv24)
    ensures Value(x) < IC_PERIOD
  {
    NextByte(Low(x));
    NextByte(Mid(x));
    NextByte(High(x));
  }

  lemma UpdateCounts(rc: bv64, rc': bv64)
    requires Updates(rc, rc')
    ensures Count(rc') == (Count(rc) + 1) % IC_PERIOD
  {
    UpdateTicks(rc, rc');
    ValueSucc(Ic(rc));
  }

  lemma {:induction false} Ticking(counts: seq<nat>, k: nat)
    requires k < |counts| && counts[0] < IC_PERIOD
    requires forall i | 0 < i < |counts| :: counts[i] == (counts[i - 1] + 1) % IC_PERIOD
    ensures counts[k] == (counts[0] + k) % IC_PERIOD
  {
    if k > 0 {
      Ticking(counts, k - 1);
    }
  }

  function Counts(words: seq<bv64>): (c: seq<nat>)
    ensures |c| == |words| && forall i | 0 <= i < |words| :: c[i] == Count(words[i])
  {
    seq(|words|, i requires 0 <= i < |words| => Count(words[i]))
  }

  lemma CountsTick(words: seq<bv64>)
    requires forall i | 0 < i < |words| :: Updates(words[i - 1], words[i])
    ensures forall i | 0 < i < |words| :: Counts(words)[i] == (Counts(words)[i - 1] + 1) % IC_PERIOD
  {
    forall i | 0 < i < |words|
      ensures Counts(words)[i] == (Counts(words)[i - 1] + 1) % IC_PERIOD
    {
      UpdateCounts(words[i - 1], words[i]);
    }
  }

  /** The guard of every compare-and-swap on rc_: after k updates the counter
      reads what a snapshot read exactly when 2^24 divides k, so only then can
      the whole word match again. */
  lemma SnapshotMatchesOnlyAfterAFullCycle(words: seq<bv64>, k: nat)
    requires k < |words| && forall i | 0 < i < |words| :: Updates(words[i - 1], words[i])
    ensures Counts(words)[k] == Counts(words)[0] <==> k % IC_PERIOD == 0
    ensures words[k] == words[0] ==> k % IC_PERIOD == 0
  {
    CountsTick(words);
    Ticking(Counts(words), k);
    FullCycle(Counts(words)[0], k);
    assert words[k] == words[0] ==> Counts(words)[k] == Counts(words)[0];
  }

  lemma FullCycle(c: nat, k: nat)
    requires c < IC_PERIOD
    ensures (c + k) % IC_PERIOD == c <==> k % IC_PERIOD == 0
  {
  }

  // ---------------------------------------------------------------- flags and bits

  // A 32-bit counter value.
  predicate Word32(c: bv64) {
    c <= 0xffff_ffff
  }

  /** The three kinds of commit flag are told apart by their bits: a complement
      of an index is never zero, never a plain index or one plus a ring length,
      and names one index only. */
  lemma CommitFlagsAreDistinct(a: bv64, b: bv64)
    requires Word32(a) && Word32(b)
    ensures !a != 0 && !a != b && !a != b + 256
    ensures !a == !b ==> a == b
  {
    HighHalf(a);
    HighHalf(b);
  }

  lemma HighHalf(a: bv64)
    requires Word32(a)
    ensures !a >= 0xffff_ffff_0000_0000 && a + 256 <= 0x1_0000_00ff
    ensures !(!a) == a
  {
  }

  // connect: the new set of connections and the receiver's own bit.
  function Connections(curr: bv32): bv32 { curr | (curr + 1) }

  function ConnectedId(curr: bv32): bv32 { Connections(curr) ^ curr }

  lemma ConnectFailsOnlyWhenFull(curr: bv32)
    ensures Connections(curr) == curr <==> curr == 0xffff_ffff
  {
  }

  lemma ConnectAddsAFreshBit(curr: bv32)
    ensures curr & ConnectedId(curr) == 0
    ensures curr | ConnectedId(curr) == Connections(curr)
  {
  }

  lemma ConnectAddsOneBit(curr: bv32)
    ensures ConnectedId(curr) & (ConnectedId(curr) - 1) == 0
  {
  }

  /** Every bit below the new one was taken. */
  lemma ConnectTakesTheLowest(curr: bv32)
    requires curr != 0xffff_ffff
    ensures curr & (ConnectedId(curr) - 1) == ConnectedId(curr) - 1
  {
  }

  // ---------------------------------------------------------------- 32-bit wrap of f_ct_

  // What the last reader of index i stores: the cursor is 32 bits wide when it is
  // incremented, but N makes the rest of the sum 64 bits wide.
  function FreeFlag(i: nat): nat
    requires i < WORD
  {
    (i + 1) % WORD + N - 1
  }

  // The counter value with which the slot is claimed next.
  function NextClaim(i: nat): nat
    requires i < WORD
  {
    (i + N) % WORD
  }

  /** push takes a slot whose flag is zero or its own 32-bit index.  The flag left
      by index i is neither, so that the slot is refused from then on, exactly
      for the last 255 indices before 2^32 - 1. */
  lemma FreeFlagSurvivesUnlessItWraps(i: nat)
    requires i < WORD
    ensures FreeFlag(i) == NextClaim(i) || FreeFlag(i) == 0 <==> i + N < WORD || i == WORD - 1
  {
  }
}
