/** The channel with its real 32-bit index: what push compares when ct_ wraps.
    `ct` of Channel goes on counting; the source holds it modulo 2^32, and stores
    flags of 64 bits. */
module ChannelWords {
  import opened Basics
  import opened Ring
  import opened Channel

  // ct_ as it is loaded.
  function Index(ct: nat): nat {
    ct % WORD
  }

  /** f_ct_: the last reader of index i stores the 32-bit i + 1 plus N - 1, which
      does not wrap; a commit stores the 64-bit complement of the 32-bit index. */
  function FlagWord(f: Flag): nat {
    match f
    case Zero => 0
    case Plain(i) => if i < N then i else Index(i - N + 1) + N - 1
    case Commit(i) => 0xffff_ffff_ffff_ffff - Index(i)
  }

  // push turns away a slot with an empty mask.
  predicate Taken(f: Flag, cur: nat) {
    FlagWord(f) != Index(cur) && FlagWord(f) != 0
  }

  /** A step in which push compares words. */
  ghost predicate WordStep(s: State, s': State, w: Who)
    requires WellSized(s.mem)
  {
    if w in s.thr && w.Sender? && s.thr[w].PLoadFlag? then
      var pc := s.thr[w];
      && s'.mem == s.mem
      && s'.thr == s.thr[w := if Taken(At(s.mem, pc.cur).flag, pc.cur) then PIdle
                              else PCasRc(pc.m, pc.ep, pc.cc, pc.cur, pc.rc)]
    else Step(s, s', w)
  }

  // A commit flag is no index.
  lemma CommitWord(i: nat, cur: nat)
    ensures Taken(Commit(i), cur)
  {
  }

  lemma PlainWord(i: nat, cur: nat)
    requires N <= i < WORD + N - 1 && cur < WORD
    ensures Taken(Plain(i), cur) <==> i != cur
  {
    assert Index(i - N + 1) == i - N + 1;
  }

  // The flags of a slot whose last index is below 2^32.
  lemma WordsTellFlags(m: Mem, cur: nat)
    requires MemOk(m) && cur <= m.ct < WORD
    ensures var f := At(m, cur).flag; Taken(f, cur) <==> f != Plain(cur) && f != Zero
  {
    assert Placed(m, Slot(cur)) && CellOk(m, Slot(cur));
    match At(m, cur).flag {
      case Zero =>
      case Commit(i) => CommitWord(i, cur);
      case Plain(i) => PlainWord(i, cur);
    }
  }

  /** While fewer than 2^32 messages have been published the comparison of words
      goes as that of the indices does. */
  lemma WordStepAgrees(s: State, s': State, w: Who)
    requires Inv(s) && s.mem.ct < WORD
    ensures WordStep(s, s', w) <==> Step(s, s', w)
  {
    if w in s.thr && w.Sender? && s.thr[w].PLoadFlag? {
      assert PcOk(s.mem, w, s.thr[w]);
      WordsTellFlags(s.mem, s.thr[w].cur);
    }
  }

  // A push that has loaded the index has loaded it at 2^32.
  ghost predicate LoadedNow(pc: Pc) {
    match pc
    case PLoadRc(_, _, _, cur) => cur == WORD
    case PLoadFlag(_, _, _, cur, _) => cur == WORD
    case PCasRc(_, _, _, _, _) => false
    case PCasEpoch(_, _, _) => false
    case PStoreCt(_, _) => false
    case _ => true
  }

  /** 2^32 messages have been published, and no push holds an older index. */
  ghost predicate Full(s: State) {
    Inv(s) && s.mem.ct == WORD && forall w | w in s.thr && w.Sender? :: LoadedNow(s.thr[w])
  }

  // The slot of index 2^32, as a push sees it.
  lemma WrappedSlotIsTaken(m: Mem)
    requires MemOk(m) && m.ct == WORD
    ensures Taken(At(m, WORD).flag, WORD)
    ensures At(m, WORD).rc.mask <= m.conn && At(m, WORD).rc.ep == m.epoch
  {
    OneRoundOn(WORD - N);
    assert Slot(WORD) == 0;
    assert Placed(m, Slot(WORD)) && CellOk(m, Slot(WORD));
  }

  // A sender gives up: nobody relied on it.
  lemma GivingUpInv(s: State, s': State, w: Who)
    requires Inv(s) && w in s.thr && w.Sender? && s.thr[w].PLoadFlag?
    requires s' == s.(thr := s.thr[w := PIdle])
    ensures Inv(s')
  {
    forall k: nat | k < N
      ensures Busy(s', s'.mem.phase[k])
    {
      assert Busy(s, s.mem.phase[k]);
    }
  }

  lemma SenderStaysFull(s: State, s': State, t: Tid)
    requires Full(s) && Step(s, s', Sender(t)) && !s.thr[Sender(t)].PLoadFlag?
    ensures Full(s') && s'.mem.log == s.mem.log
  {
    StepInv(s, s', Sender(t));
    assert PcOk(s.mem, Sender(t), s.thr[Sender(t)]);
    WrappedSlotIsTaken(s.mem);
    if s.thr[Sender(t)].PLoadRc? && At(s.mem, WORD).rc.mask != {} {
      var r :| r in At(s.mem, WORD).rc.mask;
      assert r in s.mem.conn * At(s.mem, WORD).rc.mask;
    }
  }

  lemma ReceiverStaysFull(s: State, s': State, r: nat)
    requires Full(s) && Step(s, s', Receiver(r))
    ensures Full(s') && s'.mem.log == s.mem.log
  {
    StepInv(s, s', Receiver(r));
    assert PcOk(s.mem, Receiver(r), s.thr[Receiver(r)]);
  }

  ghost predicate WordNext(s: State, s': State) {
    WellSized(s.mem) && exists w :: WordStep(s, s', w)
  }

  lemma StaysFull(s: State, s': State)
    requires Full(s) && WordNext(s, s')
    ensures Full(s') && s'.mem.log == s.mem.log
  {
    var w :| WordStep(s, s', w);
    match w {
      case Receiver(r) => ReceiverStaysFull(s, s', r);
      case Sender(t) =>
        if s.thr[w].PLoadFlag? {
          assert PcOk(s.mem, w, s.thr[w]) && LoadedNow(s.thr[w]);
          WrappedSlotIsTaken(s.mem);
          GivingUpInv(s, s', w);
        } else {
          SenderStaysFull(s, s', t);
        }
    }
  }

  /** After 2^32 messages the channel accepts no more, ever, however far its
      receivers have read. */
  lemma {:induction false} FullForGood(path: seq<State>, n: nat)
    requires n < |path| && Full(path[0]) && forall i | 0 < i < |path| :: WordNext(path[i - 1], path[i])
    ensures Full(path[n]) && path[n].mem.log == path[0].mem.log
  {
    if n > 0 {
      FullForGood(path, n - 1);
      StaysFull(path[n - 1], path[n]);
    }
  }
}
