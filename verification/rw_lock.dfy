/** The writer-preferring spin lock: one 32-bit word, the top bit for a writer
    and the other 31 for the number of readers.  `writer` and `readers` are
    history variables. */
module RwLock {
  import opened Basics
  import Runs

  type Tid = nat

  const W_FLAG: nat := 0x8000_0000

  datatype Pc =
    | Out
    | WSet
    | WDrain
    | WIn
    | RLoad
    | RTry(seen: nat)
    | RIn

  datatype Holder = Nobody | Writer(t: Tid)

  datatype State = State(lc: nat, thr: map<Tid, Pc>, writer: Holder, readers: set<Tid>)

  // The bit operations on a 32-bit word.
  predicate HasFlag(w: nat) { w / W_FLAG % 2 == 1 }

  function Count(w: nat): nat { w % W_FLAG }

  function SetFlag(w: nat): nat { if HasFlag(w) then w else w + W_FLAG }

  function Add(w: nat, d: nat): nat { (w + d) % WORD }

  /** One atomic access of thread `t`. */
  ghost predicate Step(s: State, s': State, t: Tid) {
    && t in s.thr && t in s'.thr
    && s'.thr == s.thr[t := s'.thr[t]]
    && var lc, pc, pc' := s.lc, s.thr[t], s'.thr[t];
       var same := s'.lc == lc && s'.writer == s.writer && s'.readers == s.readers;
       match pc
       case Out => same && (pc' == WSet || pc' == RLoad)
       case WSet =>
         && s'.lc == SetFlag(lc) && s'.readers == s.readers
         && pc' == (if lc == 0 then WIn else if !HasFlag(lc) then WDrain else WSet)
         && s'.writer == if HasFlag(lc) then s.writer else Writer(t)
       case WDrain => same && pc' == if Count(lc) == 0 then WIn else WDrain
       case WIn => s'.lc == 0 && s'.writer == Nobody && s'.readers == s.readers && pc' == Out
       case RLoad => same && pc' == RTry(lc)
       case RTry(seen) =>
         || (!HasFlag(seen) && lc == seen && s'.lc == Add(lc, 1) && s'.writer == s.writer
               && s'.readers == s.readers + {t} && pc' == RIn)
         || (same && pc' == RTry(lc))
       case RIn => s'.lc == Add(lc, WORD - 1) && s'.writer == s.writer && s'.readers == s.readers - {t} && pc' == Out
  }

  ghost predicate Init(s: State) {
    && s.lc == 0 && s.writer == Nobody && s.readers == {}
    && |s.thr| < W_FLAG
    && (forall t | t in s.thr :: s.thr[t] == Out)
  }

  // What lc_ should say.
  ghost function Word(writer: Holder, readers: set<Tid>): nat {
    (if writer.Writer? then W_FLAG else 0) + |readers|
  }

  ghost predicate Inv(s: State) {
    && |s.thr| < W_FLAG
    && s.readers <= s.thr.Keys
    && s.lc == Word(s.writer, s.readers)
    && (forall t | t in s.thr :: s.thr[t] == RIn <==> t in s.readers)
    && (forall t | t in s.thr :: (s.thr[t] == WDrain || s.thr[t] == WIn) <==> s.writer == Writer(t))
    && (forall t | t in s.thr && s.thr[t] == WIn :: s.readers == {})
    && (s.writer.Writer? ==> s.writer.t in s.thr)
  }

  /** The flag is the writer's and the count is the readers'. */
  lemma WordReads(s: State)
    requires Inv(s)
    ensures s.lc < WORD && |s.readers| < W_FLAG
    ensures HasFlag(s.lc) <==> s.writer.Writer?
    ensures Count(s.lc) == |s.readers|
    ensures !s.writer.Writer? && s.lc == 0 ==> s.readers == {}
    ensures Count(s.lc) == 0 ==> s.readers == {}
  {
    SubsetSize(s.readers, s.thr.Keys);
  }

  lemma WordStep(s: State, s': State, t: Tid)
    requires Inv(s) && Step(s, s', t)
    ensures s'.lc == Word(s'.writer, s'.readers)
  {
    WordReads(s);
    match s.thr[t] {
      case RTry(_) =>
        assert t !in s.readers;
        assert |s.readers + {t}| == |s.readers| + 1;
        SubsetSize(s.readers + {t}, s.thr.Keys);
      case RIn =>
        assert |s.readers - {t}| == |s.readers| - 1;
      case _ =>
    }
  }

  lemma StepInv(s: State, s': State, t: Tid)
    requires Inv(s) && Step(s, s', t)
    ensures Inv(s')
  {
    WordReads(s);
    WordStep(s, s', t);
    assert s'.thr.Keys == s.thr.Keys;
    assert |s'.thr| == |s'.thr.Keys| == |s.thr.Keys|;
  }

  ghost predicate Next(s: State, s': State) {
    exists t :: Step(s, s', t)
  }

  ghost predicate Run(run: seq<State>) {
    Runs.IsRun(run, Init, Next)
  }

  lemma {:induction false} RunInv(run: seq<State>, i: nat)
    requires Run(run) && i < |run|
    ensures Inv(run[i])
  {
    assert Runs.Lawful(run, Init, Next, i);
    if i > 0 {
      RunInv(run, i - 1);
      var t :| Step(run[i - 1], run[i], t);
      StepInv(run[i - 1], run[i], t);
    }
  }

  ghost predicate In(s: State, t: Tid, pc: Pc) {
    t in s.thr && s.thr[t] == pc
  }

  /** lc_ is always the writer's flag plus the exact number of readers inside;
      a writer inside is alone, and no second writer waits beside one. */
  lemma ExactAndExclusive(run: seq<State>, i: nat)
    requires Run(run) && i < |run|
    ensures var s := run[i];
            && s.readers == (set t | t in s.thr && s.thr[t] == RIn)
            && Count(s.lc) == |s.readers|
            && (HasFlag(s.lc) <==> exists t :: In(s, t, WDrain) || In(s, t, WIn))
    ensures forall t, u :: In(run[i], t, WIn) && (In(run[i], u, WIn) || In(run[i], u, WDrain)) ==> t == u
    ensures forall t, u :: In(run[i], t, WIn) ==> !In(run[i], u, RIn)
  {
    RunInv(run, i);
    var s := run[i];
    WordReads(s);
    assert s.readers == set t | t in s.thr && s.thr[t] == RIn;
    if s.writer.Writer? {
      assert In(s, s.writer.t, WDrain) || In(s, s.writer.t, WIn);
    }
  }

  /** From the step that sets a writer's flag to its unlock no reader gets in,
      so the readers it waits for only become fewer. */
  lemma NoReaderPassesAWriter(run: seq<State>, i: nat, s': State, t: Tid)
    requires Run(run) && i < |run| && Step(run[i], s', t)
    requires run[i].writer.Writer?
    ensures s'.readers <= run[i].readers
    ensures s'.writer == run[i].writer || (run[i].thr[t] == WIn && s'.thr[t] == Out)
  {
    RunInv(run, i);
    WordReads(run[i]);
  }

  /** The store of 0 in unlock erases the writer's flag and nothing else. */
  lemma UnlockErasesNoReader(run: seq<State>, i: nat, s': State, t: Tid)
    requires Run(run) && i < |run| && Step(run[i], s', t) && run[i].thr[t] == WIn
    ensures run[i].lc == W_FLAG && run[i].readers == {} && s'.lc == 0
  {
    RunInv(run, i);
  }
}
