/** The completion ring as a protocol: device and consumer step by step, in any order.

    The device writes an entry word by word in any order and the owner byte last, into
    the slot of its own count, and only while the 24-bit consumer index it read shows
    room. The consumer tests the owner byte, reads the words one by one, and publishes
    its index when it likes. That a store becomes visible late is the device reading
    late. The theorem: over every run the consumer is handed exactly the entries the
    device wrote, whole, each once and in order.
 */
module CqProtocol {
  import opened Bits
  import opened Wrappers
  import opened CompletionQueue

  /** `2^k` entries of `words` words beside the owner byte. */
  datatype Config = Config(k: nat, words: nat) {
    ghost predicate Valid() { k <= 23 }
    function N(): (n: nat)
      ensures n > 0
    {
      Pow2(k)
    }
  }

  /** The entry the device is writing, and the words still to write. */
  datatype Writing = Idle | Entry(cqe: Cqe, todo: set<nat>)

  /** The entry the consumer is reading. */
  datatype Reading = NoEntry | Holding(opOwn: nat, body: seq<nat>)

  datatype State = State(
    buf: seq<Cqe>,
    ciRecord: nat,
    log: seq<Cqe>,
    writing: Writing,
    devSeen: nat,
    devCi: nat,
    consIndex: nat,
    taken: nat,
    published: nat,
    reading: Reading,
    delivered: seq<Cqe>)

  datatype Step =
    | DevStart(cqe: Cqe)
    | DevWord(w: nat)
    | DevPublish
    | DevReadCi
    | CpuCheck
    | CpuWord
    | CpuDone
    | CpuPublish

  /** Where the consumer reads the entry it took last. */
  function TakenSlot(c: Config, s: State): (i: nat)
    ensures i < c.N()
  {
    And(Wrap(32, s.consIndex - 1), c.N() - 1)
  }

  ghost predicate Enabled(c: Config, s: State, step: Step) {
    && |s.buf| == c.N()
    && match step
       case DevStart(cqe) =>
         && s.writing.Idle? && |cqe.body| == c.words && StampedAt(cqe, |s.log|, c.N())
         && |s.log| < s.devCi + c.N()
       case DevWord(w) => s.writing.Entry? && w in s.writing.todo
       case DevPublish => s.writing.Entry? && s.writing.todo == {}
       case DevReadCi => true
       case CpuCheck => s.reading.NoEntry? && SwCqe(s.buf, s.consIndex).Some?
       case CpuWord => s.reading.Holding? && |s.reading.body| < c.words
       case CpuDone => s.reading.Holding? && |s.reading.body| == c.words
       case CpuPublish => s.reading.NoEntry?
  }

  function Words(n: nat): (r: set<nat>)
    ensures forall w :: w in r <==> 0 <= w < n
  {
    if n == 0 then {} else Words(n - 1) + {n - 1}
  }

  function WordAt(x: Cqe, w: nat): nat {
    if w < |x.body| then x.body[w] else 0
  }

  function PutWord(x: Cqe, w: nat, v: nat): Cqe {
    if w < |x.body| then x.(body := x.body[w := v]) else x
  }

  function Exec(c: Config, s: State, step: Step): State
    requires |s.buf| == c.N()
    requires step.DevWord? || step.DevPublish? ==> s.writing.Entry?
    requires step.CpuCheck? ==> SwCqe(s.buf, s.consIndex).Some?
    requires step.CpuWord? || step.CpuDone? ==> s.reading.Holding?
  {
    var at := Slot(|s.log|, c.N());
    match step
    case DevStart(cqe) =>
      s.(writing := Entry(cqe, Words(c.words)))
    case DevWord(w) =>
      s.(buf := s.buf[at := PutWord(s.buf[at], w, WordAt(s.writing.cqe, w))],
         writing := s.writing.(todo := s.writing.todo - {w}))
    case DevPublish =>
      s.(buf := s.buf[at := s.buf[at].(opOwn := s.writing.cqe.opOwn)],
         log := s.log + [s.writing.cqe], writing := Idle)
    case DevReadCi =>
      s.(devCi := s.devCi + Wrap(24, s.ciRecord - s.devSeen), devSeen := s.ciRecord)
    case CpuCheck =>
      s.(reading := Holding(SwCqe(s.buf, s.consIndex).value.opOwn, []),
         consIndex := Wrap(32, s.consIndex + 1), taken := s.taken + 1)
    case CpuWord =>
      s.(reading := s.reading.(body := s.reading.body + [WordAt(s.buf[TakenSlot(c, s)], |s.reading.body|)]))
    case CpuDone =>
      s.(delivered := s.delivered + [Cqe(s.reading.opOwn, s.reading.body)], reading := NoEntry)
    case CpuPublish =>
      s.(ciRecord := And(s.consIndex, 0xff_ffff), published := s.taken)
  }

  /** A fresh ring: every entry marked INVALID. */
  ghost predicate Init(c: Config, s: State) {
    && c.Valid() && |s.buf| == c.N()
    && (forall i :: 0 <= i < |s.buf| ==> Unwritten(s.buf[i]) && |s.buf[i].body| == c.words)
    && s.ciRecord == s.devSeen == s.devCi == s.consIndex == s.taken == s.published == 0
    && s.log == [] && s.delivered == [] && s.writing == Idle && s.reading == NoEntry
  }

  ghost predicate Next(c: Config, s: State, t: State) {
    exists step :: Enabled(c, s, step) && t == Exec(c, s, step)
  }

  ghost predicate Run(c: Config, run: seq<State>) {
    && run != []
    && Init(c, run[0])
    && forall i :: 0 <= i < |run| - 1 ==> Next(c, run[i], run[i + 1])
  }

  // ---------- the invariant ----------

  ghost predicate InvCounts(c: Config, s: State) {
    && c.Valid() && |s.buf| == c.N()
    && s.consIndex == Wrap(32, s.taken)
    && s.ciRecord == Wrap(24, s.published) && s.devSeen == Wrap(24, s.devCi)
    && s.devCi <= s.published <= |s.delivered| <= s.taken <= |s.log| <= s.devCi + c.N()
    && s.taken == |s.delivered| + (if s.reading.Holding? then 1 else 0)
    && (s.writing.Entry? ==> |s.log| < s.devCi + c.N())
  }

  ghost predicate InvLog(c: Config, s: State) {
    && Stamped(s.log, c.N())
    && (forall p :: 0 <= p < |s.log| ==> |s.log[p].body| == c.words)
    && |s.delivered| <= |s.log| && s.delivered == s.log[..|s.delivered|]
  }

  /** Owner bytes: those of the last lap, INVALID where no entry was yet. */
  ghost predicate Owners(buf: seq<Cqe>, log: seq<Cqe>)
    requires |buf| > 0
  {
    && (forall p :: 0 <= p < |log| && |log| - |buf| <= p ==> buf[Slot(p, |buf|)].opOwn == log[p].opOwn)
    && (forall i :: |log| <= i < |buf| ==> Unwritten(buf[i]))
  }

  /** Bodies: whole in every entry the consumer may still read. */
  ghost predicate InvBodies(c: Config, s: State)
    requires |s.buf| == c.N()
  {
    && (forall i :: 0 <= i < c.N() ==> |s.buf[i].body| == c.words)
    && (forall p :: s.devCi <= p < |s.log| ==> s.buf[Slot(p, c.N())].body == s.log[p].body)
  }

  ghost predicate InvWriting(c: Config, s: State)
    requires |s.buf| == c.N()
  {
    s.writing.Entry? ==>
      && |s.writing.cqe.body| == c.words && StampedAt(s.writing.cqe, |s.log|, c.N())
      && (forall w :: w in s.writing.todo ==> w < c.words)
      && forall w :: 0 <= w < c.words && w !in s.writing.todo ==>
           WordAt(s.buf[Slot(|s.log|, c.N())], w) == s.writing.cqe.body[w]
  }

  ghost predicate InvReading(c: Config, s: State) {
    s.reading.Holding? ==>
      && 0 < s.taken <= |s.log|
      && s.reading.opOwn == s.log[s.taken - 1].opOwn
      && s.reading.body <= s.log[s.taken - 1].body
  }

  ghost predicate Inv(c: Config, s: State) {
    && InvCounts(c, s) && InvLog(c, s) && Owners(s.buf, s.log) && InvBodies(c, s) && InvWriting(c, s)
        && InvReading(c, s)
  }

  // ---------- the consumer's test ----------

  lemma OwnersTell(buf: seq<Cqe>, k: nat, log: seq<Cqe>, p: nat)
    requires k < 32 && |buf| == Pow2(k)
    requires Stamped(log, |buf|) && Owners(buf, log) && p <= |log| <= p + |buf|
    ensures SwCqe(buf, Wrap(32, p)) == if p < |log| then Some(buf[Slot(p, |buf|)]) else None
    ensures p < |log| ==> buf[Slot(p, |buf|)].opOwn == log[p].opOwn
  {
    hide Pow2, SwCqe, Slot, Lap, Unwritten;
    var n := |buf|;
    SwCqeByLap(buf, k, p);
    if p < |log| {
      assert StampedAt(log[p], p, n);
      SameOwner(buf[Slot(p, n)], log[p]);
    } else if p < n {
      FirstLap(p, n);
    } else {
      NextLap(p - n, n);
      assert StampedAt(log[p - n], p - n, n);
      SameOwner(buf[Slot(p - n, n)], log[p - n]);
    }
  }

  /** In every reachable state the test is exact, although entries may be half
      written: it finds an entry if and only if an unread one is complete. */
  lemma CheckIsExact(c: Config, s: State)
    requires Inv(c, s)
    ensures |s.buf| > 0
    ensures SwCqe(s.buf, s.consIndex).Some? <==> s.taken < |s.log|
    ensures s.taken < |s.log| ==> SwCqe(s.buf, s.consIndex).value == s.log[s.taken]
  {
    hide Pow2, SwCqe, Slot, Owners, StampedAt;
    OwnersTell(s.buf, c.k, s.log, s.taken);
    if s.taken < |s.log| {
      assert s.buf[Slot(s.taken, c.N())].body == s.log[s.taken].body;
    }
  }

  lemma SameOwner(a: Cqe, b: Cqe)
    requires a.opOwn == b.opOwn
    ensures Unwritten(a) == Unwritten(b) && a.opOwn % 2 == b.opOwn % 2
  {
  }

  // ---------- the steps keep the invariant ----------

  ghost predicate StepPre(c: Config, s: State, step: Step) {
    Inv(c, s) && Enabled(c, s, step)
  }

  lemma StartKeepsInv(c: Config, s: State, cqe: Cqe)
    requires StepPre(c, s, DevStart(cqe))
    ensures Inv(c, Exec(c, s, DevStart(cqe)))
  {
    hide Pow2, Slot, Lap, StampedAt, Unwritten, Wrap;
  }

  /** A word goes into the one slot no reader looks at. */
  lemma WriteSlotIsFree(c: Config, s: State, p: nat)
    requires InvCounts(c, s) && s.writing.Entry? && s.devCi <= p < |s.log|
    ensures Slot(p, c.N()) != Slot(|s.log|, c.N())
  {
    hide Pow2, Slot;
    SlotsDistinct(p, |s.log|, c.N());
  }

  lemma WordKeepsInv(c: Config, s: State, w: nat)
    requires StepPre(c, s, DevWord(w))
    ensures Inv(c, Exec(c, s, DevWord(w)))
  {
    hide Pow2, Slot, Lap, StampedAt, Unwritten, Wrap;
    var t, n := Exec(c, s, DevWord(w)), c.N();
    assert InvCounts(c, t) && InvLog(c, t) && InvReading(c, t);
    OwnersAfterWord(c, s, w);
    forall p | t.devCi <= p < |t.log|
      ensures t.buf[Slot(p, n)].body == t.log[p].body
    {
      WriteSlotIsFree(c, s, p);
    }
  }

  lemma OwnersAfterWord(c: Config, s: State, w: nat)
    requires StepPre(c, s, DevWord(w))
    ensures Owners(Exec(c, s, DevWord(w)).buf, s.log)
  {
    hide Pow2, Slot, Lap, StampedAt, Wrap;
    var t := Exec(c, s, DevWord(w));
    assert forall i :: 0 <= i < |s.buf| ==> t.buf[i].opOwn == s.buf[i].opOwn;
  }

  /** With no word left to write, the slot holds the whole body. */
  lemma WrittenWhole(c: Config, s: State)
    requires StepPre(c, s, DevPublish)
    ensures s.buf[Slot(|s.log|, c.N())].body == s.writing.cqe.body
  {
    hide Pow2, Slot, Lap, StampedAt, Unwritten, Wrap;
    var x := s.buf[Slot(|s.log|, c.N())];
    forall w | 0 <= w < c.words
      ensures x.body[w] == s.writing.cqe.body[w]
    {
      assert WordAt(x, w) == s.writing.cqe.body[w];
    }
  }

  lemma PublishKeepsInv(c: Config, s: State)
    requires StepPre(c, s, DevPublish)
    ensures Inv(c, Exec(c, s, DevPublish))
  {
    hide Pow2, Slot, Lap, StampedAt, Unwritten, Wrap;
    var t, n := Exec(c, s, DevPublish), c.N();
    WrittenWhole(c, s);
    OwnersAfterPublish(c, s);
    forall p | t.devCi <= p < |t.log|
      ensures t.buf[Slot(p, n)].body == t.log[p].body
    {
      if p < |s.log| { WriteSlotIsFree(c, s, p); }
    }
    assert t.log[..|t.delivered|] == s.log[..|s.delivered|];
  }

  lemma OwnersAfterPublish(c: Config, s: State)
    requires StepPre(c, s, DevPublish)
    ensures var t := Exec(c, s, DevPublish); Owners(t.buf, t.log)
  {
    hide Pow2, Slot, Lap, StampedAt, Unwritten, Wrap;
    var t, n, m := Exec(c, s, DevPublish), c.N(), |s.log|;
    forall p | 0 <= p < |t.log| && |t.log| - n <= p
      ensures t.buf[Slot(p, n)].opOwn == t.log[p].opOwn
    {
      if p < m { SlotsDistinct(p, m, n); }
    }
    forall i | |t.log| <= i < n
      ensures Unwritten(t.buf[i])
    {
      FirstLap(m, n);
    }
  }

  /** From 24 bits the device recovers how many entries the consumer released. */
  lemma CiRecovered(c: Config, s: State)
    requires InvCounts(c, s)
    ensures s.devCi + Wrap(24, s.ciRecord - s.devSeen) == s.published
  {
    hide Pow2;
    Pow2Order(c.k, 23);
    Pow2Order(24, 23);
    Pow2Monotone(23, 24);
    Recover(s.devCi, s.published, Pow2(24));
  }

  lemma ReadCiKeepsInv(c: Config, s: State)
    requires StepPre(c, s, DevReadCi)
    ensures Inv(c, Exec(c, s, DevReadCi)) && Exec(c, s, DevReadCi).devCi == s.published
  {
    hide Pow2, Slot, Lap, StampedAt, Unwritten, Wrap;
    CiRecovered(c, s);
  }

  lemma CheckKeepsInv(c: Config, s: State)
    requires StepPre(c, s, CpuCheck)
    ensures Inv(c, Exec(c, s, CpuCheck))
  {
    hide Pow2, Slot, Lap, StampedAt, Unwritten, Wrap, SwCqe;
    CheckIsExact(c, s);
    WrapAdd(32, s.taken, 1);
  }

  lemma TakenSlotIs(c: Config, s: State)
    requires InvCounts(c, s) && s.taken > 0
    ensures TakenSlot(c, s) == Slot(s.taken - 1, c.N())
  {
    hide Pow2, And;
    CounterBack(s.taken);
    CounterView(s.taken - 1, c.k);
  }

  lemma CounterBack(p: nat)
    requires p > 0
    ensures Wrap(32, Wrap(32, p) - 1) == Wrap(32, p - 1)
  {
    hide Pow2;
    AddMod(p, -1, Pow2(32));
  }

  lemma ReadKeepsInv(c: Config, s: State)
    requires StepPre(c, s, CpuWord)
    ensures Inv(c, Exec(c, s, CpuWord))
  {
    hide Pow2, Slot, Lap, StampedAt, Unwritten, Wrap, TakenSlot;
    TakenSlotIs(c, s);
    var e := s.log[s.taken - 1];
    assert s.buf[Slot(s.taken - 1, c.N())].body == e.body;
    var t := Exec(c, s, CpuWord);
    assert t.reading.body == s.reading.body + [e.body[|s.reading.body|]];
  }

  lemma DoneKeepsInv(c: Config, s: State)
    requires StepPre(c, s, CpuDone)
    ensures Inv(c, Exec(c, s, CpuDone))
  {
    hide Pow2, Slot, Lap, StampedAt, Unwritten, Wrap;
    var e := s.log[s.taken - 1];
    assert s.reading.body == e.body;
    assert Cqe(s.reading.opOwn, s.reading.body) == e;
    assert s.log[..s.taken] == s.log[..s.taken - 1] + [e];
  }

  lemma ReleaseKeepsInv(c: Config, s: State)
    requires StepPre(c, s, CpuPublish)
    ensures Inv(c, Exec(c, s, CpuPublish))
  {
    hide Pow2, Slot, Lap, StampedAt, Unwritten, Wrap, And;
    CiPublished(s.taken);
  }

  lemma CiPublished(p: nat)
    ensures And(Wrap(32, p), 0xff_ffff) == Wrap(24, p)
  {
    hide Pow2, And;
    LowMask24(Wrap(32, p));
    Pow2ModOfMod(p, 24, 32);
  }

  lemma StepKeepsInv(c: Config, s: State, step: Step)
    requires Inv(c, s) && Enabled(c, s, step)
    ensures Inv(c, Exec(c, s, step))
  {
    assert StepPre(c, s, step);
    hide Inv, Exec, Enabled, StepPre;
    match step
    case DevStart(cqe) => StartKeepsInv(c, s, cqe);
    case DevWord(w) => WordKeepsInv(c, s, w);
    case DevPublish => PublishKeepsInv(c, s);
    case DevReadCi => ReadCiKeepsInv(c, s);
    case CpuCheck => CheckKeepsInv(c, s);
    case CpuWord => ReadKeepsInv(c, s);
    case CpuDone => DoneKeepsInv(c, s);
    case CpuPublish => ReleaseKeepsInv(c, s);
  }

  // ---------- every run ----------

  lemma InitInv(c: Config, s: State)
    requires Init(c, s)
    ensures Inv(c, s)
  {
    hide Pow2, Slot, Lap, StampedAt, Unwritten;
  }

  lemma {:induction false} RunKeepsInv(c: Config, run: seq<State>, i: nat)
    requires Run(c, run) && i < |run|
    ensures Inv(c, run[i])
  {
    hide Inv, Init, Exec, SwCqe, StampedAt, Pow2;
    if i == 0 {
      InitInv(c, run[0]);
    } else {
      RunKeepsInv(c, run, i - 1);
      assert Next(c, run[i - 1], run[i - 1 + 1]);
      var step :| Enabled(c, run[i - 1], step) && run[i] == Exec(c, run[i - 1], step);
      StepKeepsInv(c, run[i - 1], step);
    }
  }

  /** Over every run the consumer gets exactly the entries written, whole, each once
      and in order, and its test for more is exact. */
  lemma DeliveredIsWritten(c: Config, run: seq<State>, i: nat)
    requires Run(c, run) && i < |run|
    ensures var s := run[i];
            && s.delivered <= s.log
            && |s.buf| > 0
            && (SwCqe(s.buf, s.consIndex).Some? <==> s.taken < |s.log|)
            && |s.log| <= |s.delivered| + c.N()
  {
    RunKeepsInv(c, run, i);
    CheckIsExact(c, run[i]);
  }

  /** Nobody waits for ever: while entries are unread the consumer can step, and a
      device that found the ring full has room again once it reads a published index
      that released something. */
  lemma NeverStuck(c: Config, s: State)
    requires Inv(c, s)
    ensures |s.delivered| < |s.log| ==> Enabled(c, s, CpuCheck) || Enabled(c, s, CpuWord) || Enabled(c, s, CpuDone)
    ensures s.writing.Idle? && s.published > s.devCi ==>
              var t := Exec(c, s, DevReadCi); |t.log| < t.devCi + c.N()
  {
    hide Pow2, Slot, Lap, StampedAt, Unwritten, Wrap, SwCqe;
    CheckIsExact(c, s);
    CiRecovered(c, s);
  }

  // ---------- why the words are read behind the test ----------

  /** The consumer does nothing in this run. */
  ghost predicate ConsumerIdle(run: seq<State>) {
    forall i :: 0 <= i < |run| ==>
      run[i].consIndex == run[0].consIndex && run[i].taken == run[0].taken && run[i].reading == run[0].reading
  }

  lemma Extend(c: Config, run: seq<State>, step: Step)
    requires Run(c, run) && ConsumerIdle(run) && Enabled(c, run[|run| - 1], step)
    requires step.DevStart? || step.DevWord? || step.DevPublish?
    ensures var longer := run + [Exec(c, run[|run| - 1], step)]; Run(c, longer) && ConsumerIdle(longer)
  {
    hide Init, SwCqe, StampedAt;
    var t := Exec(c, run[|run| - 1], step);
    var longer := run + [t];
    assert t.consIndex == run[|run| - 1].consIndex && t.taken == run[|run| - 1].taken;
    assert Next(c, run[|run| - 1], t);
    forall i | 0 <= i < |longer| - 1
      ensures Next(c, longer[i], longer[i + 1])
    {
      if i + 1 < |run| { assert Next(c, run[i], run[i + 1]); }
    }
  }

  /** The device writes what is left of its entry, one word after the other. */
  lemma {:induction false} WriteRest(c: Config, run: seq<State>, k: nat) returns (longer: seq<State>)
    requires Run(c, run) && ConsumerIdle(run) && k <= c.words
    requires var s := run[|run| - 1]; |s.buf| == c.N() && s.writing.Entry? && s.writing.todo == Words(k)
    ensures Run(c, longer) && ConsumerIdle(longer) && longer[0] == run[0]
    ensures var s, t := run[|run| - 1], longer[|longer| - 1];
            t.writing == Entry(s.writing.cqe, {}) && t.log == s.log && |t.buf| == c.N()
    decreases k
  {
    var s := run[|run| - 1];
    if k == 0 {
      longer := run;
    } else {
      hide Run, ConsumerIdle, Pow2, Slot, SwCqe;
      assert Enabled(c, s, DevWord(k - 1));
      Extend(c, run, DevWord(k - 1));
      var t := Exec(c, s, DevWord(k - 1));
      assert Words(k) - {k - 1} == Words(k - 1);
      longer := WriteRest(c, run + [t], k - 1);
    }
  }

  /** An entry all of whose words differ from what a slot holds. */
  function Changed(was: Cqe): (x: Cqe)
    ensures x.opOwn == 0 && |x.body| == |was.body|
    ensures forall w :: 0 <= w < |x.body| ==> x.body[w] != was.body[w]
  {
    Cqe(0, seq(|was.body|, w requires 0 <= w < |was.body| => was.body[w] + 1))
  }

  lemma FreshStamp(x: Cqe, n: nat)
    requires n > 0 && x.opOwn == 0
    ensures StampedAt(x, 0, n)
  {
    FirstLap(0, n);
  }

  /** Why the words are read behind the test: from every fresh ring of any size there is a
      run in which the consumer only waits, and at its end the test finds an entry every
      word of which differs from what its slot held when the run began. A load that went
      ahead of the test would have returned that. */
  lemma EarlyLoadIsStale(c: Config, s: State) returns (run: seq<State>)
    requires Init(c, s)
    ensures Run(c, run) && ConsumerIdle(run) && run[0] == s
    ensures var t := run[|run| - 1];
            && |t.buf| > 0 && SwCqe(t.buf, t.consIndex).Some?
            && var found := SwCqe(t.buf, t.consIndex).value;
               && t.log == [found] && |found.body| == |s.buf[0].body| == c.words
               && forall w :: 0 <= w < c.words ==> found.body[w] != s.buf[0].body[w]
  {
    var cqe := Changed(s.buf[0]);
    FreshStamp(cqe, c.N());
    assert Enabled(c, s, DevStart(cqe));
    assert Run(c, [s]) && ConsumerIdle([s]);
    hide Init, Run, ConsumerIdle, Pow2, Slot, SwCqe, StampedAt, Changed;
    Extend(c, [s], DevStart(cqe));
    var s1 := Exec(c, s, DevStart(cqe));
    run := WriteRest(c, [s] + [s1], c.words);
    var s2 := run[|run| - 1];
    Extend(c, run, DevPublish);
    var s3 := Exec(c, s2, DevPublish);
    run := run + [s3];
    LastFound(c, run);
  }

  lemma LastFound(c: Config, run: seq<State>)
    requires Run(c, run) && ConsumerIdle(run) && run[0].taken == 0 && |run[|run| - 1].log| == 1
    ensures var t := run[|run| - 1];
            |t.buf| > 0 && SwCqe(t.buf, t.consIndex).Some? && SwCqe(t.buf, t.consIndex).value == t.log[0]
  {
    hide Inv, SwCqe, Init, Next;
    RunKeepsInv(c, run, |run| - 1);
    CheckIsExact(c, run[|run| - 1]);
  }
}
