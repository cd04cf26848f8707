/** The completion ring of pp_dv.c.

    The device is the only writer of entries and there is no producer index: the
    consumer tells a new entry from an old one by the owner bit, compared with the
    lap parity of its own 32-bit counter, and by an INVALID opcode on the first lap.
    The ring is proved to be the queue `log[taken..]` of entries written and unread.
 */
module CompletionQueue {
  import opened Bits
  import opened Wrappers

  const CQE_INVALID := 15
  const CQE_OWNER_MASK := 1
  const CQ_OK := 0
  const CQ_EMPTY := -1
  const CQ_POLL_ERR := -2
  const CQ_SET_CI := 0

  /** `op_own` is the last byte of the 64; `body` stands for the others. */
  datatype Cqe = Cqe(opOwn: nat, body: seq<nat>)

  function OpcodeOf(c: Cqe): nat { c.opOwn / 16 }

  function OwnerOf(c: Cqe): nat { And(c.opOwn, CQE_OWNER_MASK) }

  /** `get_sw_cqe`: the entry the counter `n` points at, if it is new. */
  function SwCqe(buf: seq<Cqe>, n: nat): Option<Cqe>
    requires |buf| > 0
  {
    var cqe := buf[And(n, |buf| - 1)];
    if OpcodeOf(cqe) != CQE_INVALID && Xor(OwnerOf(cqe), if And(n, |buf|) != 0 then 1 else 0) == 0
    then Some(cqe)
    else None
  }

  // ---------- what the device keeps ----------

  function Lap(p: nat, n: nat): nat
    requires n > 0
  {
    QuotientNat(p, n);
    p / n
  }

  /** The device marks an entry never written with opcode 15. */
  predicate Unwritten(c: Cqe) { c.opOwn / 16 == 15 }

  /** Entry `p` of all entries ever written has another opcode in the upper half of its
      last byte, and the parity of its lap in the lowest bit. */
  predicate StampedAt(c: Cqe, p: nat, n: nat)
    requires n > 0
  {
    !Unwritten(c) && c.opOwn % 2 == Lap(p, n) % 2
  }

  ghost predicate Stamped(log: seq<Cqe>, n: nat)
    requires n > 0
  {
    forall p :: 0 <= p < |log| ==> StampedAt(log[p], p, n)
  }

  /** The buffer after the device wrote `log`: the last lap of it, and INVALID
      marks where the first lap has not reached. */
  ghost predicate Holds(buf: seq<Cqe>, log: seq<Cqe>)
    requires |buf| > 0
  {
    && (forall p :: 0 <= p < |log| && |log| - |buf| <= p ==> buf[Slot(p, |buf|)] == log[p])
    && (forall s :: |log| <= s < |buf| ==> Unwritten(buf[s]))
  }

  /** `k` is log2 of the ring size; `taken` entries were consumed. */
  ghost predicate RingInv(buf: seq<Cqe>, k: nat, log: seq<Cqe>, taken: nat) {
    && k < 32
    && |buf| == Pow2(k)
    && Stamped(log, |buf|)
    && Holds(buf, log)
    && taken <= |log| <= taken + |buf|
  }

  // ---------- slots and laps ----------

  lemma NextLap(p: nat, n: nat)
    requires n > 0
    ensures Slot(p + n, n) == Slot(p, n)
    ensures Lap(p + n, n) == Lap(p, n) + 1
  {
    DivModUnique(p + n, n, p / n + 1, p % n);
  }

  lemma FirstLap(p: nat, n: nat)
    requires p < n
    ensures Slot(p, n) == p && Lap(p, n) == 0
  {
    DivModUnique(p, n, 0, p);
  }

  /** What the masks of `get_sw_cqe` see of a counter that wraps at 2^32. */
  lemma CounterView(p: nat, k: nat)
    requires k < 32
    ensures And(p % Pow2(32), Pow2(k) - 1) == Slot(p, Pow2(k))
    ensures (if And(p % Pow2(32), Pow2(k)) != 0 then 1 else 0) == Lap(p, Pow2(k)) % 2
  {
    hide Pow2, And;
    var c := p % Pow2(32);
    AndMask(c, k);
    Pow2ModOfMod(p, k, 32);
    AndBit(c, k);
    PhaseOfWrapped(p, k, 32);
    LapBit(p / Pow2(k) % 2, Pow2(k));
  }

  lemma LapBit(bit: nat, m: nat)
    requires bit < 2 && m > 0
    ensures bit * m != 0 <==> bit == 1
  {
  }

  /** What the accessors of an entry read. */
  lemma OwnByte(c: Cqe)
    ensures OpcodeOf(c) != CQE_INVALID <==> !Unwritten(c)
    ensures OwnerOf(c) == c.opOwn % 2
  {
    hide And, Pow2;
    assert Pow2(1) == 2 by { Pow2Step(0); }
    AndMask(c.opOwn, 1);
  }

  /** `get_sw_cqe` on an entry whose slot content is known. */
  lemma SwCqeByLap(buf: seq<Cqe>, k: nat, p: nat)
    requires k < 32 && |buf| == Pow2(k)
    ensures var c := buf[Slot(p, |buf|)];
            SwCqe(buf, Wrap(32, p)) ==
            if !Unwritten(c) && c.opOwn % 2 == Lap(p, |buf|) % 2 then Some(c) else None
  {
    hide Pow2, And, Xor, Slot, Lap, Unwritten, OpcodeOf, OwnerOf;
    CounterView(p, k);
    var c := buf[Slot(p, |buf|)];
    OwnByte(c);
    XorZero(OwnerOf(c), Lap(p, |buf|) % 2);
  }

  /** `get_sw_cqe` in plain numbers: its masks and its exclusive or look for an entry that
      is not marked and whose lowest bit is the parity of the consumer's lap. */
  lemma SwCqeOf(buf: seq<Cqe>, k: nat, p: nat)
    requires k < 32 && |buf| == Pow2(k)
    ensures var c := buf[p % |buf|];
            SwCqe(buf, p % 0x1_0000_0000) ==
            if c.opOwn / 16 != 15 && c.opOwn % 2 == p / |buf| % 2 then Some(c) else None
  {
    hide Pow2, SwCqe;
    Pow2Values();
    SwCqeByLap(buf, k, p);
  }

  /** The entry at counter `n` is not marked and has the parity of the counter's lap. */
  predicate FindsAt(buf: seq<Cqe>, n: nat)
    requires |buf| > 0
  {
    var c := buf[n % |buf|];
    c.opOwn / 16 != 15 && c.opOwn % 2 == n / |buf| % 2
  }

  /** The ring is the queue of unread entries: the test finds an entry exactly when
      one is unread, and then it is the oldest, on every lap and across the wrap of
      the 32-bit counter. */
  lemma RingIsFifo(buf: seq<Cqe>, k: nat, log: seq<Cqe>, taken: nat)
    requires RingInv(buf, k, log, taken)
    ensures SwCqe(buf, Wrap(32, taken)) == if taken < |log| then Some(log[taken]) else None
  {
    hide Pow2, SwCqe, Slot, Lap, Unwritten;
    var n := |buf|;
    SwCqeByLap(buf, k, taken);
    if taken < |log| {
      assert StampedAt(log[taken], taken, n);
    } else if taken < n {
      FirstLap(taken, n);
    } else {
      NextLap(taken - n, n);
      assert StampedAt(log[taken - n], taken - n, n);
    }
  }

  /** The hypothesis that the device is at most one lap ahead is exact: within the
      second lap ahead, the test denies that anything is unread. */
  lemma OverrunHidesEntries(buf: seq<Cqe>, k: nat, log: seq<Cqe>, taken: nat)
    requires k < 32 && |buf| == Pow2(k) && Stamped(log, |buf|) && Holds(buf, log)
    requires taken < |log| <= taken + 2 * |buf|
    ensures SwCqe(buf, Wrap(32, taken)) == Some(log[taken]) <==> |log| <= taken + |buf|
    ensures |log| > taken + |buf| ==> SwCqe(buf, Wrap(32, taken)) == None
  {
    hide Pow2, SwCqe, Slot, Lap, Unwritten;
    var n := |buf|;
    if |log| <= taken + n {
      RingIsFifo(buf, k, log, taken);
    } else {
      SwCqeByLap(buf, k, taken);
      NextLap(taken, n);
      assert StampedAt(log[taken + n], taken + n, n);
    }
  }

  /** Without the INVALID marks every slot of a zeroed buffer reads as new on the
      first lap: the marks are what makes a fresh ring empty. */
  lemma ZeroedRingReadsFull(buf: seq<Cqe>, k: nat, n: nat)
    requires k < 32 && |buf| == Pow2(k) && n < |buf|
    requires forall s :: 0 <= s < |buf| ==> buf[s].opOwn == 0
    ensures SwCqe(buf, n) == Some(buf[n])
  {
    hide Pow2, SwCqe, Slot, Lap;
    SwCqeByLap(buf, k, n);
    FirstLap(n, |buf|);
    Pow2Order(k, 32);
    Pow2Order(32, k);
    DivModUnique(n, Pow2(32), 0, n);
  }

  /** A marked buffer is the empty ring. */
  lemma MarkedRingIsEmpty(buf: seq<Cqe>, k: nat)
    requires k < 32 && |buf| == Pow2(k)
    requires forall s :: 0 <= s < |buf| ==> buf[s].opOwn == CQE_INVALID * 16
    ensures RingInv(buf, k, [], 0)
  {
  }

  /** A device write within one lap keeps the ring. */
  lemma DeviceWriteKeepsRing(buf: seq<Cqe>, k: nat, log: seq<Cqe>, taken: nat, c: Cqe)
    requires RingInv(buf, k, log, taken) && |log| < taken + |buf|
    requires StampedAt(c, |log|, |buf|)
    ensures RingInv(buf[Slot(|log|, |buf|) := c], k, log + [c], taken)
  {
    hide Pow2, Unwritten, Slot, Lap;
    var n := |buf|;
    var s := Slot(|log|, n);
    var buf', log' := buf[s := c], log + [c];
    forall p | 0 <= p < |log'| && |log'| - n <= p
      ensures buf'[Slot(p, n)] == log'[p]
    {
      if p < |log| { SlotsDistinct(p, |log|, n); }
    }
    if |log| < n { FirstLap(|log|, n); }
  }

  /** Consuming the oldest entry keeps the ring. */
  lemma ConsumeKeepsRing(buf: seq<Cqe>, k: nat, log: seq<Cqe>, taken: nat)
    requires RingInv(buf, k, log, taken) && taken < |log|
    ensures RingInv(buf, k, log, taken + 1)
  {
  }

  // ---------- the code ----------

  function Flatten(bursts: seq<seq<Cqe>>): seq<Cqe> {
    if bursts == [] then [] else bursts[0] + Flatten(bursts[1..])
  }

  lemma {:induction false} FlattenAppend(a: seq<seq<Cqe>>, b: seq<seq<Cqe>>)
    ensures Flatten(a + b) == Flatten(a) + Flatten(b)
  {
    if a == [] {
      assert a + b == b;
    } else {
      assert (a + b)[0] == a[0] && (a + b)[1..] == a[1..] + b;
      FlattenAppend(a[1..], b);
    }
  }

  lemma FlattenPrefix(bursts: seq<seq<Cqe>>, i: nat)
    requires i < |bursts|
    ensures Flatten(bursts[..i + 1]) == Flatten(bursts[..i]) + bursts[i]
    ensures Flatten(bursts[..i + 1]) <= Flatten(bursts)
  {
    hide *;
    FlattenLast(bursts, i);
    FlattenSplit(bursts, i + 1);
  }

  lemma FlattenLast(bursts: seq<seq<Cqe>>, i: nat)
    requires i < |bursts|
    ensures Flatten(bursts[..i + 1]) == Flatten(bursts[..i]) + bursts[i]
  {
    hide *;
    FlattenOne(bursts[i]);
    FlattenAppend(bursts[..i], [bursts[i]]);
    assert bursts[..i + 1] == bursts[..i] + [bursts[i]];
  }

  lemma FlattenSplit(bursts: seq<seq<Cqe>>, i: nat)
    requires i <= |bursts|
    ensures Flatten(bursts[..i]) <= Flatten(bursts)
  {
    hide *;
    FlattenAppend(bursts[..i], bursts[i..]);
    assert bursts[..i] + bursts[i..] == bursts;
  }

  lemma FlattenOne(burst: seq<Cqe>)
    ensures Flatten([burst]) == burst
  {
    assert Flatten([burst]) == burst + Flatten([]);
  }

  /** The device may write burst `i` after the earlier ones. */
  lemma BurstFits(log: seq<Cqe>, bursts: seq<seq<Cqe>>, i: nat, n: nat)
    requires n > 0 && i < |bursts| && Stamped(log + Flatten(bursts), n)
    ensures (log + Flatten(bursts[..i])) + bursts[i] == log + Flatten(bursts[..i + 1])
    ensures Stamped(log + Flatten(bursts[..i + 1]), n)
    ensures |Flatten(bursts[..i + 1])| <= |Flatten(bursts)|
  {
    hide Flatten, StampedAt;
    FlattenPrefix(bursts, i);
    PrefixStamped(log + Flatten(bursts[..i + 1]), log + Flatten(bursts), n);
  }

  /** `struct pp_dv_cq`. The ghost fields record every entry the device wrote and
      every entry handed on to `parse_cqe`. */
  class DvCq {
    const logSize: nat
    const buf: array<Cqe>
    const db: array<nat>
    var consIndex: nat
    /** The device's own producer count; the consumer never sees it. */
    var written: nat
    ghost var log: seq<Cqe>
    ghost var handed: seq<Cqe>

    ghost predicate Valid()
      reads this, buf
    {
      && db.Length == 2
      && written == |log|
      && |handed| <= |log| && handed == log[..|handed|]
      && consIndex == Wrap(32, |handed|)
      && RingInv(buf[..], logSize, log, |handed|)
    }

    /** The ring part of `pp_create_cq_dv`: a zeroed buffer, then the marking loop. */
    constructor (logSize: nat, zero: seq<nat>)
      requires logSize < 32
      ensures Valid() && fresh(buf) && fresh(db)
      ensures this.logSize == logSize && log == [] && handed == []
      ensures db[0] == 0 && db[1] == 0 && consIndex == 0
    {
      hide Pow2, Wrap, RingInv;
      this.logSize := logSize;
      var d := new nat[2];
      d[0], d[1] := 0, 0;
      db := d;
      var n := Pow2(logSize);
      var b := new Cqe[n](i => Cqe(0, zero));
      consIndex := 0;
      var i := 0;
      while i < n
        invariant 0 <= i <= n == b.Length
        invariant d[0] == 0 && d[1] == 0
        invariant forall s :: 0 <= s < i ==> b[s].opOwn == CQE_INVALID * 16
      {
        b[i] := b[i].(opOwn := CQE_INVALID * 16);
        i := i + 1;
      }
      buf := b;
      written, log, handed := 0, [], [];
      new;
      WrapKeeps(32, 0);
      MarkedRingIsEmpty(buf[..], logSize);
    }

    /** The device completes one request: entry number `|log|`. */
    method DeviceWrite(c: Cqe)
      requires Valid()
      requires |log| < |handed| + buf.Length && StampedAt(c, |log|, buf.Length)
      modifies buf, this`written, this`log
      ensures Valid() && log == old(log) + [c]
    {
      hide Pow2, RingInv, StampedAt;
      DeviceWriteKeepsRing(buf[..], logSize, log, |handed|, c);
      ghost var before := buf[..];
      var s := Slot(written, buf.Length);
      buf[s] := c;
      assert buf[..] == before[s := c];
      written, log := written + 1, log + [c];
    }

    method DeviceBurst(cs: seq<Cqe>)
      requires Valid()
      requires |log| + |cs| <= |handed| + buf.Length && Stamped(log + cs, buf.Length)
      modifies buf, this`written, this`log
      ensures Valid() && log == old(log) + cs
    {
      var i := 0;
      while i < |cs|
        invariant 0 <= i <= |cs| && Valid()
        invariant log == old(log) + cs[..i]
      {
        assert (old(log) + cs)[|log|] == cs[i];
        DeviceWrite(cs[i]);
        i := i + 1;
      }
    }

    /** The test at the consumer's counter, in plain numbers. */
    lemma ReadsAs()
      requires Valid()
      ensures buf.Length > 0 && (SwCqe(buf[..], consIndex).Some? <==> FindsAt(buf[..], consIndex))
    {
      hide Pow2, SwCqe, Slot, Lap, Unwritten, Stamped, Holds;
      Pow2Values();
      SwCqeOf(buf[..], logSize, consIndex);
    }

    method GetNextCqe() returns (err: int, cqe: Option<Cqe>)
      requires Valid()
      modifies this`consIndex, this`handed
      ensures Valid()
      ensures old(|handed|) < |log| ==>
                err == CQ_OK && cqe == Some(log[old(|handed|)]) && |handed| == old(|handed|) + 1
      ensures old(|handed|) == |log| ==> err == CQ_EMPTY && cqe == None && handed == old(handed)
      ensures buf.Length > 0 && (err == CQ_OK <==> FindsAt(buf[..], old(consIndex)))
    {
      assert buf.Length > 0;
      ReadsAs();
      hide Pow2, Wrap, RingInv, SwCqe, FindsAt;
      ghost var ring := buf[..];
      RingIsFifo(ring, logSize, log, |handed|);
      cqe := SwCqe(buf[..], consIndex);
      if cqe == None {
        return CQ_EMPTY, None;
      }
      assert |handed| < |log|;
      ConsumeKeepsRing(ring, logSize, log, |handed|);
      WrapAdd(32, |handed|, 1);
      consIndex := Wrap(32, consIndex + 1);
      handed := handed + [cqe.value];
      err := CQ_OK;
      assert buf[..] == ring;
    }

    /** `poll_one_cq`; `parse_cqe` returns CQ_OK for every entry. */
    method PollOne() returns (err: int)
      requires Valid()
      modifies this`consIndex, this`handed
      ensures Valid()
      ensures old(|handed|) < |log| ==> err == CQ_OK && |handed| == old(|handed|) + 1
      ensures old(|handed|) == |log| ==> err == CQ_EMPTY && handed == old(handed)
    {
      var cqe;
      err, cqe := GetNextCqe();
    }

    /** One test of the polling loop, after what the device writes before it. */
    method PollAfter(arrivals: seq<seq<Cqe>>, k: nat, ghost log0: seq<Cqe>) returns (err: int)
      requires Valid() && buf.Length > 0 && k < |arrivals| && log == log0 + Flatten(arrivals[..k])
      requires |log0| + |Flatten(arrivals)| <= |handed| + buf.Length
      requires Stamped(log0 + Flatten(arrivals), buf.Length)
      modifies buf, this`written, this`log, this`consIndex, this`handed
      ensures Valid() && log == log0 + Flatten(arrivals[..k + 1])
      ensures err == CQ_OK ==> |handed| == old(|handed|) + 1
      ensures err != CQ_OK ==> err == CQ_EMPTY && handed == old(handed) == log
    {
      hide Pow2, Wrap, RingInv, And, Flatten, Stamped;
      BurstFits(log0, arrivals, k, buf.Length);
      DeviceBurst(arrivals[k]);
      err := PollOne();
    }

    /** What a queue in use says of itself. */
    lemma InUse()
      requires Valid()
      ensures |handed| <= |log| && handed == log[..|handed|] && consIndex == Wrap(32, |handed|)
      ensures buf.Length > 0 && db.Length == 2 && CQ_SET_CI == 0
    {
      hide Wrap, Stamped, Holds;
    }

    /** The loop of `pp_dv_poll_cq`. */
    method PollLoop(ne: nat, arrivals: seq<seq<Cqe>>) returns (npolled: nat, err: int)
      requires Valid() && buf.Length > 0 && |arrivals| == ne
      requires |log| + |Flatten(arrivals)| <= |handed| + buf.Length
      requires Stamped(log + Flatten(arrivals), buf.Length)
      modifies buf, this`written, this`log, this`consIndex, this`handed
      ensures Valid() && npolled <= ne && |handed| == old(|handed|) + npolled
      ensures log == old(log) + Flatten(arrivals[..if npolled < ne then npolled + 1 else npolled])
      ensures npolled < ne ==> handed == log
      ensures err != CQ_POLL_ERR
    {
      assert arrivals[..0] == [] && Flatten([]) == [];
      assert CQ_OK == 0 && CQ_EMPTY == -1 && CQ_POLL_ERR == -2;
      hide *;
      npolled, err := 0, CQ_OK;
      while npolled < ne
        invariant npolled <= ne && err == CQ_OK && Valid()
        invariant |handed| == old(|handed|) + npolled
        invariant log == old(log) + Flatten(arrivals[..npolled])
      {
        err := PollAfter(arrivals, npolled, old(log));
        if err != CQ_OK {
          break;
        }
        npolled := npolled + 1;
      }
    }

    /** `pp_dv_poll_cq`, with the device running beside it: `arrivals[i]` is what the
        device writes before the `i`-th test. The consumed entries are the next
        `ret` of the queue, and the call stops short only at an empty ring. */
    method PollCq(ne: nat, arrivals: seq<seq<Cqe>>) returns (ret: int)
      requires Valid()
      requires |arrivals| == ne
      requires |log| + |Flatten(arrivals)| <= |handed| + buf.Length
      requires Stamped(log + Flatten(arrivals), buf.Length)
      modifies buf, db, this`written, this`log, this`consIndex, this`handed
      ensures Valid()
      ensures 0 <= ret <= ne && |handed| == old(|handed|) + ret
      ensures handed == log[..old(|handed|) + ret]
      ensures log == old(log) + Flatten(arrivals[..if ret < ne then ret + 1 else ret])
      ensures ret < ne ==> handed == log
      ensures consIndex == Wrap(32, old(consIndex) + ret)
      ensures db[0] == Wrap(24, consIndex) && db[1] == old(db[1])
    {
      hide *;
      InUse();
      var npolled, err := PollLoop(ne, arrivals);
      InUse();
      WrapAdd(32, old(|handed|), npolled);
      LowMask24(consIndex);
      db[CQ_SET_CI] := And(consIndex, 0xff_ffff);
      ret := if err == CQ_POLL_ERR then err else npolled;
    }
  }

  lemma LowMask24(x: nat)
    ensures And(x, 0xff_ffff) == Wrap(24, x)
  {
    hide Pow2, And;
    Pow2Values();
    AndMask(x, 24);
  }

  lemma PrefixStamped(a: seq<Cqe>, b: seq<Cqe>, n: nat)
    requires n > 0 && a <= b && Stamped(b, n)
    ensures Stamped(a, n)
  {
    assert forall p :: 0 <= p < |a| ==> a[p] == b[p];
  }
}
