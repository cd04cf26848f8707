/** The send and receive rings of pp_dv.c: `struct pp_dv_qp` and the posting calls.

    One buffer holds the receive ring and behind it the send ring. It is modelled as
    its 32-bit words in the device's byte order. Every store also goes into a trace
    of what the CPU issued, in order and with the barriers: that trace is the program
    the concurrent protocol of module RingProtocol runs.
 */
module WorkQueue {
  import opened Bits
  import opened Wrappers
  import opened RingProtocol

  const SEND_SIGNALED := 2
  const SEND_INLINE := 8
  const CTRL_CQ_UPDATE := 8
  const OPCODE_RDMA_WRITE := 0x08
  const OPCODE_RDMA_WRITE_IMM := 0x09
  const OPCODE_SEND_IMM := 0x0a
  const OPCODE_RDMA_READ := 0x10
  const EINVAL := 22
  const RCV_DBR := 0
  const SND_DBR := 1
  const IMM_BASE := 0x5060_7080

  /** One registered buffer: `mr[i]->lkey` and `mrbuf[i]`. */
  datatype Mr = Mr(lkey: nat, addr: nat)

  /** The part of `pp_context` posting reads; `PP_MAX_WR` is `|mrs|`. */
  datatype Context = Context(mrs: seq<Mr>, mrbuflen: nat)

  /** The peer's buffers, from the exchange. */
  datatype Peer = Peer(addr: seq<nat>, mrkey: seq<nat>)

  // ---------- what a WQE contains ----------

  predicate HasRaddr(opcode: nat) {
    opcode == OPCODE_RDMA_WRITE_IMM || opcode == OPCODE_RDMA_WRITE || opcode == OPCODE_RDMA_READ
  }

  function High(x: nat): nat { x / 0x1_0000_0000 % 0x1_0000_0000 }

  function Low(x: nat): nat { x % 0x1_0000_0000 }

  function DataSeg(ctx: Context, i: nat): (r: seq<nat>)
    requires i < |ctx.mrs|
    ensures |r| == 4
  {
    [Low(ctx.mrbuflen), ctx.mrs[i].lkey, High(ctx.mrs[i].addr), Low(ctx.mrs[i].addr)]
  }

  function RaddrSeg(peer: Peer, id: nat): seq<nat>
    requires id < |peer.addr| && id < |peer.mrkey|
  {
    [High(peer.addr[id]), Low(peer.addr[id]), peer.mrkey[id], 0]
  }

  /** Index and opcode in one word. */
  function Header(j: nat, opcode: nat): nat { Or(Wrap(16, j) * 256, opcode) }

  /** Size in 16-byte units and queue number in one word; the shift keeps 32 bits. */
  function QpnDs(size: nat, qpn: nat): nat { Or(size, Wrap(32, qpn * 256)) }

  /** The flag word: a signalled WQE asks for a completion. */
  function FmCeSe(flags: nat): nat {
    if And(flags, SEND_SIGNALED) != 0 then CTRL_CQ_UPDATE else 0
  }

  ghost predicate SendArgs(ctx: Context, peer: Peer, id: nat) {
    id < |ctx.mrs| && id < |peer.addr| && id < |peer.mrkey|
  }

  /** The `j`-th WQE of the send ring, for buffer `id`. */
  function SendWqe(j: nat, qpn: nat, ctx: Context, peer: Peer, id: nat, opcode: nat, flags: nat): (w: Wqe)
    requires id < |ctx.mrs| && id < |peer.addr| && id < |peer.mrkey|
    ensures |w| == if HasRaddr(opcode) then 12 else 8
  {
    [Header(j, opcode), QpnDs(if HasRaddr(opcode) then 3 else 2, qpn), FmCeSe(flags), Low(IMM_BASE + id)]
    + (if HasRaddr(opcode) then RaddrSeg(peer, id) else [])
    + DataSeg(ctx, id)
  }

  /** The device reads index and opcode back from the header. */
  lemma HeaderRecovers(j: nat, opcode: nat)
    requires opcode < 256
    ensures Header(j, opcode) / 256 == Wrap(16, j) && Header(j, opcode) % 256 == opcode
  {
    hide Pow2, Or, Wrap;
    Pow2Values();
    OrFields(Wrap(16, j), 8, opcode);
  }

  /** The device reads the size back, and the low 24 bits of the queue number. */
  lemma QpnDsRecovers(size: nat, qpn: nat)
    requires size < 64
    ensures QpnDs(size, qpn) % 64 == size && QpnDs(size, qpn) / 256 == Wrap(24, qpn)
  {
    hide Pow2, Or, Wrap;
    Pow2Values();
    ShiftedWrap(qpn);
    OrCommutes(size, Wrap(24, qpn) * 256);
    OrFields(Wrap(24, qpn), 8, size);
    FieldsBack(Wrap(24, qpn), size);
  }

  /** The size and the queue number fill 32 bits and no more. */
  lemma QpnDsFits(size: nat, qpn: nat)
    requires size < 64
    ensures QpnDs(size, qpn) < 0x1_0000_0000
  {
    hide Pow2, Or;
    Pow2Values();
    QpnDsRecovers(size, qpn);
    hide QpnDs;
  }

  lemma FieldsBack(high: nat, low: nat)
    requires low < 64
    ensures (high * 256 + low) % 64 == low && (high * 256 + low) / 256 == high
  {
    hide *;
    DivModUnique(high * 256 + low, 64, high * 4, low);
    DivModUnique(high * 256 + low, 256, high, low);
  }

  lemma ShiftedWrap(q: nat)
    ensures Wrap(32, q * 256) == Wrap(24, q) * 256
  {
    hide Pow2;
    Pow2Values();
    DivModUnique(q * 256, 0x1_0000_0000, q / 0x100_0000, q % 0x100_0000 * 256);
  }

  lemma {:induction false} OrCommutes(x: nat, y: nat)
    ensures Or(x, y) == Or(y, x)
  {
    if x != 0 && y != 0 { OrCommutes(x / 2, y / 2); }
  }

  /** The size field tells the device the length of the WQE. */
  lemma SendWqeComplete(j: nat, qpn: nat, ctx: Context, peer: Peer, id: nat, opcode: nat, flags: nat)
    requires SendArgs(ctx, peer, id)
    ensures Complete(SendRing, SendWqe(j, qpn, ctx, peer, id, opcode, flags))
  {
    hide Pow2, Or, And, Wrap, QpnDs;
    QpnDsRecovers(if HasRaddr(opcode) then 3 else 2, qpn);
  }

  // ---------- what the device reads from a WQE, in plain numbers ----------

  /** A scatter entry: the buffer's length, key and 64-bit address. */
  ghost predicate SegTells(s: seq<nat>, ctx: Context, i: nat)
    requires i < |ctx.mrs|
  {
    && |s| == 4
    && s[0] == ctx.mrbuflen % 0x1_0000_0000
    && s[1] == ctx.mrs[i].lkey
    && s[2] * 0x1_0000_0000 + s[3] == ctx.mrs[i].addr
  }

  /** A send WQE: index, opcode, queue number, size, whether a completion is asked for,
      the immediate; for an RDMA operation address and key of the peer; then the buffer. */
  ghost predicate SendTells(w: Wqe, j: nat, qpn: nat, ctx: Context, peer: Peer, id: nat, opcode: nat, flags: nat)
    requires SendArgs(ctx, peer, id)
  {
    && |w| == (if opcode in {8, 9, 16} then 12 else 8)
    && w[0] / 256 == j % 0x1_0000 && w[0] % 256 == opcode
    && w[1] / 256 == qpn % 0x100_0000 && 4 * (w[1] % 64) == |w|
    && w[2] == (if flags / 2 % 2 == 1 then 8 else 0)
    && w[3] == (0x5060_7080 + id) % 0x1_0000_0000
    && (|w| == 12 ==> w[4] * 0x1_0000_0000 + w[5] == peer.addr[id] && w[6] == peer.mrkey[id] && w[7] == 0)
    && SegTells(w[|w| - 4..], ctx, id)
  }

  lemma HighLow(x: nat)
    requires x < 0x1_0000_0000_0000_0000
    ensures High(x) * 0x1_0000_0000 + Low(x) == x
  {
    DivModUnique(x / 0x1_0000_0000, 0x1_0000_0000, 0, x / 0x1_0000_0000);
  }

  /** A bit test of the program in plain numbers. */
  lemma BitSet(x: nat, k: nat)
    ensures And(x, Pow2(k)) != 0 <==> x / Pow2(k) % 2 == 1
  {
    hide Pow2, And;
    AndBit(x, k);
  }

  lemma FlagBits(flags: nat)
    ensures And(flags, SEND_SIGNALED) != 0 <==> flags / 2 % 2 == 1
    ensures And(flags, SEND_INLINE) != 0 <==> flags / 8 % 2 == 1
  {
    assert Pow2(1) == 2 && Pow2(3) == 8;
    hide Pow2, And;
    BitSet(flags, 1);
    BitSet(flags, 3);
  }

  /** The device finds the buffer in a scatter entry. */
  lemma DataSegTells(ctx: Context, i: nat)
    requires i < |ctx.mrs| && ctx.mrs[i].addr < 0x1_0000_0000_0000_0000
    ensures SegTells(DataSeg(ctx, i), ctx, i)
  {
    HighLow(ctx.mrs[i].addr);
  }

  lemma RaddrSegTells(peer: Peer, id: nat)
    requires id < |peer.addr| && id < |peer.mrkey| && peer.addr[id] < 0x1_0000_0000_0000_0000
    ensures var r := RaddrSeg(peer, id);
            |r| == 4 && r[0] * 0x1_0000_0000 + r[1] == peer.addr[id] && r[2] == peer.mrkey[id] && r[3] == 0
  {
    HighLow(peer.addr[id]);
  }

  /** Where the parts of a send WQE are. */
  lemma SendWqeAt(j: nat, qpn: nat, ctx: Context, peer: Peer, id: nat, opcode: nat, flags: nat)
    requires SendArgs(ctx, peer, id)
    ensures var w, size := SendWqe(j, qpn, ctx, peer, id, opcode, flags), if opcode in {8, 9, 16} then 3 else 2;
            && |w| == 4 * size && w[0] == Header(j, opcode) && w[1] == QpnDs(size, qpn) && w[2] == FmCeSe(flags)
            && w[3] == (0x5060_7080 + id) % 0x1_0000_0000 && w[|w| - 4..] == DataSeg(ctx, id)
            && (size == 3 ==> |RaddrSeg(peer, id)| == 4 && w[4..8] == RaddrSeg(peer, id))
  {
    hide Header, QpnDs, FmCeSe, DataSeg, High;
  }

  /** Every part of a send WQE is what the caller asked for. */
  lemma SendWqeTells(j: nat, qpn: nat, ctx: Context, peer: Peer, id: nat, opcode: nat, flags: nat)
    requires SendArgs(ctx, peer, id) && opcode < 256
    requires ctx.mrs[id].addr < 0x1_0000_0000_0000_0000 && peer.addr[id] < 0x1_0000_0000_0000_0000
    ensures SendTells(SendWqe(j, qpn, ctx, peer, id, opcode, flags), j, qpn, ctx, peer, id, opcode, flags)
  {
    hide And, Or, Wrap, Header, QpnDs, DataSeg, RaddrSeg, SendWqe, SegTells;
    SendWqeAt(j, qpn, ctx, peer, id, opcode, flags);
    FlagBits(flags);
    HeaderRecovers(j, opcode);
    QpnDsRecovers(if opcode in {8, 9, 16} then 3 else 2, qpn);
    WrapIs(j, qpn);
    DataSegTells(ctx, id);
    RaddrSegTells(peer, id);
  }

  lemma WrapIs(j: nat, qpn: nat)
    ensures Wrap(16, j) == j % 0x1_0000 && Wrap(24, qpn) == qpn % 0x100_0000
  {
    hide Pow2;
    Pow2Values();
  }

  // ---------- descriptor stores, in the order of the code ----------

  function Ascending(slot: nat, from: nat, words: seq<nat>): seq<Instr> {
    seq(|words|, i requires 0 <= i < |words| => Store(Word(slot, from + i), words[i]))
  }

  /** post_send_one: word 2 twice, the immediate, the segments, the header last. */
  function SendDesc(slot: nat, w: Wqe): seq<Instr>
    requires |w| >= 4
  {
    [Store(Word(slot, 2), 0), Store(Word(slot, 3), w[3]), Store(Word(slot, 2), w[2])]
    + Ascending(slot, 4, w[4..])
    + [Store(Word(slot, 0), w[0]), Store(Word(slot, 1), w[1])]
  }

  /** pp_dv_post_recv: one data segment a slot. */
  function RecvDesc(first: nat, ws: seq<Wqe>, n: nat): seq<Instr>
    requires n > 0
  {
    if ws == [] then []
    else RecvDesc(first, ws[..|ws| - 1], n) + Ascending(Slot(first + |ws| - 1, n), 0, ws[|ws| - 1])
  }

  lemma {:induction false} AscendingLast(slot: nat, from: nat, words: seq<nat>, w: nat)
    ensures LastStore(Ascending(slot, from, words), Word(slot, w)) ==
            if from <= w < from + |words| then Some(words[w - from]) else None
    decreases |words|
  {
    if words == [] {
    } else {
      var a := Ascending(slot, from, words);
      assert a[1..] == Ascending(slot, from + 1, words[1..]);
      AscendingLast(slot, from + 1, words[1..], w);
    }
  }

  lemma {:induction false} AscendingElsewhere(slot: nat, from: nat, words: seq<nat>, l: Loc)
    requires l.Word? && l.slot != slot
    ensures LastStore(Ascending(slot, from, words), l) == None
    decreases |words|
  {
    if words != [] {
      assert Ascending(slot, from, words)[1..] == Ascending(slot, from + 1, words[1..]);
      AscendingElsewhere(slot, from + 1, words[1..], l);
    }
  }

  lemma SendDescLast(slot: nat, wqe: Wqe, w: nat)
    requires |wqe| >= 4 && w < |wqe|
    ensures LastStore(SendDesc(slot, wqe), Word(slot, w)) == Some(wqe[w])
  {
    var a := [Store(Word(slot, 2), 0), Store(Word(slot, 3), wqe[3]), Store(Word(slot, 2), wqe[2])];
    var m := Ascending(slot, 4, wqe[4..]);
    var z := [Store(Word(slot, 0), wqe[0]), Store(Word(slot, 1), wqe[1])];
    var l := Word(slot, w);
    LastStoreAppend(a + m, z, l);
    LastStoreAppend(a, m, l);
    AscendingLast(slot, 4, wqe[4..], w);
    LastOfTwo(z[0], z[1], l);
    LastOfTwo(a[1], a[2], l);
    assert a[1..] == [a[1], a[2]];
  }

  lemma LastOfTwo(x: Instr, y: Instr, l: Loc)
    requires x.Store? && y.Store?
    ensures LastStore([x, y], l) == if y.loc == l then Some(y.val) else if x.loc == l then Some(x.val) else None
  {
    assert [x, y][1..] == [y] && [y][1..] == [];
    assert LastStore([y], l) == if y.loc == l then Some(y.val) else None;
  }

  /** The stores of post_send_one describe exactly the WQE posted. */
  lemma SendDescribes(j: nat, w: Wqe, n: nat)
    requires n > 0 && |w| >= 4
    ensures Describes(SendDesc(Slot(j, n), w), j, [w], n)
  {
    var d := SendDesc(Slot(j, n), w);
    IndexOfSlot(j, j, n);
    hide Slot, IndexFrom, LastStore;
    forall i | 0 <= i < |d|
      ensures DescStore(d[i], j, [w], n)
    {
      assert d[i].loc.slot == Slot(j, n) && d[i].loc.w < |w|;
    }
    forall m, v | 0 <= m < |[w]| && 0 <= v < |[w][m]|
      ensures LastStore(d, Word(Slot(j + m, n), v)) == Some([w][m][v])
    {
      SendDescLast(Slot(j, n), w, v);
    }
  }

  lemma {:induction false} RecvDescStores(first: nat, ws: seq<Wqe>, all: seq<Wqe>, n: nat, i: nat)
    requires n > 0 && |all| <= n && ws <= all && i < |RecvDesc(first, ws, n)|
    ensures DescStore(RecvDesc(first, ws, n)[i], first, all, n)
    decreases |ws|
  {
    var last := |ws| - 1;
    var init := RecvDesc(first, ws[..last], n);
    hide Slot, IndexFrom;
    if i < |init| {
      RecvDescStores(first, ws[..last], all, n, i);
    } else {
      IndexOfSlot(first + last, first, n);
    }
  }

  lemma {:induction false} RecvDescLast(first: nat, ws: seq<Wqe>, n: nat, m: nat, w: nat)
    requires n > 0 && |ws| <= n && m < |ws| && w < |ws[m]|
    ensures LastStore(RecvDesc(first, ws, n), Word(Slot(first + m, n), w)) == Some(ws[m][w])
    decreases |ws|
  {
    hide Slot;
    var last := |ws| - 1;
    var l := Word(Slot(first + m, n), w);
    var tail := Ascending(Slot(first + last, n), 0, ws[last]);
    LastStoreAppend(RecvDesc(first, ws[..last], n), tail, l);
    if m < last {
      SlotsDistinct(first + m, first + last, n);
      AscendingElsewhere(Slot(first + last, n), 0, ws[last], l);
      RecvDescLast(first, ws[..last], n, m, w);
    } else {
      AscendingLast(Slot(first + last, n), 0, ws[last], w);
    }
  }

  /** A receive batch of at most the ring size overwrites nothing of itself. */
  lemma RecvDescribes(first: nat, ws: seq<Wqe>, n: nat)
    requires n > 0 && |ws| <= n
    ensures Describes(RecvDesc(first, ws, n), first, ws, n)
  {
    hide Slot, RecvDesc, DescStore;
    forall i | 0 <= i < |RecvDesc(first, ws, n)|
      ensures DescStore(RecvDesc(first, ws, n)[i], first, ws, n)
    {
      RecvDescStores(first, ws, ws, n, i);
    }
    forall m, w | 0 <= m < |ws| && 0 <= w < |ws[m]|
      ensures LastStore(RecvDesc(first, ws, n), Word(Slot(first + m, n), w)) == Some(ws[m][w])
    {
      RecvDescLast(first, ws, n, m, w);
    }
  }

  // ---------- rings in the buffer ----------

  /** The last lap of `log` is in a ring of `n` slots of `stride` words at `base`. */
  ghost predicate RingHolds(words: seq<nat>, base: nat, stride: nat, n: nat, log: seq<Wqe>)
    requires n > 0
  {
    && base + stride * n <= |words|
    && (forall j :: 0 <= j < |log| ==> |log[j]| <= stride)
    && (forall j, w :: 0 <= j < |log| && |log| - n <= j && 0 <= w < |log[j]| ==>
          InRing(j, w, base, stride, n) < |words| && words[InRing(j, w, base, stride, n)] == log[j][w])
  }

  /** The address of word `w` of the WQE with index `j`. */
  function InRing(j: nat, w: nat, base: nat, stride: nat, n: nat): nat
    requires n > 0
  {
    base + stride * Slot(j, n) + w
  }

  /** `words'` is `words` with `w` written at `at`. */
  ghost predicate Wrote(words: seq<nat>, words': seq<nat>, at: nat, w: Wqe) {
    && |words'| == |words| && at + |w| <= |words|
    && (forall i :: 0 <= i < |w| ==> words'[at + i] == w[i])
    && (forall i :: 0 <= i < |words| && (i < at || at + |w| <= i) ==> words'[i] == words[i])
  }

  lemma InRingBounds(j: nat, w: nat, base: nat, stride: nat, n: nat)
    requires n > 0 && w < stride
    ensures base + stride * Slot(j, n) <= InRing(j, w, base, stride, n) < base + stride * n
  {
    hide Slot;
    MulLe(Slot(j, n) + 1, n, stride);
    assert (Slot(j, n) + 1) * stride == stride * Slot(j, n) + stride;
  }

  /** Slots of different index are apart. */
  lemma InRingApart(i: nat, j: nat, w: nat, base: nat, stride: nat, n: nat)
    requires n > 0 && w < stride && Slot(i, n) != Slot(j, n)
    ensures InRing(i, w, base, stride, n) < base + stride * Slot(j, n) ||
            InRing(i, w, base, stride, n) >= base + stride * Slot(j, n) + stride
  {
    hide Slot;
    var a, b := Slot(i, n), Slot(j, n);
    if a < b {
      MulLe(a + 1, b, stride);
      assert (a + 1) * stride == stride * a + stride && b * stride == stride * b;
    } else {
      MulLe(b + 1, a, stride);
      assert (b + 1) * stride == stride * b + stride && a * stride == stride * a;
    }
  }

  /** Writing the next WQE into its slot extends the log; the lap before it keeps. */
  lemma AppendToRing(words: seq<nat>, words': seq<nat>, base: nat, stride: nat, n: nat, log: seq<Wqe>, w: Wqe)
    requires n > 0 && RingHolds(words, base, stride, n, log) && |w| <= stride
    requires Wrote(words, words', base + stride * Slot(|log|, n), w)
    ensures RingHolds(words', base, stride, n, log + [w])
  {
    hide Slot;
    var log' := log + [w];
    forall j, v | 0 <= j < |log'| && |log'| - n <= j && 0 <= v < |log'[j]|
      ensures InRing(j, v, base, stride, n) < |words'|
      ensures words'[InRing(j, v, base, stride, n)] == log'[j][v]
    {
      InRingBounds(j, v, base, stride, n);
      if j < |log| {
        SlotsDistinct(j, |log|, n);
        InRingApart(j, |log|, v, base, stride, n);
      } else {
        assert words'[base + stride * Slot(|log|, n) + v] == w[v];
      }
    }
  }

  /** A ring is untouched by writes outside it. */
  lemma RingUntouched(words: seq<nat>, words': seq<nat>, base: nat, stride: nat, n: nat, log: seq<Wqe>)
    requires n > 0 && RingHolds(words, base, stride, n, log) && |words'| == |words|
    requires forall i :: base <= i < base + stride * n ==> words'[i] == words[i]
    ensures RingHolds(words', base, stride, n, log)
  {
    assert base + stride * n <= |words| && forall j :: 0 <= j < |log| ==> |log[j]| <= stride;
    hide Slot, InRing;
    forall j, v | 0 <= j < |log| && |log| - n <= j && 0 <= v < |log[j]|
      ensures InRing(j, v, base, stride, n) < |words'|
      ensures words'[InRing(j, v, base, stride, n)] == log[j][v]
    {
      WordUntouched(words, words', base, stride, n, log, j, v);
    }
  }

  lemma WordUntouched(words: seq<nat>, words': seq<nat>, base: nat, stride: nat, n: nat, log: seq<Wqe>, j: nat, v: nat)
    requires n > 0 && RingHolds(words, base, stride, n, log) && |words'| == |words|
    requires forall i :: base <= i < base + stride * n ==> words'[i] == words[i]
    requires j < |log| <= j + n && v < |log[j]|
    ensures InRing(j, v, base, stride, n) < |words'|
    ensures words'[InRing(j, v, base, stride, n)] == log[j][v]
  {
    var at := InRing(j, v, base, stride, n);
    assert |log[j]| <= stride && words[at] == log[j][v];
    hide RingHolds, Slot, InRing;
    InRingBounds(j, v, base, stride, n);
    MulLe(0, Slot(j, n), stride);
  }
}
