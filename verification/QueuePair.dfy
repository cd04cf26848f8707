/** `struct pp_dv_qp` and the calls that post to it. */
module QueuePair {
  import opened Bits
  import opened Wrappers
  import opened Sizing
  import opened Ilog
  import opened Util
  import opened RingProtocol
  import opened WorkQueue

  // ---------- the stores of post_send_one on the words of the buffer ----------

  function Overlay(b: seq<nat>, at: nat, words: seq<nat>): seq<nat>
    requires at + |words| <= |b|
  {
    b[..at] + words + b[at + |words|..]
  }

  /** The segments at word 4 of the slot at `at`, four words at a time. */
  function Segmented(b: seq<nat>, at: nat, words: seq<nat>): seq<nat>
    requires |words| == 4 || |words| == 8
    requires at + 4 + |words| <= |b|
  {
    if |words| == 8 then Overlay(Overlay(b, at + 4, words[..4]), at + 8, words[4..])
    else Overlay(b, at + 4, words)
  }

  function SegWords(ctx: Context, peer: Peer, id: nat, opcode: nat): (r: seq<nat>)
    requires id < |ctx.mrs| && id < |peer.addr| && id < |peer.mrkey|
    ensures |r| == if HasRaddr(opcode) then 8 else 4
  {
    (if HasRaddr(opcode) then RaddrSeg(peer, id) else []) + DataSeg(ctx, id)
  }

  lemma SendWqeParts(j: nat, qpn: nat, ctx: Context, peer: Peer, id: nat, opcode: nat, flags: nat)
    requires id < |ctx.mrs| && id < |peer.addr| && id < |peer.mrkey|
    ensures var w := SendWqe(j, qpn, ctx, peer, id, opcode, flags);
            && w[0] == Header(j, opcode)
            && w[1] == QpnDs(if HasRaddr(opcode) then 3 else 2, qpn)
            && w[2] == FmCeSe(flags) && w[3] == Low(IMM_BASE + id)
            && w[4..] == SegWords(ctx, peer, id, opcode)
            && |w| / 4 == (if HasRaddr(opcode) then 3 else 2)
  {
    hide Header, QpnDs, FmCeSe, Low, DataSeg, RaddrSeg;
    var w := SendWqe(j, qpn, ctx, peer, id, opcode, flags);
    var head := [Header(j, opcode), QpnDs(if HasRaddr(opcode) then 3 else 2, qpn), FmCeSe(flags), Low(IMM_BASE + id)];
    assert w == head + SegWords(ctx, peer, id, opcode);
  }

  lemma OverlayFour(b: seq<nat>, at: nat, seg: seq<nat>)
    requires |seg| == 4 && at + 4 <= |b|
    ensures b[at := seg[0]][at + 1 := seg[1]][at + 2 := seg[2]][at + 3 := seg[3]] == Overlay(b, at, seg)
  {
  }

  lemma AscendingFour(slot: nat, w: nat, seg: seq<nat>)
    requires |seg| == 4
    ensures Ascending(slot, w, seg) == [Store(Word(slot, w), seg[0])] + [Store(Word(slot, w + 1), seg[1])]
                                       + [Store(Word(slot, w + 2), seg[2])] + [Store(Word(slot, w + 3), seg[3])]
  {
  }

  function AfterSend(b: seq<nat>, at: nat, w: Wqe): seq<nat>
    requires |w| == 8 || |w| == 12
    requires at + |w| <= |b|
  {
    Segmented(b[at + 2 := 0][at + 3 := w[3]][at + 2 := w[2]], at, w[4..])[at := w[0]][at + 1 := w[1]]
  }

  /** Each WQE takes exactly one basic block. */
  lemma OneBlock(size: nat)
    requires size == 2 || size == 3
    ensures DivRoundUp(size * 16, SEND_WQE_BB) == 1
  {
  }

  lemma HeaderWords(b: seq<nat>, at: nat, w: Wqe)
    requires |w| == 8 || |w| == 12
    requires at + |w| <= |b|
    ensures |AfterSend(b, at, w)| == |b|
    ensures AfterSend(b, at, w)[at] == w[0] && AfterSend(b, at, w)[at + 1] == w[1]
  {
  }

  lemma AfterSendFrom(b: seq<nat>, at: nat, w: Wqe, imm: nat, fm: nat, segs: seq<nat>, h: nat, q: nat)
    requires |segs| == 4 || |segs| == 8
    requires |w| == 4 + |segs| && w[3] == imm && w[2] == fm && w[4..] == segs && w[0] == h && w[1] == q
    requires at + 4 + |segs| <= |b|
    ensures Segmented(b[at + 2 := 0][at + 3 := imm][at + 2 := fm], at, segs)[at := h][at + 1 := q] ==
        AfterSend(b, at, w)
  {
  }

  lemma SendDescFrom(slot: nat, w: Wqe, imm: nat, fm: nat, segs: seq<nat>, h: nat, q: nat, t: seq<Instr>)
    requires |w| == 4 + |segs| && w[3] == imm && w[2] == fm && w[4..] == segs && w[0] == h && w[1] == q
    ensures t + [Store(Word(slot, 2), 0), Store(Word(slot, 3), imm), Store(Word(slot, 2), fm)]
            + Ascending(slot, 4, segs) + [Store(Word(slot, 0), h), Store(Word(slot, 1), q)] == t + SendDesc(slot, w)
  {
  }

  lemma EmptyRing(words: seq<nat>, base: nat, stride: nat, n: nat)
    requires n > 0 && base + RingWords(stride, n) <= |words|
    ensures RingHolds(words, base, stride, n, [])
  {
  }

  /** Nothing outside `[lo, hi)` changed. */
  ghost predicate OutsideKept(b: seq<nat>, b': seq<nat>, lo: nat, hi: nat) {
    |b'| == |b| && forall i :: 0 <= i < |b| && (i < lo || hi <= i) ==> b'[i] == b[i]
  }

  /** Writing the next send WQE extends the send ring and leaves the receive ring. */
  lemma SendKeepsRings(b: seq<nat>, b': seq<nat>, at: nat, base: nat, n: nat, sent: seq<Wqe>, w: Wqe,
                       stride: nat, m: nat, posted: seq<Wqe>)
    requires n > 0 && m > 0 && base == RingWords(stride, m)
    requires RingHolds(b, base, 16, n, sent) && RingHolds(b, 0, stride, m, posted)
    requires |w| == 8 || |w| == 12
    requires at == base + 16 * Slot(|sent|, n) && at + 16 <= |b| && b' == AfterSend(b, at, w)
    ensures RingHolds(b', base, 16, n, sent + [w]) && RingHolds(b', 0, stride, m, posted)
    ensures OutsideKept(b, b', base, base + 16 * n)
    ensures b'[at] == w[0] && b'[at + 1] == w[1]
  {
    hide RingHolds, Slot, AfterSend;
    AfterSendWrote(b, at, w);
    HeaderWords(b, at, w);
    AppendToRing(b, b', base, 16, n, sent, w);
    RingUntouched(b, b', 0, stride, m, posted);
  }

  /** Writing the next receive WQE extends the receive ring and leaves the send ring. */
  lemma RecvKeepsRings(b: seq<nat>, b': seq<nat>, base: nat, n: nat, sent: seq<Wqe>, w: Wqe,
                       stride: nat, m: nat, posted: seq<Wqe>)
    requires n > 0 && m > 0 && base == RingWords(stride, m) && |w| == 4 <= stride
    requires RingHolds(b, base, 16, n, sent) && RingHolds(b, 0, stride, m, posted)
    requires stride * Slot(|posted|, m) + 4 <= |b|
    requires b' == Overlay(b, stride * Slot(|posted|, m), w)
    ensures RingHolds(b', base, 16, n, sent) && RingHolds(b', 0, stride, m, posted + [w])
    ensures OutsideKept(b, b', 0, base)
  {
    hide RingHolds, Slot, InRing, Overlay, RingWords, Wrote, OutsideKept;
    var at := stride * Slot(|posted|, m);
    SegmentBelow(|posted|, stride, m);
    OverlayWrote(b, at, w, base);
    RingFits(b, base, 16, n, sent);
    AppendToRing(b, b', 0, stride, m, posted, w);
    RingUntouched(b, b', base, 16, n, sent);
  }

  /** The segment of a slot ends inside the ring. */
  lemma SegmentBelow(p: nat, stride: nat, m: nat)
    requires m > 0 && stride >= 4
    ensures 0 <= stride * Slot(p, m) && stride * Slot(p, m) + 4 <= RingWords(stride, m)
  {
    hide Slot;
    MulLe(Slot(p, m) + 1, m, stride);
    assert (Slot(p, m) + 1) * stride == stride * Slot(p, m) + stride && m * stride == stride * m;
  }

  lemma OverlayWrote(b: seq<nat>, at: nat, w: seq<nat>, end: nat)
    requires at + |w| <= |b| && at + |w| <= end
    ensures Wrote(b, Overlay(b, at, w), 0 + at, w) && OutsideKept(b, Overlay(b, at, w), 0, end)
    ensures |Overlay(b, at, w)| == |b| && forall i :: end <= i < |b| ==> Overlay(b, at, w)[i] == b[i]
  {
  }

  lemma RingFits(b: seq<nat>, base: nat, stride: nat, n: nat, log: seq<Wqe>)
    requires n > 0 && RingHolds(b, base, stride, n, log)
    ensures base + stride * n <= |b|
  {
  }

  lemma AfterSendWrote(b: seq<nat>, at: nat, w: Wqe)
    requires |w| == 8 || |w| == 12
    requires at + |w| <= |b|
    ensures Wrote(b, AfterSend(b, at, w), at, w)
  {
    var c: seq<nat> := b[at + 2 := 0][at + 3 := w[3]][at + 2 := w[2]];
    var d: seq<nat> := Segmented(c, at, w[4..]);
    var e: seq<nat> := d[at := w[0]];
    SegmentedAt(c, at, w[4..]);
    hide Segmented;
    assert AfterSend(b, at, w) == e[at + 1 := w[1]];
    forall i | 0 <= i < |b|
      ensures AfterSend(b, at, w)[i] == if at <= i < at + |w| then w[i - at] else b[i]
    {
      if at + 4 <= i < at + |w| { assert w[4..][i - (at + 4)] == w[i - at]; }
    }
  }

  lemma SegmentedAt(b: seq<nat>, at: nat, words: seq<nat>)
    requires |words| == 4 || |words| == 8
    requires at + 4 + |words| <= |b|
    ensures |Segmented(b, at, words)| == |b|
    ensures forall i :: 0 <= i < |b| ==>
              Segmented(b, at, words)[i] == if at + 4 <= i < at + 4 + |words| then words[i - (at + 4)] else b[i]
  {
    if |words| == 8 {
      OverlayAt(b, at + 4, words[..4]);
      OverlayAt(Overlay(b, at + 4, words[..4]), at + 8, words[4..]);
    } else {
      OverlayAt(b, at + 4, words);
    }
    hide Overlay;
  }

  lemma OverlayAt(b: seq<nat>, at: nat, words: seq<nat>)
    requires at + |words| <= |b|
    ensures |Overlay(b, at, words)| == |b|
    ensures forall i :: 0 <= i < |b| ==>
              Overlay(b, at, words)[i] == if at <= i < at + |words| then words[i - at] else b[i]
  {
  }

  lemma AscendingJoin(slot: nat, from: nat, a: seq<nat>, b: seq<nat>)
    ensures Ascending(slot, from, a) + Ascending(slot, from + |a|, b) == Ascending(slot, from, a + b)
  {
  }

  /** The doorbell register gets the first two words of the WQE. */
  function Bell(w: Wqe): nat
    requires |w| >= 2
  {
    w[0] * 0x1_0000_0000 + w[1]
  }

  /** The upper half of the register is the first word and the lower half the second. */
  lemma BellTells(j: nat, qpn: nat, ctx: Context, peer: Peer, id: nat, opcode: nat, flags: nat)
    requires SendArgs(ctx, peer, id)
    ensures var w := SendWqe(j, qpn, ctx, peer, id, opcode, flags);
            Bell(w) / 0x1_0000_0000 == w[0] && Bell(w) % 0x1_0000_0000 == w[1]
  {
    var w := SendWqe(j, qpn, ctx, peer, id, opcode, flags);
    hide Header, QpnDs, FmCeSe, DataSeg, RaddrSeg, SendWqe;
    SendWqeParts(j, qpn, ctx, peer, id, opcode, flags);
    QpnDsFits(if HasRaddr(opcode) then 3 else 2, qpn);
    DivModUnique(Bell(w), 0x1_0000_0000, w[0], w[1]);
  }

  lemma MaskedIndex(p: nat, k: nat)
    requires k <= 32
    ensures And(Wrap(32, p), Pow2(k) - 1) == Slot(p, Pow2(k))
  {
    hide Pow2, And;
    AndMask(Wrap(32, p), k);
    Pow2ModOfMod(p, k, 32);
  }

  lemma Masked16(p: nat)
    ensures And(Wrap(32, p), 0xffff) == Wrap(16, p)
  {
    hide Pow2, And;
    Pow2Values();
    AndMask(Wrap(32, p), 16);
    Pow2ModOfMod(p, 16, 32);
  }

  /** Words of a ring of `n` slots of `stride` words. */
  function RingWords(stride: nat, n: nat): nat { stride * n }

  /** The WQEs of one `pp_dv_post_send` call: buffer `i` at index `j + i`. */
  function SendBatch(j: nat, qpn: nat, ctx: Context, peer: Peer, k: nat, opcode: nat, flags: nat): (r: seq<Wqe>)
    requires k <= |ctx.mrs| && k <= |peer.addr| && k <= |peer.mrkey|
    ensures |r| == k
  {
    if k == 0 then []
    else SendBatch(j, qpn, ctx, peer, k - 1, opcode, flags) + [SendWqe(j + k - 1, qpn, ctx, peer, k - 1, opcode, flags)]
  }

  /** Everything issued for the send ring: each WQE's stores, barriers and doorbells. */
  function SendTrace(sent: seq<Wqe>, n: nat): seq<Instr>
    requires n > 0
    requires forall j :: 0 <= j < |sent| ==> |sent[j]| >= 4
  {
    if sent == [] then []
    else
      var j := |sent| - 1;
      SendTrace(sent[..j], n) + Program(SendDesc(Slot(j, n), sent[j]), j + 1, Some(Bell(sent[j])))
  }

  ghost predicate Traced(trace: seq<Instr>, sent: seq<Wqe>, n: nat)
    requires n > 0
  {
    (forall j :: 0 <= j < |sent| ==> |sent[j]| >= 4) && trace == SendTrace(sent, n)
  }

  lemma TraceStep(trace: seq<Instr>, sent: seq<Wqe>, w: Wqe, n: nat)
    requires n > 0 && |w| >= 4 && Traced(trace, sent, n)
    ensures Traced(trace + Program(SendDesc(Slot(|sent|, n), w), |sent| + 1, Some(Bell(w))), sent + [w], n)
  {
    assert (sent + [w])[..|sent|] == sent;
  }

  lemma ProgramIs(t: seq<Instr>, desc: seq<Instr>, count: nat, bell: nat)
    ensures t + Program(desc, count, Some(bell)) ==
            t + desc + [Barrier, Store(DbRec, Wrap(16, count)), Barrier, Store(Uar, bell)]
  {
    hide Wrap;
  }

  /** The trace after one more WQE, as it is issued. */
  lemma TraceGrows(t: seq<Instr>, sent: seq<Wqe>, w: Wqe, n: nat)
    requires n > 0 && |w| >= 4 && Traced(t, sent, n)
    ensures Traced(t + SendDesc(Slot(|sent|, n), w)
                   + [Barrier, Store(DbRec, Wrap(16, |sent| + 1)), Barrier, Store(Uar, Bell(w))], sent + [w], n)
  {
    hide Wrap, SendDesc, Traced, Bell, Program, Slot;
    TraceStep(t, sent, w, n);
    ProgramIs(t, SendDesc(Slot(|sent|, n), w), |sent| + 1, Bell(w));
  }

  /** One more WQE of a batch, behind what was posted before it. */
  lemma BatchStep(log: seq<Wqe>, qpn: nat, ctx: Context, peer: Peer, i: nat, opcode: nat, flags: nat)
    requires i < |ctx.mrs| && i < |peer.addr| && i < |peer.mrkey|
    ensures log + SendBatch(|log|, qpn, ctx, peer, 0, opcode, flags) == log
    ensures var w := SendWqe(|log| + i, qpn, ctx, peer, i, opcode, flags);
            (log + SendBatch(|log|, qpn, ctx, peer, i, opcode, flags)) + [w] ==
            log + SendBatch(|log|, qpn, ctx, peer, i + 1, opcode, flags)
  {
    hide SendWqe;
  }

  lemma OutsideSame(b: seq<nat>, lo: nat, hi: nat)
    ensures OutsideKept(b, b, lo, hi)
  {
  }

  lemma OutsideTrans(a: seq<nat>, b: seq<nat>, c: seq<nat>, lo: nat, hi: nat)
    requires OutsideKept(a, b, lo, hi) && OutsideKept(b, c, lo, hi)
    ensures OutsideKept(a, c, lo, hi)
  {
  }

  /** The WQEs of one `pp_dv_post_recv` call. */
  function RecvBatch(ctx: Context, k: nat): (r: seq<Wqe>)
    requires k <= |ctx.mrs|
    ensures |r| == k
  {
    if k == 0 then [] else RecvBatch(ctx, k - 1) + [DataSeg(ctx, k - 1)]
  }

  lemma RecvDescStep(first: nat, ws: seq<Wqe>, w: Wqe, n: nat)
    requires n > 0
    ensures RecvDesc(first, ws + [w], n) == RecvDesc(first, ws, n) + Ascending(Slot(first + |ws|, n), 0, w)
  {
    assert (ws + [w])[..|ws|] == ws;
  }

  lemma RecvStep(first: nat, log: seq<Wqe>, ctx: Context, i: nat, n: nat, t: seq<Instr>)
    requires n > 0 && i < |ctx.mrs|
    ensures (log + RecvBatch(ctx, i)) + [DataSeg(ctx, i)] == log + RecvBatch(ctx, i + 1)
    ensures (t + RecvDesc(first, RecvBatch(ctx, i), n)) + Ascending(Slot(first + i, n), 0, DataSeg(ctx, i)) ==
            t + RecvDesc(first, RecvBatch(ctx, i + 1), n)
  {
    hide RecvDesc, Slot, DataSeg;
    RecvDescStep(first, RecvBatch(ctx, i), DataSeg(ctx, i), n);
  }

  /** `(ind + 1) & (wqe_cnt - 1)` steps to the slot of the next index. */
  lemma NextIndex(p: nat, k: nat)
    ensures And(Slot(p, Pow2(k)) + 1, Pow2(k) - 1) == Slot(p + 1, Pow2(k))
  {
    hide Pow2, And;
    AndMask(Slot(p, Pow2(k)) + 1, k);
    AddMod(p, 1, Pow2(k));
  }

  lemma SegmentAt(b: seq<nat>, stride: nat, m: nat, ind: nat, base: nat, sent: seq<Wqe>, n: nat)
    requires m > 0 && n > 0 && ind < m && stride >= 4 && base == RingWords(stride, m)
    requires RingHolds(b, base, 16, n, sent)
    ensures ind * (4 * stride) == 4 * (stride * ind) && 0 <= stride * ind && stride * ind + 4 <= |b|
  {
    RingFits(b, base, 16, n, sent);
    hide RingHolds;
    MulLe(ind + 1, m, stride);
    assert (ind + 1) * stride == stride * ind + stride && m * stride == stride * m;
  }

  ghost predicate BatchSent(b0: seq<nat>, b: seq<nat>, lo: nat, hi: nat, log0: seq<Wqe>, log: seq<Wqe>, qpn: nat,
                            ctx: Context, peer: Peer, i: nat, opcode: nat, flags: nat) {
    && i <= |ctx.mrs| <= |peer.addr| && |ctx.mrs| <= |peer.mrkey|
    && log == log0 + SendBatch(|log0|, qpn, ctx, peer, i, opcode, flags)
    && OutsideKept(b0, b, lo, hi)
  }

  lemma BatchAdvance(b0: seq<nat>, b: seq<nat>, b': seq<nat>, lo: nat, hi: nat, log0: seq<Wqe>, log: seq<Wqe>, qpn: nat,
                     ctx: Context, peer: Peer, i: nat, opcode: nat, flags: nat)
    requires BatchSent(b0, b, lo, hi, log0, log, qpn, ctx, peer, i, opcode, flags)
    requires i < |ctx.mrs| <= |peer.addr| && |ctx.mrs| <= |peer.mrkey| && OutsideKept(b, b', lo, hi)
    ensures BatchSent(b0, b', lo, hi, log0, log + [SendWqe(|log|, qpn, ctx, peer, i, opcode, flags)],
                      qpn, ctx, peer, i + 1, opcode, flags)
  {
    hide SendWqe, SendBatch, OutsideKept;
    BatchStep(log0, qpn, ctx, peer, i, opcode, flags);
    OutsideTrans(b0, b, b', lo, hi);
  }

  ghost predicate BatchReceived(b0: seq<nat>, b: seq<nat>, lo: nat, n: nat, sent: seq<Wqe>, stride: nat, m: nat,
                                posted: seq<Wqe>, t0: seq<Instr>, t: seq<Instr>, ctx: Context, i: nat)
    requires n > 0 && m > 0
  {
    && i <= |ctx.mrs| && stride >= 4 && lo == RingWords(stride, m)
    && RingHolds(b, lo, 16, n, sent) && RingHolds(b, 0, stride, m, posted + RecvBatch(ctx, i))
    && t == t0 + RecvDesc(|posted|, RecvBatch(ctx, i), m)
    && OutsideKept(b0, b, 0, lo)
  }

  lemma BatchRoom(b0: seq<nat>, b: seq<nat>, lo: nat, n: nat, sent: seq<Wqe>, stride: nat, m: nat,
                  posted: seq<Wqe>, t0: seq<Instr>, t: seq<Instr>, ctx: Context, i: nat)
    requires n > 0 && m > 0 && BatchReceived(b0, b, lo, n, sent, stride, m, posted, t0, t, ctx, i)
    ensures var ind := Slot(|posted| + i, m);
            ind * (4 * stride) == 4 * (stride * ind) && 0 <= stride * ind && stride * ind + 4 <= |b|
  {
    hide RingHolds, RecvDesc, RecvBatch, OutsideKept, Slot;
    SegmentAt(b, stride, m, Slot(|posted| + i, m), lo, sent, n);
  }

  lemma ReceivedAdvance(b0: seq<nat>, b: seq<nat>, lo: nat, n: nat, sent: seq<Wqe>, stride: nat, m: nat,
                        posted: seq<Wqe>, t0: seq<Instr>, t: seq<Instr>, ctx: Context, i: nat)
    requires n > 0 && m > 0 && i < |ctx.mrs| && BatchReceived(b0, b, lo, n, sent, stride, m, posted, t0, t, ctx, i)
    requires 0 <= stride * Slot(|posted| + i, m) && stride * Slot(|posted| + i, m) + 4 <= |b|
    ensures BatchReceived(b0, Overlay(b, stride * Slot(|posted| + i, m), DataSeg(ctx, i)), lo, n, sent, stride, m,
                          posted, t0, t + Ascending(Slot(|posted| + i, m), 0, DataSeg(ctx, i)), ctx, i + 1)
  {
    hide RingHolds, RecvDesc, RecvBatch, OutsideKept, Slot, Overlay, Ascending, RingWords;
    var b' := Overlay(b, stride * Slot(|posted| + i, m), DataSeg(ctx, i));
    RecvKeepsRings(b, b', lo, n, sent, DataSeg(ctx, i), stride, m, posted + RecvBatch(ctx, i));
    OutsideTrans(b0, b, b', 0, lo);
    RecvStep(|posted|, posted, ctx, i, m, t0);
  }

  /** What sizing and layout give the queue pair, as plain facts: the rings whatever
      their sum, and the buffer unless both rings are the largest there is. */
  lemma CreatedGeometry(cap: QpCap, k: nat, page: nat)
    requires cap.Words() && cap.maxInlineData > 0 && SqFits(cap) && RqFits(cap)
    requires k <= 30 && page == Pow2(k)
    ensures SqDefined(cap) && RqDefined(cap) && 0 < page <= TWO_TO_63
    ensures var r, s := RqGeometry(cap), SqGeometry(cap);
            var sk, rk := Ilog32(ToUint(s.wqeCnt - 1)), Ilog32(ToUint(r.wqeCnt - 1));
            && s.wqeCnt == Pow2(sk) && sk <= 30 && r.wqeCnt == Pow2(rk) && rk <= 30
            && s.wqeShift == 6 && Pow2(6) == 64 && cap.maxSendWr <= s.maxPost <= s.wqeCnt && cap.maxRecvWr <= r.wqeCnt
            && r.maxGs > 0 && r.wqeShift >= 0 && Pow2(r.wqeShift) == 4 * (r.maxGs * 4)
            && r.wqSize == 4 * RingWords(r.maxGs * 4, Pow2(rk)) && r.wqSize % 64 == 0
            && WqBytes(cap) == r.wqSize + 64 * Pow2(sk)
    ensures RqArgs(cap) && (0 <= Buflen(WqTotal(cap), page) <==> !BothLargest(cap))
    ensures Buflen(WqTotal(cap), page) >= WqBytes(cap) <==> !BothLargest(cap)
  {
    hide *;
    SendGeometry(cap);
    RecvGeometry(cap);
    Layout(cap, k, page);
  }

  lemma SendGeometry(cap: QpCap)
    requires cap.Words() && cap.maxInlineData > 0 && SqFits(cap) && RqFits(cap)
    ensures SqDefined(cap)
    ensures var s := SqGeometry(cap);
            var sk := Ilog32(ToUint(s.wqeCnt - 1));
            && s.wqeCnt == Pow2(sk) && sk <= 30 && s.wqSize == 64 * Pow2(sk)
            && s.wqeShift == 6 && Pow2(6) == 64 && cap.maxSendWr <= s.maxPost <= s.wqeCnt
  {
    hide *;
    Pow2Values();
    SqSizing(cap);
    RingSizes(cap);
    SqSoundFacts(SqGeometry(cap), cap.maxSendWr, SqNeed(cap));
    LogBound(SqGeometry(cap).wqeCnt);
  }

  lemma SqSoundFacts(g: Geometry, wr: nat, need: nat)
    requires SqSound(g, wr, need) && g.wqSize <= MAX_RING
    ensures g.wqeShift == 6 && g.wqeCnt * 64 == g.wqSize && IsPow2(g.wqeCnt) && 0 < g.wqeCnt < 0x8000_0000
    ensures wr <= g.maxPost <= g.wqeCnt
  {
    hide LeastPow2From, IlogClz, Pow2, IsPow2;
  }

  lemma RecvGeometry(cap: QpCap)
    requires cap.Words() && cap.maxInlineData > 0 && SqFits(cap) && RqFits(cap)
    ensures RqDefined(cap)
    ensures var r := RqGeometry(cap);
            var rk := Ilog32(ToUint(r.wqeCnt - 1));
            && r.wqeCnt == Pow2(rk) && rk <= 30 && cap.maxRecvWr <= r.wqeCnt
            && r.maxGs > 0 && r.wqeShift >= 0 && Pow2(r.wqeShift) == 4 * (r.maxGs * 4)
            && r.wqSize == 4 * RingWords(r.maxGs * 4, Pow2(rk))
  {
    hide *;
    RqSizing(cap);
    RingSizes(cap);
    RqSoundFacts(RqGeometry(cap), cap.maxRecvWr, cap.maxRecvSge);
    LogBound(RqGeometry(cap).wqeCnt);
  }

  lemma RqSoundFacts(g: Geometry, wr: nat, sge: nat)
    requires RqSound(g, wr, sge) && g.wqSize <= MAX_RING
    ensures g.maxGs > 0 && g.wqeShift >= 0 && Pow2(g.wqeShift) == 4 * (g.maxGs * 4)
    ensures IsPow2(g.wqeCnt) && 0 < g.wqeCnt < 0x8000_0000 && wr <= g.wqeCnt
    ensures g.wqSize == 4 * RingWords(g.maxGs * 4, g.wqeCnt)
  {
    hide IlogClz, Pow2, IsPow2;
    MulGe(g.maxGs * 16, g.wqeCnt);
    assert g.wqeCnt * (g.maxGs * 16) == 4 * ((g.maxGs * 4) * g.wqeCnt);
  }

  lemma LogBound(cnt: nat)
    requires IsPow2(cnt) && 0 < cnt < 0x8000_0000
    ensures cnt == Pow2(Ilog32(ToUint(cnt - 1))) && Ilog32(ToUint(cnt - 1)) <= 30
  {
    hide Pow2, IlogClz, ToUint;
    var k: nat :| cnt == Pow2(k);
    Pow2Values();
    Pow2Order(31, k);
    Pow2Order(k, 30);
    LogOfCount(cnt);
    Pow2Order(Ilog32(ToUint(cnt - 1)), k);
  }

  type Count = n: int | n > 0 witness 1

  /** `struct pp_dv_qp`. What creation fixes of the two `struct dv_wq` is constant. */
  class DvQp {
    const buf: array<nat>
    const db: array<nat>
    const qpn: nat
    const sqCnt: Count
    const sqMaxPost: int
    const sqStart: int
    const qend: int
    const rqCnt: Count
    const rqShift: int
    const rqOffset: int
    /** `log_sq_size` and `log_rq_size`, and the receive stride in words. */
    const sk: nat
    const rk: nat
    const rqStride: nat
    /** Basic blocks in front of the send ring. */
    ghost const sqBlocks: nat
    /** The send ring is the words from `lo` to `hi`; the receive ring is below. */
    ghost const lo: nat
    ghost const hi: nat
    /** `sq.cur_post` and `rq.head`: free-running 32-bit counters. */
    var curPost: nat
    var head: nat
    /** The doorbell register. */
    var uar: nat
    /** Every send and every receive WQE posted. */
    ghost var sent: seq<Wqe>
    ghost var posted: seq<Wqe>
    /** What the CPU issued to each ring and its doorbells. */
    ghost var sqTrace: seq<Instr>
    ghost var rqTrace: seq<Instr>

    /** Sizes and layout. */
    ghost predicate Fixed() {
      && buf != db && db.Length == 2
      && sk <= 30 && rk <= 30 && rqStride >= 4
      && sqCnt == Pow2(sk) && rqCnt == Pow2(rk)
      && 0 <= sqMaxPost <= sqCnt
      && rqOffset == 0 && rqShift >= 0 && Pow2(rqShift) == 4 * rqStride
      && sqStart == 64 * sqBlocks && lo == RingWords(rqStride, rqCnt)
      && qend == sqStart + 64 * sqCnt
      && lo == 16 * sqBlocks && hi == lo + 16 * sqCnt && hi <= buf.Length
    }

    ghost predicate Shape()
      reads `curPost, `sent, `head, `posted
    {
      Fixed() && curPost == Wrap(32, |sent|) && head == Wrap(32, |posted|)
    }

    ghost predicate Valid()
      reads `curPost, `sent, `head, `posted, `sqTrace, buf
    {
      && Shape()
      && RingHolds(buf[..], lo, 16, sqCnt, sent)
      && RingHolds(buf[..], 0, rqStride, rqCnt, posted)
      && Traced(sqTrace, sent, sqCnt)
    }

    /** The rings of `pp_create_qp_dv` once the buffer was allocated, which it cannot be
        when its length is negative: sizes, layout, a zeroed buffer. */
    constructor (cap: QpCap, k: nat, page: nat, qpn: nat)
      requires cap.Words() && cap.maxInlineData > 0 && SqFits(cap) && RqFits(cap)
      requires k <= 30 && page == Pow2(k) && 0 < page <= TWO_TO_63
      requires SqDefined(cap) && RqDefined(cap) && 0 <= Buflen(WqTotal(cap), page)
      ensures Valid() && fresh(buf) && fresh(db)
      ensures sent == [] && posted == [] && sqTrace == [] && rqTrace == []
      ensures db[0] == 0 && db[1] == 0 && this.qpn == qpn
      ensures forall i :: 0 <= i < buf.Length ==> buf[i] == 0
      ensures sqMaxPost >= cap.maxSendWr && rqCnt >= cap.maxRecvWr
    {
      hide SqGeometry, RqGeometry, SqFits, RqFits, SqDefined, RqDefined, Pow2, IlogClz, Ilog32, ToUint;
      hide ToUlong, ToInt, Align, Wrap, Slot, RingHolds, ToSigned;
      var r := new DvWq();
      var s := new DvWq();
      var size := CalcWqSize(r, s, cap);
      CreatedGeometry(cap, k, page);
      var buflen := Buflen(size, page);
      var b := new nat[buflen / 4](i => 0);
      var d := new nat[2](i => 0);
      buf, db := b, d;
      this.qpn := qpn;
      sqCnt, sqMaxPost, sqStart := s.wqeCnt, s.maxPost, s.offset;
      qend := s.offset + s.wqeCnt * Pow2(s.wqeShift);
      rqCnt, rqShift, rqOffset := r.wqeCnt, r.wqeShift, r.offset;
      sk, rk := Ilog32(ToUint(s.wqeCnt - 1)), Ilog32(ToUint(r.wqeCnt - 1));
      rqStride := r.maxGs * 4;
      sqBlocks, lo := s.offset / 64, s.offset / 4;
      hi := s.offset / 4 + 16 * s.wqeCnt;
      curPost, head, uar := 0, 0, 0;
      sent, posted, sqTrace, rqTrace := [], [], [], [];
      new;
      WrapKeeps(32, 0);
      EmptyRing(buf[..], 0, rqStride, rqCnt);
      EmptyRing(buf[..], lo, 16, sqCnt);
    }

    /** The send ring slot `slot` starts at word `at` of the buffer. */
    ghost predicate SlotAt(slot: nat, at: nat) {
      4 * at == sqStart + slot * 64 && at + 16 <= buf.Length
    }

    /** One 32-bit store at byte `off` of the buffer: word `w` of `slot`. */
    method SqStore(off: nat, v: nat, ghost slot: nat, ghost at: nat, ghost w: nat)
      requires SlotAt(slot, at) && w < 16 && off == 4 * (at + w)
      modifies buf, this`sqTrace
      ensures buf[..] == old(buf[..])[at + w := v]
      ensures sqTrace == old(sqTrace) + [Store(Word(slot, w), v)]
    {
      buf[off / 4] := v;
      sqTrace := sqTrace + [Store(Word(slot, w), v)];
    }

    /** Four words upward: `set_raddr_seg` and `mlx5dv_set_data_seg`. */
    method SqStoreSeg(off: nat, seg: seq<nat>, ghost slot: nat, ghost at: nat, ghost w: nat)
      requires SlotAt(slot, at) && |seg| == 4 && w + 4 <= 16 && off == 4 * (at + w)
      modifies buf, this`sqTrace
      ensures buf[..] == Overlay(old(buf[..]), at + w, seg)
      ensures sqTrace == old(sqTrace) + Ascending(slot, w, seg)
    {
      OverlayFour(buf[..], at + w, seg);
      AscendingFour(slot, w, seg);
      hide Overlay, Ascending;
      SqStore(off, seg[0], slot, at, w);
      SqStore(off + 4, seg[1], slot, at, w + 1);
      SqStore(off + 8, seg[2], slot, at, w + 2);
      SqStore(off + 12, seg[3], slot, at, w + 3);
    }

    /** `post_send_db`: the record behind one barrier, the register behind another. */
    method PostSendDb(ghost w: Wqe, ctrl: nat, ghost at: nat)
      requires buf != db && db.Length == 2 && curPost == Wrap(32, |sent|)
      requires ctrl == 4 * at && at + 2 <= buf.Length && |w| >= 2
      requires buf[at] == w[0] && buf[at + 1] == w[1]
      modifies db, this`uar, this`sqTrace
      ensures db[1] == Wrap(16, |sent|) && db[0] == old(db[0]) && uar == Bell(w)
      ensures sqTrace == old(sqTrace)
                + [Barrier, Store(DbRec, Wrap(16, |sent|)), Barrier, Store(Uar, Bell(w))]
    {
      hide Pow2, And, Wrap;
      Masked16(|sent|);
      sqTrace := sqTrace + [Barrier];
      db[SND_DBR] := And(curPost, 0xffff);
      sqTrace := sqTrace + [Store(DbRec, db[SND_DBR])];
      sqTrace := sqTrace + [Barrier];
      uar := buf[ctrl / 4] * 0x1_0000_0000 + buf[ctrl / 4 + 1];
      sqTrace := sqTrace + [Store(Uar, uar)];
    }

    /** The segments of `post_send_one`. A WQE never reaches the end of the ring inside
        a basic block, so the wrap of `seg` does not happen. */
    method WriteSegments(ctx: Context, peer: Peer, id: nat, opcode: nat, ctrl: nat, ghost slot: nat, ghost at: nat)
      returns (size: nat)
      requires SlotAt(slot, at) && ctrl == 4 * at
      requires sqStart == 64 * sqBlocks && qend == sqStart + 64 * sqCnt
      requires id < |ctx.mrs| && id < |peer.addr| && id < |peer.mrkey|
      modifies buf, this`sqTrace
      ensures size == if HasRaddr(opcode) then 3 else 2
      ensures buf[..] == Segmented(old(buf[..]), at, SegWords(ctx, peer, id, opcode))
      ensures sqTrace == old(sqTrace) + Ascending(slot, 4, SegWords(ctx, peer, id, opcode))
    {
      hide High, Low, Overlay, Ascending;
      var seg: int := ctrl + 16;
      size := 1;
      if HasRaddr(opcode) {
        SqStoreSeg(seg, RaddrSeg(peer, id), slot, at, 4);
        seg := seg + 16;
        size := size + 1;
        AscendingJoin(slot, 4, RaddrSeg(peer, id), DataSeg(ctx, id));
      }
      if seg == qend {
        seg := sqStart;
      }
      SqStoreSeg(seg, DataSeg(ctx, id), slot, at, 4 * size);
      size := size + 1;
      assert RaddrSeg(peer, id) == SegWords(ctx, peer, id, OPCODE_RDMA_WRITE)[..4];
      assert [] + DataSeg(ctx, id) == DataSeg(ctx, id);
    }

    /** The control segment but for its first two words; the flag byte lies in a word
        that is zeroed first. */
    method WriteControl(id: nat, flags: nat, ctrl: nat, ghost slot: nat, ghost at: nat)
      requires SlotAt(slot, at) && ctrl == 4 * at
      modifies buf, this`sqTrace
      ensures buf[..] == old(buf[..])[at + 2 := 0][at + 3 := Low(IMM_BASE + id)][at + 2 := FmCeSe(flags)]
      ensures sqTrace == old(sqTrace) + [Store(Word(slot, 2), 0), Store(Word(slot, 3), Low(IMM_BASE + id)),
                                         Store(Word(slot, 2), FmCeSe(flags))]
    {
      hide Low, And;
      SqStore(ctrl + 8, 0, slot, at, 2);
      SqStore(ctrl + 12, Low(IMM_BASE + id), slot, at, 3);
      SqStore(ctrl + 8, if And(flags, SEND_SIGNALED) != 0 then CTRL_CQ_UPDATE else 0, slot, at, 2);
    }

    /** The first two words, which make the WQE recognisable, come last. */
    method WriteHeader(opcode: nat, size: nat, ctrl: nat, ghost slot: nat, ghost at: nat)
      requires SlotAt(slot, at) && ctrl == 4 * at
      requires curPost == Wrap(32, |sent|)
      modifies buf, this`sqTrace
      ensures buf[..] == old(buf[..])[at := Header(|sent|, opcode)][at + 1 := QpnDs(size, qpn)]
      ensures sqTrace == old(sqTrace) + [Store(Word(slot, 0), Header(|sent|, opcode)),
                                         Store(Word(slot, 1), QpnDs(size, qpn))]
    {
      hide Pow2, And, Or, Wrap, QpnDs;
      Masked16(|sent|);
      SqStore(ctrl, Or(And(curPost, 0xffff) * 256, opcode), slot, at, 0);
      SqStore(ctrl + 4, QpnDs(size, qpn), slot, at, 1);
    }

    /** The stores of `post_send_one` up to the doorbell. */
    method WriteWqe(ctx: Context, peer: Peer, id: nat, opcode: nat, flags: nat, ctrl: nat,
                    ghost slot: nat, ghost at: nat)
      returns (size: nat)
      requires SlotAt(slot, at) && ctrl == 4 * at
      requires sqStart == 64 * sqBlocks && qend == sqStart + 64 * sqCnt && curPost == Wrap(32, |sent|)
      requires id < |ctx.mrs| && id < |peer.addr| && id < |peer.mrkey|
      modifies buf, this`sqTrace
      ensures var w := SendWqe(|sent|, qpn, ctx, peer, id, opcode, flags);
              && size == |w| / 4
              && buf[..] == AfterSend(old(buf[..]), at, w)
              && sqTrace == old(sqTrace) + SendDesc(slot, w)
    {
      ghost var w := SendWqe(|sent|, qpn, ctx, peer, id, opcode, flags);
      ghost var segs := SegWords(ctx, peer, id, opcode);
      SendWqeParts(|sent|, qpn, ctx, peer, id, opcode, flags);
      AfterSendFrom(buf[..], at, w, w[3], w[2], segs, w[0], w[1]);
      SendDescFrom(slot, w, w[3], w[2], segs, w[0], w[1], sqTrace);
      hide Pow2, Wrap, Low, FmCeSe, Overlay, Ascending, SegWords, Segmented, SendWqe, QpnDs, Header, HasRaddr;
      hide AfterSend, SendDesc;
      WriteControl(id, flags, ctrl, slot, at);
      size := WriteSegments(ctx, peer, id, opcode, ctrl, slot, at);
      WriteHeader(opcode, size, ctrl, slot, at);
    }

    /** The index of `post_send_one`: a mask of the free-running counter. */
    method NextSlot() returns (ctrl: nat, ghost at: nat)
      requires Shape()
      ensures ctrl == sqStart + 64 * Slot(|sent|, sqCnt)
      ensures ctrl == 4 * at && at == lo + 16 * Slot(|sent|, sqCnt)
      ensures SlotAt(Slot(|sent|, sqCnt), at)
    {
      hide Pow2, And, Wrap, Slot, RingWords;
      MaskedIndex(|sent|, sk);
      var idx := And(curPost, sqCnt - 1);
      ctrl := sqStart + idx * 64;
      at := lo + 16 * idx;
    }

    /** `post_send_one` before the doorbell: the WQE goes into the slot of its index. */
    method FillSlot(ctx: Context, peer: Peer, id: nat, opcode: nat, flags: nat) returns (ctrl: nat, ghost at: nat)
      requires Shape() && id < |ctx.mrs| && id < |peer.addr| && id < |peer.mrkey|
      modifies buf, this`sqTrace, this`curPost
      ensures var w := SendWqe(|sent|, qpn, ctx, peer, id, opcode, flags);
              && sqTrace == old(sqTrace) + SendDesc(Slot(|sent|, sqCnt), w)
              && ctrl == 4 * at && at == lo + 16 * Slot(|sent|, sqCnt) && at + 16 <= buf.Length
              && buf[..] == AfterSend(old(buf[..]), at, w)
      ensures curPost == Wrap(32, |sent| + 1)
    {
      hide Pow2, Wrap, Slot, SendWqe, RingHolds, AfterSend, SendDesc, RingWords, DivRoundUp;
      WrapAdd(32, |sent|, 1);
      ctrl, at := NextSlot();
      var size := WriteWqe(ctx, peer, id, opcode, flags, ctrl, Slot(|sent|, sqCnt), at);
      OneBlock(size);
      curPost := Wrap(32, curPost + DivRoundUp(size * 16, SEND_WQE_BB));
    }

    /** Two doorbells in a record of their own. */
    lemma Doorbells()
      requires Shape()
      ensures buf != db && db.Length == 2 && curPost == Wrap(32, |sent|)
    {
      hide Wrap;
    }

    /** `post_send_one` before the doorbell, on the rings as logs. */
    method AppendWqe(ctx: Context, peer: Peer, id: nat, opcode: nat, flags: nat) returns (ctrl: nat, ghost at: nat)
      requires Valid() && id < |ctx.mrs| && id < |peer.addr| && id < |peer.mrkey|
      modifies buf, this`curPost, this`sent, this`sqTrace
      ensures Shape() && RingHolds(buf[..], lo, 16, sqCnt, sent)
      ensures RingHolds(buf[..], 0, rqStride, rqCnt, posted)
      ensures var w := SendWqe(old(|sent|), qpn, ctx, peer, id, opcode, flags);
              && sent == old(sent) + [w]
              && sqTrace == old(sqTrace) + SendDesc(Slot(old(|sent|), sqCnt), w)
              && ctrl == 4 * at && at + 2 <= buf.Length && buf[at] == w[0] && buf[at + 1] == w[1]
      ensures OutsideKept(old(buf[..]), buf[..], lo, hi)
    {
      assert lo == RingWords(rqStride, rqCnt);
      hide Fixed, Pow2, Wrap, Slot, SendWqe, RingHolds, AfterSend, SendDesc, RingWords, OutsideKept, SlotAt, Traced;
      ghost var w := SendWqe(|sent|, qpn, ctx, peer, id, opcode, flags);
      ghost var b := buf[..];
      ctrl, at := FillSlot(ctx, peer, id, opcode, flags);
      SendKeepsRings(b, buf[..], at, lo, sqCnt, sent, w, rqStride, rqCnt, posted);
      sent := sent + [w];
    }

    /** `post_send_one`. */
    method PostSendOne(ctx: Context, peer: Peer, id: nat, opcode: nat, flags: nat)
      requires Valid() && id < |ctx.mrs| && id < |peer.addr| && id < |peer.mrkey|
      modifies buf, db, this`curPost, this`uar, this`sent, this`sqTrace
      ensures Valid()
      ensures sent == old(sent) + [SendWqe(old(|sent|), qpn, ctx, peer, id, opcode, flags)]
      ensures var w := sent[|sent| - 1];
              |w| >= 2 && uar / 0x1_0000_0000 == w[0] && uar % 0x1_0000_0000 == w[1]
      ensures db[1] == Wrap(16, |sent|) && db[0] == old(db[0])
      ensures OutsideKept(old(buf[..]), buf[..], lo, hi)
    {
      hide Fixed, Shape, Pow2, Wrap, Slot, SendWqe, RingHolds, SendDesc, OutsideKept, Traced, Bell, Program;
      Doorbells();
      ghost var w := SendWqe(|sent|, qpn, ctx, peer, id, opcode, flags);
      TraceGrows(sqTrace, sent, w, sqCnt);
      BellTells(|sent|, qpn, ctx, peer, id, opcode, flags);
      var ctrl, at := AppendWqe(ctx, peer, id, opcode, flags);
      Doorbells();
      ghost var b := buf[..];
      PostSendDb(w, ctrl, at);
      assert buf[..] == b;
    }

    /** A batch that began with buffer contents `b0` and log `log0` has `i` posts. */
    ghost predicate SendDone(b0: seq<nat>, log0: seq<Wqe>, ctx: Context, peer: Peer, i: nat, opcode: nat, flags: nat)
      reads this, buf, db
    {
      && Valid()
      && BatchSent(b0, buf[..], lo, hi, log0, sent, qpn, ctx, peer, i, opcode, flags)
      && (i > 0 ==> db[1] == Wrap(16, |sent|))
    }

    lemma BeginBatch(ctx: Context, peer: Peer, opcode: nat, flags: nat)
      requires Valid() && |ctx.mrs| <= |peer.addr| && |ctx.mrs| <= |peer.mrkey|
      ensures SendDone(buf[..], sent, ctx, peer, 0, opcode, flags)
      ensures OutsideKept(buf[..], buf[..], lo, hi)
    {
      hide Shape, Fixed, RingHolds, Traced, Pow2, Wrap, OutsideKept;
      OutsideSame(buf[..], lo, hi);
    }

    method PostNext(ghost b0: seq<nat>, ghost log0: seq<Wqe>, ctx: Context, peer: Peer, i: nat, opcode: nat, flags: nat)
      requires SendDone(b0, log0, ctx, peer, i, opcode, flags) && i < |ctx.mrs|
      requires |ctx.mrs| <= |peer.addr| && |ctx.mrs| <= |peer.mrkey|
      modifies buf, db, this`curPost, this`uar, this`sent, this`sqTrace
      ensures SendDone(b0, log0, ctx, peer, i + 1, opcode, flags)
      ensures db.Length == 2 && db[0] == old(db[0])
    {
      assert db.Length == 2;
      hide Valid, Shape, Fixed, RingHolds, Traced, Bell, Pow2, Wrap, SendWqe, SendBatch, OutsideKept, BatchSent;
      ghost var b, log := buf[..], sent;
      PostSendOne(ctx, peer, i, opcode, flags);
      BatchAdvance(b0, b, buf[..], lo, hi, log0, log, qpn, ctx, peer, i, opcode, flags);
    }

    /** The loop of `pp_dv_post_send`. */
    method PostBatch(ctx: Context, peer: Peer, numPost: nat, opcode: nat, flags: nat)
      requires SendDone(buf[..], sent, ctx, peer, 0, opcode, flags) && 0 < numPost <= |ctx.mrs|
      requires |ctx.mrs| <= |peer.addr| && |ctx.mrs| <= |peer.mrkey|
      requires db.Length == 2
      modifies buf, db, this`curPost, this`uar, this`sent, this`sqTrace
      ensures SendDone(old(buf[..]), old(sent), ctx, peer, numPost, opcode, flags)
      ensures db[0] == old(db[0])
    {
      hide SendDone;
      var i := 0;
      while i < numPost
        invariant 0 <= i <= numPost
        invariant SendDone(old(buf[..]), old(sent), ctx, peer, i, opcode, flags)
        invariant db[0] == old(db[0])
      {
        PostNext(old(buf[..]), old(sent), ctx, peer, i, opcode, flags);
        i := i + 1;
      }
    }

    /** `pp_dv_post_send`: refused calls change nothing; an accepted one posts buffers
        0, 1, .. in order, each WQE with its own doorbell. */
    method PostSend(ctx: Context, peer: Peer, numPost: nat, opcode: nat, flags: nat) returns (ret: nat)
      requires Valid() && |ctx.mrs| <= |peer.addr| && |ctx.mrs| <= |peer.mrkey|
      modifies buf, db, this`curPost, this`uar, this`sent, this`sqTrace
      ensures Valid()
      ensures ret == if 0 < numPost <= sqMaxPost && numPost <= |ctx.mrs| && flags / 8 % 2 == 0 then 0 else 22
      ensures ret != 0 ==> sent == old(sent) && buf[..] == old(buf[..]) && db[..] == old(db[..])
                           && curPost == old(curPost) && uar == old(uar) && sqTrace == old(sqTrace)
      ensures ret == 0 ==>
                && sent == old(sent) + SendBatch(old(|sent|), qpn, ctx, peer, numPost, opcode, flags)
                && db[1] == Wrap(16, |sent|)
      ensures db[0] == old(db[0])
      ensures OutsideKept(old(buf[..]), buf[..], lo, hi)
    {
      assert db.Length == 2;
      hide Valid, Shape, Fixed, RingHolds, Pow2, Wrap, And, SendBatch, Traced, OutsideKept;
      FlagBits(flags);
      BeginBatch(ctx, peer, opcode, flags);
      if numPost == 0 || numPost > sqMaxPost || numPost > |ctx.mrs| {
        return EINVAL;
      }
      if And(flags, SEND_INLINE) != 0 {
        return EINVAL;
      }
      PostBatch(ctx, peer, numPost, opcode, flags);
      ret := 0;
    }

    /** One data segment into slot `ind` of the receive ring. */
    method RqStoreSeg(off: nat, seg: seq<nat>, ghost at: nat, ghost slot: nat)
      requires |seg| == 4 && off == 4 * at && at + 4 <= buf.Length
      modifies buf, this`rqTrace
      ensures buf[..] == Overlay(old(buf[..]), at, seg)
      ensures rqTrace == old(rqTrace) + Ascending(slot, 0, seg)
    {
      OverlayFour(buf[..], at, seg);
      AscendingFour(slot, 0, seg);
      ghost var t := rqTrace;
      buf[off / 4] := seg[0];
      buf[off / 4 + 1] := seg[1];
      buf[off / 4 + 2] := seg[2];
      buf[off / 4 + 3] := seg[3];
      rqTrace := t + Ascending(slot, 0, seg);
    }

    /** A batch that began with buffer contents `b0` and trace `t0` has `i` segments. */
    ghost predicate RecvDone(b0: seq<nat>, t0: seq<Instr>, ctx: Context, i: nat)
      reads `curPost, `sent, `head, `posted, `sqTrace, `rqTrace, buf
    {
      && Shape() && Traced(sqTrace, sent, sqCnt)
      && BatchReceived(b0, buf[..], lo, sqCnt, sent, rqStride, rqCnt, posted, t0, rqTrace, ctx, i)
    }

    lemma SegmentRoom(b0: seq<nat>, t0: seq<Instr>, ctx: Context, i: nat)
      requires RecvDone(b0, t0, ctx, i)
      ensures rqOffset == 0 && rqShift >= 0 && Pow2(rqShift) == 4 * rqStride
      ensures var ind := Slot(|posted| + i, rqCnt);
              ind * (4 * rqStride) == 4 * (rqStride * ind) && 0 <= rqStride * ind && rqStride * ind + 4 <= buf.Length
    {
      hide Pow2, Wrap, Slot, RingWords, Traced, BatchReceived;
      BatchRoom(b0, buf[..], lo, sqCnt, sent, rqStride, rqCnt, posted, t0, rqTrace, ctx, i);
    }

    /** The segment of slot `ind`: `buf + rq.offset + (ind << rq.wqe_shift)`. */
    method SegOffset(ind: nat, ghost b0: seq<nat>, ghost t0: seq<Instr>, ghost ctx: Context,
                     ghost i: nat) returns (off: nat)
      requires RecvDone(b0, t0, ctx, i) && ind == Slot(|posted| + i, rqCnt)
      ensures off == 4 * (rqStride * ind) && 0 <= rqStride * ind && rqStride * ind + 4 <= buf.Length
    {
      hide *;
      SegmentRoom(b0, t0, ctx, i);
      off := rqOffset + ind * Pow2(rqShift);
    }

    /** The first index of a batch. */
    method FirstSlot() returns (ind: nat)
      requires Shape()
      ensures ind == Slot(|posted|, rqCnt)
    {
      assert rqCnt == Pow2(rk) && rk <= 30 && head == Wrap(32, |posted|);
      hide *;
      MaskedIndex(|posted|, rk);
      ind := And(head, rqCnt - 1);
    }

    /** The stepped index stays the slot of the count. */
    method NextRecvSlot(ind: nat, ghost p: nat) returns (next: nat)
      requires Fixed() && ind == Slot(p, rqCnt)
      ensures next == Slot(p + 1, rqCnt)
    {
      assert rqCnt == Pow2(rk);
      hide *;
      NextIndex(p, rk);
      next := And(ind + 1, rqCnt - 1);
    }

    /** One iteration: the segment of buffer `i` goes to the slot of its index. */
    method RecvNext(ghost b0: seq<nat>, ghost t0: seq<Instr>, ctx: Context, i: nat, ind: nat)
      requires RecvDone(b0, t0, ctx, i) && i < |ctx.mrs| && ind == Slot(|posted| + i, rqCnt)
      modifies buf, this`rqTrace
      ensures RecvDone(b0, t0, ctx, i + 1)
    {
      hide Fixed, Pow2, Wrap, DataSeg, Slot, Overlay, Ascending, RingWords, Traced, BatchReceived;
      ghost var b, t := buf[..], rqTrace;
      var off := SegOffset(ind, b0, t0, ctx, i);
      RqStoreSeg(off, DataSeg(ctx, i), rqStride * ind, ind);
      ReceivedAdvance(b0, b, lo, sqCnt, sent, rqStride, rqCnt, posted, t0, t, ctx, i);
    }

    lemma BeginRecv(ctx: Context)
      requires Valid()
      ensures RecvDone(buf[..], rqTrace, ctx, 0)
    {
      assert lo == RingWords(rqStride, rqCnt) && rqStride >= 4;
      hide Fixed, RingHolds, Wrap, Slot, Traced, OutsideKept, RingWords;
      OutsideSame(buf[..], 0, lo);
      assert posted + [] == posted && rqTrace + [] == rqTrace;
    }

    lemma ShapeOf(b0: seq<nat>, t0: seq<Instr>, ctx: Context, i: nat)
      requires RecvDone(b0, t0, ctx, i)
      ensures Shape() && Fixed()
    {
    }

    /** One round of the loop: the segment, then the next index. */
    method RecvRound(ghost b0: seq<nat>, ghost t0: seq<Instr>, ctx: Context, i: nat, ind: nat) returns (next: nat)
      requires RecvDone(b0, t0, ctx, i) && i < |ctx.mrs| && ind == Slot(|posted| + i, rqCnt)
      modifies buf, this`rqTrace
      ensures RecvDone(b0, t0, ctx, i + 1) && next == Slot(|posted| + i + 1, rqCnt)
    {
      hide *;
      ShapeOf(b0, t0, ctx, i);
      RecvNext(b0, t0, ctx, i, ind);
      next := NextRecvSlot(ind, |posted| + i);
    }

    /** The loop of `pp_dv_post_recv`. */
    method RecvBatchLoop(ctx: Context, numPost: nat)
      requires RecvDone(buf[..], rqTrace, ctx, 0) && numPost <= |ctx.mrs|
      modifies buf, this`rqTrace
      ensures RecvDone(old(buf[..]), old(rqTrace), ctx, numPost)
    {
      hide *;
      ShapeOf(buf[..], rqTrace, ctx, 0);
      var nreq: nat := 0;
      var ind := FirstSlot();
      while nreq < numPost
        invariant nreq <= numPost && ind == Slot(|posted| + nreq, rqCnt)
        invariant RecvDone(old(buf[..]), old(rqTrace), ctx, nreq)
      {
        ind := RecvRound(old(buf[..]), old(rqTrace), ctx, nreq, ind);
        nreq := nreq + 1;
      }
    }

    /** The end of `pp_dv_post_recv`: the count, a barrier, the doorbell record. */
    method RingRecv(ghost b0: seq<nat>, ghost t0: seq<Instr>, ctx: Context, nreq: nat)
      requires RecvDone(b0, t0, ctx, nreq) && db.Length == 2 && buf != db
      modifies db, this`head, this`posted, this`rqTrace
      ensures Valid() && posted == old(posted) + RecvBatch(ctx, nreq)
      ensures rqTrace == t0 + Program(RecvDesc(old(|posted|), RecvBatch(ctx, nreq), rqCnt), |posted|, None)
      ensures db[0] == Wrap(16, |posted|) && db[1] == old(db[1])
      ensures OutsideKept(b0, buf[..], 0, lo)
    {
      hide Fixed, RingHolds, Pow2, And, Wrap, RecvDesc, RecvBatch, DataSeg, Slot, RingWords, Traced, OutsideKept;
      WrapAdd(32, |posted|, nreq);
      Masked16(|posted| + nreq);
      ghost var b := buf[..];
      head := Wrap(32, head + nreq);
      posted := posted + RecvBatch(ctx, nreq);
      rqTrace := rqTrace + [Barrier];
      db[RCV_DBR] := And(head, 0xffff);
      rqTrace := rqTrace + [Store(DbRec, db[RCV_DBR])];
      assert buf[..] == b;
    }

    /** `pp_dv_post_recv`: the stepped index stays the slot of the count, buffer `i` of
        the batch lands there, and one doorbell closes the batch. */
    method PostRecv(ctx: Context, numPost: nat) returns (ret: nat)
      requires Valid() && numPost <= |ctx.mrs|
      modifies buf, db, this`head, this`posted, this`rqTrace
      ensures Valid() && ret == 0
      ensures posted == old(posted) + RecvBatch(ctx, numPost)
      ensures rqTrace == old(rqTrace)
                + Program(RecvDesc(old(|posted|), RecvBatch(ctx, numPost), rqCnt), |posted|, None)
      ensures db[0] == Wrap(16, |posted|) && db[1] == old(db[1])
      ensures OutsideKept(old(buf[..]), buf[..], 0, lo)
    {
      assert db.Length == 2 && buf != db;
      hide Valid, RecvDesc, RecvBatch, Slot, OutsideKept, RecvDone, Wrap, Program;
      BeginRecv(ctx);
      RecvBatchLoop(ctx, numPost);
      RingRecv(old(buf[..]), old(rqTrace), ctx, numPost);
      ret := 0;
    }
  }

  const ENOMEM := 12

  /** `posix_memalign` for the work queue: its own result, except that no allocator serves
      a length which is negative as an `ssize_t`. */
  function MemalignResult(buflen: int, memRet: int): int {
    if buflen < 0 then ENOMEM else memRet
  }

  /** `pp_create_qp_dv` up to the queue pair itself. It succeeds exactly when the allocator
      does and the request is not for the largest ring twice. */
  method CreateQp(cap: QpCap, k: nat, page: nat, qpn: nat, memRet: int) returns (ret: int, qp: DvQp?)
    requires cap.Words() && cap.maxInlineData > 0 && SqFits(cap) && RqFits(cap)
    requires k <= 30 && page == Pow2(k)
    ensures SqDefined(cap) && RqDefined(cap)
    ensures RqArgs(cap) && ret == (if memRet == 0 && !BothLargest(cap) then 0 else -1)
    ensures ret != 0 ==> qp == null
    ensures ret == 0 ==>
              && qp != null && fresh(qp) && fresh(qp.buf) && fresh(qp.db) && qp.Valid()
              && qp.sent == qp.posted == [] && qp.sqTrace == qp.rqTrace == []
              && qp.qpn == qpn && qp.sqMaxPost >= cap.maxSendWr && qp.rqCnt >= cap.maxRecvWr
  {
    hide SqGeometry, RqGeometry, SqFits, RqFits, SqDefined, RqDefined, Pow2, IlogClz, Buflen, WqTotal, WqBytes;
    hide BothLargest;
    CreatedGeometry(cap, k, page);
    var r := new DvWq();
    var s := new DvWq();
    var size := CalcWqSize(r, s, cap);
    TotalDef(cap);
    ret := MemalignResult(Buflen(size, page), memRet);
    if ret != 0 {
      return -1, null;
    }
    qp := new DvQp(cap, k, page, qpn);
  }

  lemma TotalDef(cap: QpCap)
    requires SqDefined(cap) && RqDefined(cap)
    ensures WqTotal(cap) == ToInt(SqGeometry(cap).wqSize + RqGeometry(cap).wqSize)
  {
    hide SqGeometry, RqGeometry, SqDefined, RqDefined, ToInt;
  }
}
