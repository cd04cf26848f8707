/** The posting calls of module QueuePair are the posts of module RingProtocol. */
module Posting {
  import opened Bits
  import opened Wrappers
  import opened RingProtocol
  import opened WorkQueue
  import opened QueuePair
  import opened Sizing
  import PingPong

  /** A send WQE of any call. */
  ghost predicate IsSendWqe(w: Wqe, j: nat, qpn: nat, ctx: Context, peer: Peer, id: nat, opcode: nat, flags: nat) {
    SendArgs(ctx, peer, id) && w == SendWqe(j, qpn, ctx, peer, id, opcode, flags)
  }

  ghost predicate AllSendWqes(sent: seq<Wqe>) {
    forall j :: 0 <= j < |sent| ==> |sent[j]| >= 4 && Complete(SendRing, sent[j])
  }

  function SendStep(j: nat, w: Wqe, n: nat): Step
    requires n > 0 && |w| >= 4
  {
    Post([w], SendDesc(Slot(j, n), w), Some(Bell(w)))
  }

  /** The `j`-th piece of what the send side issued is the program of a post that the
      protocol allows in every state with `j` WQEs posted. So every run of the
      protocol in which the CPU follows `SendTrace` is safe. */
  lemma SendTraceIsPosts(c: Config, sent: seq<Wqe>, j: nat, s: State)
    requires c.Valid() && c.kind == SendRing && AllSendWqes(sent) && j < |sent| && |s.log| == j
    ensures var step := SendStep(j, sent[j], c.N());
            && SendTrace(sent[..j + 1], c.N()) ==
               SendTrace(sent[..j], c.N()) + Program(step.desc, j + 1, step.bell)
            && CanPost(c, s, step)
  {
    var w := sent[j];
    assert sent[..j + 1][..j] == sent[..j] && sent[..j + 1][j] == w;
    assert Complete(c.kind, [w][0]);
    hide Describes, SendDesc, Bell, Program, Complete;
    SendDescribes(j, w, c.N());
  }

  /** The WQEs of an accepted call are whole and have the buffer and the index they
      should. */
  lemma {:induction false} BatchAt(j: nat, qpn: nat, ctx: Context, peer: Peer, k: nat, opcode: nat, flags: nat, i: nat)
    requires i < k <= |ctx.mrs| <= |peer.addr| && |ctx.mrs| <= |peer.mrkey|
    ensures var b := SendBatch(j, qpn, ctx, peer, k, opcode, flags);
            b[i] == SendWqe(j + i, qpn, ctx, peer, i, opcode, flags) && Complete(SendRing, b[i])
    decreases k
  {
    hide SendWqe, Complete;
    if i < k - 1 {
      BatchAt(j, qpn, ctx, peer, k - 1, opcode, flags, i);
    } else {
      SendWqeComplete(j + i, qpn, ctx, peer, i, opcode, flags);
    }
  }

  /** An accepted call writes pairwise distinct slots. */
  lemma AcceptedSlotsDistinct(maxPost: nat, n: nat, numPost: nat, j: nat, a: nat, b: nat)
    requires n > 0 && numPost <= maxPost <= n
    requires a < b < numPost
    ensures Slot(j + a, n) != Slot(j + b, n)
  {
    hide Slot;
    SlotsDistinct(j + a, j + b, n);
  }

  /** The `len` words that the device finds in the slot of index `j`. */
  function InSlot(words: seq<nat>, base: nat, stride: nat, n: nat, j: nat, len: nat): seq<nat>
    requires n > 0
  {
    var at := base + stride * Slot(j, n);
    if 0 <= at <= at + len <= |words| then words[at..at + len] else []
  }

  /** As long as a WQE is in the last lap, its slot holds it. */
  lemma SlotHolds(words: seq<nat>, base: nat, stride: nat, n: nat, log: seq<Wqe>, j: nat)
    requires n > 0 && RingHolds(words, base, stride, n, log) && j < |log| <= j + n && log[j] != []
    ensures InSlot(words, base, stride, n, j, |log[j]|) == log[j]
  {
    var at := base + stride * Slot(j, n);
    assert |log[j]| <= stride;
    InRingBounds(j, |log[j]| - 1, base, stride, n);
    forall w | 0 <= w < |log[j]|
      ensures at + w < |words| && words[at + w] == log[j][w]
    {
      assert InRing(j, w, base, stride, n) == at + w;
    }
  }

  /** As long as a WQE is in the last lap, the device reads from the words of its slot
      everything the caller asked for. */
  lemma SlotTellsIndex(words: seq<nat>, base: nat, n: nat, sent: seq<Wqe>, j: nat, qpn: nat,
                       ctx: Context, peer: Peer, id: nat, opcode: nat, flags: nat)
    requires n > 0 && RingHolds(words, base, 16, n, sent)
    requires j < |sent| <= j + n && opcode < 256
    requires IsSendWqe(sent[j], j, qpn, ctx, peer, id, opcode, flags)
    requires ctx.mrs[id].addr < 0x1_0000_0000_0000_0000 && peer.addr[id] < 0x1_0000_0000_0000_0000
    ensures SendTells(InSlot(words, base, 16, n, j, |sent[j]|), j, qpn, ctx, peer, id, opcode, flags)
  {
    hide RingHolds, SendTells, InSlot;
    SlotHolds(words, base, 16, n, sent, j);
    SendWqeTells(j, qpn, ctx, peer, id, opcode, flags);
  }

  /** The same for the receive ring: the slot of a posted segment names its buffer. */
  lemma RecvSlotTells(words: seq<nat>, stride: nat, n: nat, posted: seq<Wqe>, j: nat, ctx: Context, i: nat)
    requires n > 0 && RingHolds(words, 0, stride, n, posted)
    requires j < |posted| <= j + n
    requires i < |ctx.mrs| && ctx.mrs[i].addr < 0x1_0000_0000_0000_0000 && posted[j] == DataSeg(ctx, i)
    ensures SegTells(InSlot(words, 0, stride, n, j, 4), ctx, i)
  {
    hide RingHolds, SegTells, InSlot;
    SlotHolds(words, 0, stride, n, posted, j);
    DataSegTells(ctx, i);
  }

  lemma {:induction false} RecvBatchAt(ctx: Context, k: nat, i: nat)
    requires i < k <= |ctx.mrs|
    ensures RecvBatch(ctx, k)[i] == DataSeg(ctx, i)
    decreases k
  {
    hide DataSeg;
    if i < k - 1 { RecvBatchAt(ctx, k - 1, i); }
  }

  // ---------- what a call leaves in the ring ----------

  /** Addresses are 64-bit words. */
  ghost predicate Addressable(ctx: Context, peer: Peer) {
    && (forall i :: 0 <= i < |ctx.mrs| ==> ctx.mrs[i].addr < 0x1_0000_0000_0000_0000)
    && (forall i :: 0 <= i < |peer.addr| ==> peer.addr[i] < 0x1_0000_0000_0000_0000)
  }

  /** In the slot of index `first + i` the device reads the request for buffer `i`. */
  ghost predicate SendInSlot(words: seq<nat>, base: nat, n: nat, first: nat, qpn: nat, ctx: Context, peer: Peer,
                             opcode: nat, flags: nat, i: nat)
    requires n > 0
  {
    && SendArgs(ctx, peer, i)
    && SendTells(InSlot(words, base, 16, n, first + i, if opcode in {8, 9, 16} then 12 else 8),
                 first + i, qpn, ctx, peer, i, opcode, flags)
  }

  ghost predicate RecvInSlot(words: seq<nat>, stride: nat, n: nat, first: nat, ctx: Context, i: nat)
    requires n > 0
  {
    && i < |ctx.mrs|
    && SegTells(InSlot(words, 0, stride, n, first + i, 4), ctx, i)
  }

  lemma SendsLand(words: seq<nat>, base: nat, n: nat, log: seq<Wqe>, qpn: nat, ctx: Context, peer: Peer, k: nat,
                  opcode: nat, flags: nat)
    requires n > 0 && k <= n && k <= |ctx.mrs| <= |peer.addr| && |ctx.mrs| <= |peer.mrkey|
    requires opcode < 256 && Addressable(ctx, peer)
    requires RingHolds(words, base, 16, n, log + SendBatch(|log|, qpn, ctx, peer, k, opcode, flags))
    ensures forall i :: 0 <= i < k ==> SendInSlot(words, base, n, |log|, qpn, ctx, peer, opcode, flags, i)
  {
    hide *;
    forall i | 0 <= i < k
      ensures SendInSlot(words, base, n, |log|, qpn, ctx, peer, opcode, flags, i)
    {
      SendLands(words, base, n, log, qpn, ctx, peer, k, opcode, flags, i);
    }
  }

  lemma SendLands(words: seq<nat>, base: nat, n: nat, log: seq<Wqe>, qpn: nat, ctx: Context, peer: Peer, k: nat,
                  opcode: nat, flags: nat, i: nat)
    requires n > 0 && i < k <= n && k <= |ctx.mrs| <= |peer.addr| && |ctx.mrs| <= |peer.mrkey|
    requires opcode < 256 && Addressable(ctx, peer)
    requires RingHolds(words, base, 16, n, log + SendBatch(|log|, qpn, ctx, peer, k, opcode, flags))
    ensures SendInSlot(words, base, n, |log|, qpn, ctx, peer, opcode, flags, i)
  {
    hide *;
    var sent := log + SendBatch(|log|, qpn, ctx, peer, k, opcode, flags);
    BatchOnLog(log, qpn, ctx, peer, k, opcode, flags, i);
    AddressableAt(ctx, peer, i);
    SlotTellsIndex(words, base, n, sent, |log| + i, qpn, ctx, peer, i, opcode, flags);
    SendInSlotIs(words, base, n, sent, |log|, qpn, ctx, peer, opcode, flags, i);
  }

  lemma AddressableAt(ctx: Context, peer: Peer, i: nat)
    requires Addressable(ctx, peer) && i < |ctx.mrs| <= |peer.addr|
    ensures ctx.mrs[i].addr < 0x1_0000_0000_0000_0000 && peer.addr[i] < 0x1_0000_0000_0000_0000
  {
  }

  lemma BatchOnLog(log: seq<Wqe>, qpn: nat, ctx: Context, peer: Peer, k: nat, opcode: nat, flags: nat, i: nat)
    requires i < k <= |ctx.mrs| <= |peer.addr| && |ctx.mrs| <= |peer.mrkey|
    ensures var sent := log + SendBatch(|log|, qpn, ctx, peer, k, opcode, flags);
            |sent| == |log| + k && IsSendWqe(sent[|log| + i], |log| + i, qpn, ctx, peer, i, opcode, flags)
  {
    hide SendBatch, SendWqe, Complete;
    BatchAt(|log|, qpn, ctx, peer, k, opcode, flags, i);
  }

  lemma SendInSlotIs(words: seq<nat>, base: nat, n: nat, sent: seq<Wqe>, first: nat, qpn: nat, ctx: Context, peer: Peer,
                     opcode: nat, flags: nat, i: nat)
    requires n > 0 && first + i < |sent|
    requires IsSendWqe(sent[first + i], first + i, qpn, ctx, peer, i, opcode, flags)
    requires SendTells(InSlot(words, base, 16, n, first + i, |sent[first + i]|),
                       first + i, qpn, ctx, peer, i, opcode, flags)
    ensures SendInSlot(words, base, n, first, qpn, ctx, peer, opcode, flags, i)
  {
    hide SendWqe, InSlot, SendTells;
  }

  lemma RecvsLand(words: seq<nat>, stride: nat, n: nat, log: seq<Wqe>, ctx: Context, k: nat)
    requires n > 0 && k <= n && k <= |ctx.mrs| && Addressable(ctx, Peer([], []))
    requires RingHolds(words, 0, stride, n, log + RecvBatch(ctx, k))
    ensures forall i :: 0 <= i < k ==> RecvInSlot(words, stride, n, |log|, ctx, i)
  {
    hide *;
    forall i | 0 <= i < k
      ensures RecvInSlot(words, stride, n, |log|, ctx, i)
    {
      RecvLands(words, stride, n, log, ctx, k, i);
    }
  }

  lemma RecvLands(words: seq<nat>, stride: nat, n: nat, log: seq<Wqe>, ctx: Context, k: nat, i: nat)
    requires n > 0 && i < k <= n && k <= |ctx.mrs| && Addressable(ctx, Peer([], []))
    requires RingHolds(words, 0, stride, n, log + RecvBatch(ctx, k))
    ensures RecvInSlot(words, stride, n, |log|, ctx, i)
  {
    var batch := RecvBatch(ctx, k);
    hide RingHolds, SegTells, InSlot, RecvBatch, DataSeg;
    RecvBatchAt(ctx, k, i);
    assert (log + batch)[|log| + i] == batch[i];
    RecvSlotTells(words, stride, n, log + batch, |log| + i, ctx, i);
  }

  /** A batch larger than the ring overwrites its own beginning: the store left in the
      slot of buffer `i` is the one for buffer `i + n`. */
  lemma RecvOverrun(first: nat, ctx: Context, n: nat, i: nat, w: nat)
    requires n > 0 && w < 4 && i + n < |ctx.mrs|
    ensures LastStore(RecvDesc(first, RecvBatch(ctx, i + n + 1), n), Word(Slot(first + i, n), w)) ==
            Some(DataSeg(ctx, i + n)[w])
  {
    hide DataSeg, Slot, LastStore;
    var ws := RecvBatch(ctx, i + n);
    var seg := DataSeg(ctx, i + n);
    var l := Word(Slot(first + i, n), w);
    assert RecvBatch(ctx, i + n + 1) == ws + [seg];
    RecvDescStep(first, ws, seg, n);
    assert Slot(first + i + n, n) == Slot(first + i, n) by { SlotAgain(first + i, n); }
    LastStoreAppend(RecvDesc(first, ws, n), Ascending(Slot(first + i + n, n), 0, seg), l);
    AscendingLast(Slot(first + i + n, n), 0, seg, w);
  }

  lemma SlotAgain(p: nat, n: nat)
    requires n > 0
    ensures Slot(p + n, n) == Slot(p, n)
  {
    ModShift(p, 1, n);
  }

  function RecvStepOf(first: nat, ctx: Context, k: nat, n: nat): Step
    requires n > 0 && k <= |ctx.mrs|
  {
    Post(RecvBatch(ctx, k), RecvDesc(first, RecvBatch(ctx, k), n), None)
  }

  lemma RecvBatchComplete(ctx: Context, k: nat)
    requires k <= |ctx.mrs|
    ensures forall m :: 0 <= m < |RecvBatch(ctx, k)| ==> Complete(RecvRing, RecvBatch(ctx, k)[m])
  {
    hide RecvBatch, DataSeg;
    forall m | 0 <= m < |RecvBatch(ctx, k)|
      ensures Complete(RecvRing, RecvBatch(ctx, k)[m])
    {
      RecvBatchAt(ctx, k, m);
    }
  }

  /** What one `pp_dv_post_recv` call issues is a post the protocol allows exactly when
      the batch fits the ring: a larger one overwrites its own beginning. The call
      itself does not check `num_post`. */
  lemma RecvIsPostIffItFits(c: Config, s: State, ctx: Context, k: nat)
    requires c.Valid() && c.kind == RecvRing && 0 < k <= |ctx.mrs|
    requires k > c.N() ==> DataSeg(ctx, k - 1) != DataSeg(ctx, k - 1 - c.N())
    ensures CanPost(c, s, RecvStepOf(|s.log|, ctx, k, c.N())) <==> k <= c.N()
  {
    hide RecvBatch, DataSeg, RecvDesc, DescStore, LastStore, Complete;
    var n, first, ws := c.N(), |s.log|, RecvBatch(ctx, k);
    RecvBatchComplete(ctx, k);
    if k <= n {
      RecvDescribes(first, ws, n);
    } else {
      var m := k - 1 - n;
      RecvBatchAt(ctx, k, m);
      var w: nat :| w < 4 && DataSeg(ctx, k - 1)[w] != DataSeg(ctx, m)[w];
      RecvOverrun(first, ctx, n, m, w);
      assert ws[m][w] == DataSeg(ctx, m)[w];
    }
  }

  // ---------- the room of the protocol, discharged ----------

  /** Every post of `sent` is enabled, room included, in every state of the protocol in
      which it is the next, however far the device has come. */
  ghost predicate EachSendEnabled(c: Config, sent: seq<Wqe>)
    requires AllSendWqes(sent)
  {
    forall j: nat, s: State :: j < |sent| && |s.log| == j ==> Enabled(c, s, SendStep(j, sent[j], c.N()))
  }

  lemma FirstLapEnabled(c: Config, sent: seq<Wqe>)
    requires c.Valid() && c.kind == SendRing && AllSendWqes(sent) && |sent| <= c.N()
    ensures EachSendEnabled(c, sent)
  {
    hide SendStep, CanPost, Complete;
    forall j: nat, s: State | j < |sent| && |s.log| == j
      ensures Enabled(c, s, SendStep(j, sent[j], c.N()))
    {
      SendStepIs(j, sent[j], c.N(), sent);
      SendTraceIsPosts(c, sent, j, s);
    }
  }

  lemma SendStepIs(j: nat, w: Wqe, n: nat, sent: seq<Wqe>)
    requires n > 0 && j < |sent| && w == sent[j] && AllSendWqes(sent)
    ensures |w| >= 4 && SendStep(j, w, n).Post? && |SendStep(j, w, n).ws| == 1
  {
  }

  lemma BatchIsSendWqes(qpn: nat, ctx: Context, peer: Peer, k: nat, opcode: nat, flags: nat)
    requires k <= |ctx.mrs| <= |peer.addr| && |ctx.mrs| <= |peer.mrkey|
    ensures AllSendWqes(SendBatch(0, qpn, ctx, peer, k, opcode, flags))
  {
    hide SendBatch, SendWqe, Complete;
    forall i | 0 <= i < k
      ensures var w := SendBatch(0, qpn, ctx, peer, k, opcode, flags)[i]; |w| >= 4 && Complete(SendRing, w)
    {
      BatchAt(0, qpn, ctx, peer, k, opcode, flags, i);
    }
  }

  /** The first call on a queue pair the device can index: what it issued is the trace of
      posts that the protocol allows whatever the device does meanwhile, and every slot
      holds the request for its own buffer. With
      `EveryFetchIsThePost` the device fetches exactly these WQEs. */
  method FirstSend(qp: DvQp, ctx: Context, peer: Peer, numPost: nat, opcode: nat, flags: nat) returns (ret: nat)
    requires qp.Valid() && qp.sent == [] && qp.sk <= 15
    requires |ctx.mrs| <= |peer.addr| && |ctx.mrs| <= |peer.mrkey|
    modifies qp.buf, qp.db, qp
    ensures qp.Valid()
    ensures ret == if 0 < numPost <= qp.sqMaxPost && numPost <= |ctx.mrs| && flags / 8 % 2 == 0 then 0 else 22
    ensures ret == 0 ==>
              && qp.sent == SendBatch(0, qp.qpn, ctx, peer, numPost, opcode, flags)
              && AllSendWqes(qp.sent) && Traced(qp.sqTrace, qp.sent, qp.sqCnt)
              && qp.sqCnt == Config(qp.sk, SendRing).N()
              && EachSendEnabled(Config(qp.sk, SendRing), qp.sent)
    ensures ret == 0 && opcode < 256 && Addressable(ctx, peer) ==>
              forall i :: 0 <= i < numPost ==>
                SendInSlot(qp.buf[..], qp.lo, qp.sqCnt, 0, qp.qpn, ctx, peer, opcode, flags, i)
  {
    assert qp.sqCnt == Pow2(qp.sk) && qp.sqMaxPost <= qp.sqCnt;
    ret := qp.PostSend(ctx, peer, numPost, opcode, flags);
    hide Pow2, SendBatch, RingHolds, EachSendEnabled, AllSendWqes, SendInSlot;
    if ret == 0 {
      assert qp.sent == SendBatch(0, qp.qpn, ctx, peer, numPost, opcode, flags);
      BatchIsSendWqes(qp.qpn, ctx, peer, numPost, opcode, flags);
      FirstLapEnabled(Config(qp.sk, SendRing), qp.sent);
      if opcode < 256 && Addressable(ctx, peer) {
        assert [] + qp.sent == qp.sent;
        SendsLand(qp.buf[..], qp.lo, qp.sqCnt, [], qp.qpn, ctx, peer, numPost, opcode, flags);
      }
    }
  }

  /** The same for receiving: the first call is one post, enabled exactly when the batch
      fits, and each slot names its own buffer. */
  method FirstRecv(qp: DvQp, ctx: Context, numPost: nat) returns (ret: nat)
    requires qp.Valid() && qp.posted == [] && qp.rqTrace == [] && qp.rk <= 15
    requires 0 < numPost <= |ctx.mrs| && numPost <= qp.rqCnt
    modifies qp.buf, qp.db, qp
    ensures qp.Valid() && ret == 0
    ensures var c, step := Config(qp.rk, RecvRing), RecvStepOf(0, ctx, numPost, qp.rqCnt);
            && c.N() == qp.rqCnt && qp.posted == step.ws
            && qp.rqTrace == Program(step.desc, numPost, step.bell)
            && forall s: State :: s.log == [] ==> Enabled(c, s, step)
    ensures Addressable(ctx, Peer([], [])) ==>
              forall i :: 0 <= i < numPost ==> RecvInSlot(qp.buf[..], qp.rqStride, qp.rqCnt, 0, ctx, i)
  {
    assert qp.rqCnt == Pow2(qp.rk);
    hide Pow2, RecvBatch, RingHolds, RecvDesc, Program, RecvInSlot;
    ret := qp.PostRecv(ctx, numPost);
    assert [] + RecvBatch(ctx, numPost) == RecvBatch(ctx, numPost);
    var c := Config(qp.rk, RecvRing);
    forall s: State | s.log == []
      ensures Enabled(c, s, RecvStepOf(0, ctx, numPost, c.N()))
    {
      RecvIsPostIffItFits(c, s, ctx, numPost);
    }
    if Addressable(ctx, Peer([], [])) {
      RecvsLand(qp.buf[..], qp.rqStride, qp.rqCnt, [], ctx, numPost);
    }
  }

  /** With queues sized for `n` requests the client's one batch is accepted, and over every
      run of the ping-pong the requests without a completion fit both rings. */
  lemma ClientFitsRings(c: PingPong.Config, run: seq<PingPong.State>, k: nat, cap: QpCap)
    requires PingPong.Run(c, run) && k < |run|
    requires cap.Words() && cap.maxInlineData > 0 && SqFits(cap) && RqFits(cap) && SqDefined(cap) && RqDefined(cap)
    requires c.n <= cap.maxSendWr && c.n <= cap.maxRecvWr
    ensures c.n <= SqGeometry(cap).maxPost
    ensures run[k].ping.posted - run[k].ping.acked <= SqGeometry(cap).wqeCnt
    ensures run[k].pong.recvs - run[k].pong.arrived <= RqGeometry(cap).wqeCnt
  {
    PingPong.RunKeepsInv(c, run, k);
    PingPong.CqNeverOverrun(c, run, k);
    assert run[k].ping.acked <= run[k].ping.posted && run[k].pong.arrived <= run[k].pong.recvs;
    hide *;
    SqSizing(cap);
    RqSizing(cap);
    SoundCounts(cap);
  }
}
