/** `client_traffic_dv` of client.dv.c on the real rings. */
module Client {
  import opened Bits
  import opened Buffers
  import opened CompletionQueue
  import PingPong
  import QueuePair
  import WorkQueue

  /** The device's side of a polling phase: what it writes before each test, and
      nothing after the list ends. */
  function Burst(arrivals: seq<seq<Cqe>>, t: nat): seq<Cqe> {
    if t < |arrivals| then arrivals[t] else []
  }

  function Upto(arrivals: seq<seq<Cqe>>, t: nat): seq<Cqe> {
    Flatten(arrivals[..if t < |arrivals| then t else |arrivals|])
  }

  /** The device may write these entries without overrun, and they are stamped. */
  ghost predicate MayArrive(log: seq<Cqe>, taken: nat, n: nat, arrivals: seq<seq<Cqe>>)
    requires n > 0
  {
    |log| + |Flatten(arrivals)| <= taken + n && Stamped(log + Flatten(arrivals), n)
  }

  lemma BurstStep(log: seq<Cqe>, arrivals: seq<seq<Cqe>>, t: nat, n: nat)
    requires n > 0 && Stamped(log + Flatten(arrivals), n)
    ensures log + Upto(arrivals, 0) == log
    ensures (log + Upto(arrivals, t)) + Flatten([Burst(arrivals, t)]) == log + Upto(arrivals, t + 1)
    ensures Stamped(log + Upto(arrivals, t + 1), n)
    ensures |Upto(arrivals, t + 1)| <= |Flatten(arrivals)|
    ensures t >= |arrivals| ==> Upto(arrivals, t) == Flatten(arrivals)
  {
    assert Upto(arrivals, 0) == [];
    FlattenOne(Burst(arrivals, t));
    if t < |arrivals| {
      hide Flatten, Stamped;
      BurstFits(log, arrivals, t, n);
    } else {
      assert arrivals[..|arrivals|] == arrivals;
    }
  }

  /** One call `pp_dv_poll_cq(cq, 1)`. */
  method PollNext(cq: DvCq, burst: seq<Cqe>) returns (ret: int)
    requires cq.Valid() && cq.buf.Length > 0
    requires |cq.log| + |burst| <= |cq.handed| + cq.buf.Length && Stamped(cq.log + burst, cq.buf.Length)
    modifies cq.buf, cq.db, cq
    ensures cq.Valid() && cq.log == old(cq.log) + burst
    ensures ret == (if old(|cq.handed|) < |cq.log| then 1 else 0)
    ensures |cq.handed| == old(|cq.handed|) + ret
  {
    FlattenOne(burst);
    assert [burst][..1] == [burst];
    hide Flatten, Stamped, RingInv, Wrap, Pow2;
    ret := cq.PollCq(1, [burst]);
  }

  /** The loop both phases share: it ends, because the device completes what was posted,
      and takes exactly `numPost` entries. */
  method PollPhase(cq: DvCq, numPost: nat, arrivals: seq<seq<Cqe>>) returns (ret: int, ghost polls: nat)
    requires cq.Valid() && cq.buf.Length > 0
    requires MayArrive(cq.log, |cq.handed|, cq.buf.Length, arrivals)
    requires |cq.handed| + numPost <= |cq.log| + |Flatten(arrivals)|
    modifies cq.buf, cq.db, cq
    ensures cq.Valid() && ret == 0
    ensures |cq.handed| == old(|cq.handed|) + numPost
    ensures cq.log == old(cq.log) + Upto(arrivals, polls)
    ensures polls <= |arrivals| + numPost
  {
    ghost var log0, taken0 := cq.log, |cq.handed|;
    hide Flatten, Stamped, RingInv, Wrap, Pow2, Upto, Burst;
    BurstStep(log0, arrivals, 0, cq.buf.Length);
    var numComp := 0;
    var t: nat := 0;
    polls := 0;
    while numComp < numPost
      invariant 0 <= numComp <= numPost && cq.Valid()
      invariant |cq.handed| == taken0 + numComp
      invariant cq.log == log0 + Upto(arrivals, t)
      invariant t == polls <= |arrivals| + numComp
      decreases |arrivals| + numPost - t
    {
      BurstStep(log0, arrivals, t, cq.buf.Length);
      FlattenOne(Burst(arrivals, t));
      ret := PollNext(cq, Burst(arrivals, t));
      t := t + 1;
      polls := t;
      if ret == CQ_POLL_ERR {
        return;
      }
      if ret > 0 {
        numComp := numComp + 1;
      }
      BurstStep(log0, arrivals, t, cq.buf.Length);
    }
    ret := 0;
  }

  // ---------- the buffers ----------

  /** Distinct buffers of one length. */
  ghost predicate Buffered(bufs: seq<array<nat>>, len: nat) {
    && len > 0
    && (forall i :: 0 <= i < |bufs| ==> bufs[i].Length == len)
    && (forall i, j :: 0 <= i < j < |bufs| ==> bufs[i] != bufs[j])
  }

  /** The buffers are not the doorbell records or the work queue. */
  ghost predicate Separate(bufs: seq<array<nat>>, cq: DvCq, qp: QueuePair.DvQp) {
    && (forall i :: 0 <= i < |bufs| ==> bufs[i] != cq.db && bufs[i] != qp.buf && bufs[i] != qp.db)
    && qp.buf != cq.db && qp.db != cq.db
  }

  method FillAll(bufs: seq<array<nat>>, len: nat)
    requires Buffered(bufs, len)
    modifies bufs
    ensures forall i :: 0 <= i < |bufs| ==> bufs[i][..] == Ping(i, len)
  {
    hide Ping;
    var i := 0;
    while i < |bufs|
      invariant 0 <= i <= |bufs|
      invariant forall j :: 0 <= j < i ==> bufs[j][..] == Ping(j, len)
    {
      FillPing(bufs[i], i);
      i := i + 1;
    }
  }

  method ClearAll(bufs: seq<array<nat>>, len: nat)
    requires Buffered(bufs, len)
    modifies bufs
    ensures forall i :: 0 <= i < |bufs| ==> bufs[i][..] == Zeros(len)
  {
    hide Zeros;
    var i := 0;
    while i < |bufs|
      invariant 0 <= i <= |bufs|
      invariant forall j :: 0 <= j < i ==> bufs[j][..] == Zeros(len)
    {
      Clear(bufs[i]);
      i := i + 1;
    }
  }

  /** The device places a reply before it writes the completion for it. */
  method PlaceReply(p: array<nat>, reply: Bytes)
    requires |reply| == p.Length
    modifies p
    ensures p[..] == reply
  {
    var j := 0;
    while j < p.Length
      invariant 0 <= j <= p.Length
      invariant forall k :: 0 <= k < j ==> p[k] == reply[k]
    {
      p[j] := reply[j];
      j := j + 1;
    }
  }

  /** The buffers in the second phase: dumped where taken, replies where completed. */
  ghost predicate Progress(bufs: seq<array<nat>>, len: nat, replies: seq<Bytes>, taken: nat, placed: nat)
    requires Buffered(bufs, len) && |replies| == |bufs|
    reads bufs
  {
    && taken <= placed <= |bufs|
    && (forall i :: 0 <= i < |bufs| ==> |replies[i]| == len)
    && (forall i :: 0 <= i < taken ==> bufs[i][..] == Dumped(replies[i]))
    && forall i :: taken <= i < placed ==> bufs[i][..] == replies[i]
  }

  /** The device places replies, and only then writes their completions. */
  method PlaceReplies(bufs: seq<array<nat>>, len: nat, replies: seq<Bytes>, ghost taken: nat, from: nat, count: nat)
    requires Buffered(bufs, len) && |replies| == |bufs| && from + count <= |bufs|
    requires Progress(bufs, len, replies, taken, from)
    modifies bufs
    ensures Progress(bufs, len, replies, taken, from + count)
  {
    hide Dumped;
    var i := 0;
    while i < count
      invariant 0 <= i <= count && Progress(bufs, len, replies, taken, from + i)
    {
      PlaceReply(bufs[from + i], replies[from + i]);
      i := i + 1;
    }
  }

  /** The dump of the buffer whose completion was just taken. */
  method DumpTaken(bufs: seq<array<nat>>, len: nat, ghost replies: seq<Bytes>, taken: nat, ghost placed: nat)
    requires Buffered(bufs, len) && |replies| == |bufs| && taken < placed
    requires Progress(bufs, len, replies, taken, placed)
    modifies bufs
    ensures Progress(bufs, len, replies, taken + 1, placed)
  {
    hide Dumped;
    DumpMsgShort(bufs[taken]);
  }

  /** Where the second phase stands after `t` polls. */
  ghost predicate Receiving(cq: DvCq, bufs: seq<array<nat>>, len: nat, replies: seq<Bytes>, arrivals: seq<seq<Cqe>>,
                            log0: seq<Cqe>, taken0: nat, numComp: nat, placed: nat, t: nat)
    requires Buffered(bufs, len) && |replies| == |bufs|
    reads cq, cq.buf, bufs
  {
    && cq.Valid() && cq.buf.Length > 0 && numComp <= |bufs|
    && |cq.handed| == taken0 + numComp && |cq.log| == taken0 + placed
    && cq.log == log0 + Upto(arrivals, t) && t <= |arrivals| + numComp
    && Progress(bufs, len, replies, numComp, placed)
  }

  /** What the phase may rely on throughout. */
  ghost predicate Fits(log0: seq<Cqe>, taken0: nat, n: nat, size: nat, arrivals: seq<seq<Cqe>>)
    requires size > 0
  {
    MayArrive(log0, taken0, size, arrivals) && |log0| == taken0 && |Flatten(arrivals)| == n
  }

  /** One round: the device places what completes next, the loop polls and dumps. */
  method RecvRound(cq: DvCq, bufs: seq<array<nat>>, len: nat, replies: seq<Bytes>, arrivals: seq<seq<Cqe>>,
                   ghost log0: seq<Cqe>, ghost taken0: nat, numComp: nat, placed: nat, t: nat)
    returns (ret: int, now: nat)
    requires Buffered(bufs, len) && |replies| == |bufs| && cq.buf.Length > 0
    requires Fits(log0, taken0, |bufs|, cq.buf.Length, arrivals) && numComp < |bufs|
    requires forall i :: 0 <= i < |bufs| ==> bufs[i] != cq.db
    requires Receiving(cq, bufs, len, replies, arrivals, log0, taken0, numComp, placed, t)
    modifies cq.buf, cq.db, cq, bufs
    ensures 0 <= ret <= 1
    ensures Receiving(cq, bufs, len, replies, arrivals, log0, taken0, numComp + ret, now, t + 1)
  {
    hide Flatten, Stamped, RingInv, Wrap, Pow2, Upto, Burst, Dumped, Progress, Buffered;
    BurstStep(log0, arrivals, t, cq.buf.Length);
    BurstStep(log0, arrivals, t + 1, cq.buf.Length);
    FlattenOne(Burst(arrivals, t));
    PlaceReplies(bufs, len, replies, numComp, placed, |Burst(arrivals, t)|);
    now := placed + |Burst(arrivals, t)|;
    ret := PollNext(cq, Burst(arrivals, t));
    if ret > 0 {
      DumpTaken(bufs, len, replies, numComp, now);
    }
  }

  /** The second polling loop. The device writes a reply into its buffer before the
      completion for it; the loop dumps the buffer when it takes the completion. */
  method RecvPhase(cq: DvCq, bufs: seq<array<nat>>, len: nat, replies: seq<Bytes>, arrivals: seq<seq<Cqe>>)
    returns (ret: int, ghost polls: nat)
    requires cq.Valid() && cq.buf.Length > 0 && cq.handed == cq.log
    requires MayArrive(cq.log, |cq.handed|, cq.buf.Length, arrivals) && |Flatten(arrivals)| == |bufs|
    requires Buffered(bufs, len) && |replies| == |bufs| && forall i :: 0 <= i < |bufs| ==> |replies[i]| == len
    requires forall i :: 0 <= i < |bufs| ==> bufs[i] != cq.db
    modifies cq.buf, cq.db, cq, bufs
    ensures cq.Valid() && ret == 0
    ensures |cq.handed| == old(|cq.handed|) + |bufs|
    ensures cq.log == old(cq.log) + Upto(arrivals, polls)
    ensures forall i :: 0 <= i < |bufs| ==> bufs[i][..] == Dumped(replies[i])
  {
    ghost var log0, taken0 := cq.log, |cq.handed|;
    BurstStep(log0, arrivals, 0, cq.buf.Length);
    assert Receiving(cq, bufs, len, replies, arrivals, log0, taken0, 0, 0, 0);
    assert CQ_POLL_ERR < 0;
    hide *;
    var numComp: nat, placed: nat, t: nat := 0, 0, 0;
    while numComp < |bufs|
      invariant numComp <= |bufs| && t <= |arrivals| + numComp
      invariant Receiving(cq, bufs, len, replies, arrivals, log0, taken0, numComp, placed, t)
      decreases |arrivals| + |bufs| - t
    {
      ret, placed := RecvRound(cq, bufs, len, replies, arrivals, log0, taken0, numComp, placed, t);
      t := t + 1;
      if ret == CQ_POLL_ERR {
        return;
      }
      if ret > 0 {
        numComp := numComp + 1;
      }
    }
    polls, ret := t, 0;
  }

  /** A queue that handed out as many entries as could arrive has handed out all. */
  lemma AllArrived(log0: seq<Cqe>, arrivals: seq<seq<Cqe>>, polls: nat, n: nat)
    requires n > 0 && Stamped(log0 + Flatten(arrivals), n)
    requires |log0| + |Flatten(arrivals)| <= |log0 + Upto(arrivals, polls)|
    ensures log0 + Upto(arrivals, polls) == log0 + Flatten(arrivals)
  {
    if polls < |arrivals| {
      FlattenAppend(arrivals[..polls], arrivals[polls..]);
      assert arrivals == arrivals[..polls] + arrivals[polls..];
    } else {
      assert arrivals[..|arrivals|] == arrivals;
    }
  }

  /** What the device may do in the two phases: `n` completions in each. */
  ghost predicate DeviceCompletes(cq: DvCq, n: nat, sends: seq<seq<Cqe>>, recvs: seq<seq<Cqe>>)
    reads cq
  {
    && 0 < cq.buf.Length && n <= cq.buf.Length
    && |Flatten(sends)| == |Flatten(recvs)| == n
    && Stamped(cq.log + Flatten(sends) + Flatten(recvs), cq.buf.Length)
  }

  lemma PhasesMayArrive(log0: seq<Cqe>, n: nat, size: nat, sends: seq<seq<Cqe>>, recvs: seq<seq<Cqe>>)
    requires 0 < size && n <= size && |Flatten(sends)| == |Flatten(recvs)| == n
    requires Stamped(log0 + Flatten(sends) + Flatten(recvs), size)
    ensures MayArrive(log0, |log0|, size, sends)
    ensures MayArrive(log0 + Flatten(sends), |log0| + n, size, recvs)
  {
    hide Flatten, StampedAt;
    PrefixStamped(log0 + Flatten(sends), log0 + Flatten(sends) + Flatten(recvs), size);
  }

  /** The first phase on its own, from an empty completion queue. */
  method SendPhase(cq: DvCq, n: nat, sends: seq<seq<Cqe>>) returns (ret: int)
    requires cq.Valid() && cq.buf.Length > 0 && cq.handed == cq.log
    requires MayArrive(cq.log, |cq.handed|, cq.buf.Length, sends) && |Flatten(sends)| == n
    modifies cq.buf, cq.db, cq
    ensures cq.Valid() && ret == 0
    ensures cq.handed == cq.log == old(cq.log) + Flatten(sends)
  {
    hide Flatten, Stamped, RingInv, Wrap, Pow2, Upto;
    ghost var log0 := cq.log;
    ghost var polls;
    ret, polls := PollPhase(cq, n, sends);
    AllArrived(log0, sends, polls, cq.buf.Length);
  }

  /** The second phase on its own. */
  method ReplyPhase(cq: DvCq, bufs: seq<array<nat>>, len: nat, replies: seq<Bytes>, recvs: seq<seq<Cqe>>)
    returns (ret: int)
    requires cq.Valid() && cq.buf.Length > 0 && cq.handed == cq.log
    requires MayArrive(cq.log, |cq.handed|, cq.buf.Length, recvs) && |Flatten(recvs)| == |bufs|
    requires Buffered(bufs, len) && |replies| == |bufs| && forall i :: 0 <= i < |bufs| ==> |replies[i]| == len
    requires forall i :: 0 <= i < |bufs| ==> bufs[i] != cq.db
    modifies cq.buf, cq.db, cq, bufs
    ensures cq.Valid() && ret == 0
    ensures cq.handed == cq.log == old(cq.log) + Flatten(recvs)
    ensures forall i :: 0 <= i < |bufs| ==> bufs[i][..] == Dumped(replies[i])
  {
    hide Flatten, Stamped, RingInv, Wrap, Pow2, Upto, Dumped;
    ghost var log0 := cq.log;
    ghost var polls;
    ret, polls := RecvPhase(cq, bufs, len, replies, recvs);
    AllArrived(log0, recvs, polls, cq.buf.Length);
  }

  /** The numbers behind the names of the client's posting call. */
  lemma SignalledSend()
    ensures WorkQueue.EINVAL == 22 && WorkQueue.OPCODE_SEND_IMM == 0x0a && WorkQueue.SEND_SIGNALED == 2
  {
  }

  /** Fill and post: the buffers and the work queue, before any completion. */
  method FillAndPost(qp: QueuePair.DvQp, ctx: WorkQueue.Context, peer: WorkQueue.Peer, bufs: seq<array<nat>>, len: nat)
    returns (ret: int)
    requires qp.Valid() && Buffered(bufs, len) && forall i :: 0 <= i < |bufs| ==> bufs[i] != qp.buf && bufs[i] != qp.db
    requires |bufs| == |ctx.mrs| <= |peer.addr| && |ctx.mrs| <= |peer.mrkey|
    modifies qp.buf, qp.db, qp, bufs
    ensures qp.Valid() && qp.posted == old(qp.posted)
    ensures ret == (if 0 < |bufs| <= qp.sqMaxPost then 0 else 22)
    ensures forall i :: 0 <= i < |bufs| ==> bufs[i][..] == Ping(i, len)
    ensures qp.sent == old(qp.sent)
            + (if ret == 0 then QueuePair.SendBatch(old(|qp.sent|), qp.qpn, ctx, peer, |bufs|,
                0x0a, 2) else [])
  {
    hide *;
    SignalledSend();
    FillAll(bufs, len);
    ret := qp.PostSend(ctx, peer, |bufs|, WorkQueue.OPCODE_SEND_IMM, WorkQueue.SEND_SIGNALED);
  }

  /** Clear and repost. */
  method ClearAndRepost(qp: QueuePair.DvQp, ctx: WorkQueue.Context, bufs: seq<array<nat>>, len: nat) returns (ret: int)
    requires qp.Valid() && Buffered(bufs, len) && forall i :: 0 <= i < |bufs| ==> bufs[i] != qp.buf && bufs[i] != qp.db
    requires |bufs| == |ctx.mrs|
    modifies qp.buf, qp.db, qp, bufs
    ensures qp.Valid() && ret == 0 && qp.sent == old(qp.sent)
    ensures qp.posted == old(qp.posted) + QueuePair.RecvBatch(ctx, |bufs|)
    ensures forall i :: 0 <= i < |bufs| ==> bufs[i][..] == Zeros(len)
  {
    hide *;
    ClearAll(bufs, len);
    ret := qp.PostRecv(ctx, |bufs|);
  }

  /** Everything after the posting of the sends. */
  method AwaitReplies(cq: DvCq, qp: QueuePair.DvQp, ctx: WorkQueue.Context, bufs: seq<array<nat>>, len: nat,
                      replies: seq<Bytes>, sends: seq<seq<Cqe>>, recvs: seq<seq<Cqe>>) returns (ret: int)
    requires cq.Valid() && qp.Valid() && cq.handed == cq.log && |bufs| == |ctx.mrs|
    requires Buffered(bufs, len) && Separate(bufs, cq, qp)
    requires |replies| == |bufs| && forall i :: 0 <= i < |bufs| ==> |replies[i]| == len
    requires DeviceCompletes(cq, |bufs|, sends, recvs)
    modifies cq.buf, cq.db, cq, bufs, qp.buf, qp.db, qp
    ensures cq.Valid() && qp.Valid() && ret == 0 && qp.sent == old(qp.sent)
    ensures qp.posted == old(qp.posted) + QueuePair.RecvBatch(ctx, |bufs|)
    ensures cq.handed == cq.log == old(cq.log) + Flatten(sends) + Flatten(recvs)
    ensures forall i :: 0 <= i < |bufs| ==> bufs[i][..] == Dumped(replies[i])
  {
    assert CQ_POLL_ERR != 0;
    assert forall i :: 0 <= i < |bufs| ==> bufs[i] != cq.db && bufs[i] != qp.buf && bufs[i] != qp.db;
    assert qp.buf != cq.db && qp.db != cq.db && cq.buf.Length > 0;
    hide *;
    PhasesMayArrive(cq.log, |bufs|, cq.buf.Length, sends, recvs);
    ret := SendPhase(cq, |bufs|, sends);
    if ret == CQ_POLL_ERR {
      return;
    }
    ret := ClearAndRepost(qp, ctx, bufs, len);
    if ret != 0 {
      return;
    }
    ret := ReplyPhase(cq, bufs, len, replies, recvs);
  }

  /** `client_traffic_dv`. It fails exactly when posting is refused; otherwise it posts
      every buffer once, takes the completions of one phase and then of the other, and
      leaves in each buffer the dumped reply. */
  method ClientTraffic(cq: DvCq, qp: QueuePair.DvQp, ctx: WorkQueue.Context, peer: WorkQueue.Peer,
                       bufs: seq<array<nat>>, len: nat, replies: seq<Bytes>,
                       sends: seq<seq<Cqe>>, recvs: seq<seq<Cqe>>) returns (ret: int)
    requires cq.Valid() && qp.Valid() && cq.handed == cq.log
    requires |bufs| == |ctx.mrs| <= |peer.addr| && |ctx.mrs| <= |peer.mrkey|
    requires Buffered(bufs, len) && Separate(bufs, cq, qp)
    requires |replies| == |bufs| && forall i :: 0 <= i < |bufs| ==> |replies[i]| == len
    requires DeviceCompletes(cq, |bufs|, sends, recvs)
    modifies cq.buf, cq.db, cq, bufs
    modifies qp.buf, qp.db, qp
    ensures cq.Valid() && qp.Valid()
    ensures ret == (if 0 < |bufs| <= qp.sqMaxPost then 0 else 22)
    ensures ret == 0 ==>
              && qp.sent == old(qp.sent)
                 + QueuePair.SendBatch(old(|qp.sent|), qp.qpn, ctx, peer, |bufs|, 0x0a, 2)
              && qp.posted == old(qp.posted) + QueuePair.RecvBatch(ctx, |bufs|)
              && cq.handed == cq.log == old(cq.log) + Flatten(sends) + Flatten(recvs)
              && forall i :: 0 <= i < |bufs| ==> bufs[i][..] == Dumped(replies[i])
    ensures ret == 0 && (forall i :: 0 <= i < |bufs| ==> replies[i] == Dumped(Ping(i, len))) ==>
              forall i :: 0 <= i < |bufs| ==> bufs[i][..] == Dumped(Ping(i, len))
    ensures ret != 0 ==>
              && qp.sent == old(qp.sent) && qp.posted == old(qp.posted) && cq.log == old(cq.log)
              && forall i :: 0 <= i < |bufs| ==> bufs[i][..] == Ping(i, len)
  {
    assert forall i :: 0 <= i < |bufs| ==> bufs[i] != cq.db && bufs[i] != qp.buf && bufs[i] != qp.db;
    assert qp.buf != cq.db && qp.db != cq.db && len > 0;
    hide *;
    ret := FillAndPost(qp, ctx, peer, bufs, len);
    if ret != 0 {
      return;
    }
    ret := AwaitReplies(cq, qp, ctx, bufs, len, replies, sends, recvs);
    EchoKept(replies, len);
  }

  /** Dumping an echo the server dumped before changes nothing. */
  lemma EchoKept(replies: seq<Bytes>, len: nat)
    requires len > 0 && forall i :: 0 <= i < |replies| ==> |replies[i]| == len
    ensures forall i :: 0 <= i < |replies| && replies[i] == Dumped(Ping(i, len)) ==>
              Dumped(replies[i]) == Dumped(Ping(i, len))
  {
    hide Dumped, Ping;
    forall i | 0 <= i < |replies| && replies[i] == Dumped(Ping(i, len))
      ensures Dumped(replies[i]) == Dumped(Ping(i, len))
    {
      DumpTwice(Ping(i, len));
    }
  }

  /** The routine over the modelled link: given the replies that its wire carries, the code
      ends with the very buffers with which every run of the ping-pong ends in which no
      byte was early. */
  method TrafficOverLink(cq: DvCq, qp: QueuePair.DvQp, ctx: WorkQueue.Context, peer: WorkQueue.Peer,
                         bufs: seq<array<nat>>, len: nat, replies: seq<Bytes>,
                         sends: seq<seq<Cqe>>, recvs: seq<seq<Cqe>>,
                         ghost c: PingPong.Config, ghost run: seq<PingPong.State>, ghost k: nat) returns (ret: int)
    requires cq.Valid() && qp.Valid() && cq.handed == cq.log
    requires |bufs| == |ctx.mrs| <= |peer.addr| && |ctx.mrs| <= |peer.mrkey|
    requires Buffered(bufs, len) && Separate(bufs, cq, qp)
    requires DeviceCompletes(cq, |bufs|, sends, recvs)
    requires PingPong.Run(c, run) && c.n == |bufs| && c.len == len
    requires k < |run| && run[k].client.ClientDone? && run[k].early == 0
    requires |replies| == |bufs| && forall i :: 0 <= i < |bufs| ==> replies[i] == PingPong.Reply(c, i)
    modifies cq.buf, cq.db, cq, bufs, qp.buf, qp.db, qp
    ensures cq.Valid() && qp.Valid()
    ensures ret == (if |bufs| <= qp.sqMaxPost then 0 else 22)
    ensures ret == 0 ==> |run[k].cBuf| == |bufs| && forall i :: 0 <= i < |bufs| ==> bufs[i][..] == run[k].cBuf[i]
  {
    ReplyIs(c, replies);
    LinkEnds(c, run, k);
    hide *;
    ret := ClientTraffic(cq, qp, ctx, peer, bufs, len, replies, sends, recvs);
  }

  lemma ReplyIs(c: PingPong.Config, replies: seq<Bytes>)
    requires c.Valid() && |replies| == c.n && forall i :: 0 <= i < c.n ==> replies[i] == PingPong.Reply(c, i)
    ensures forall i :: 0 <= i < c.n ==> |replies[i]| == c.len && replies[i] == Dumped(Ping(i, c.len))
    ensures c.n > 0
  {
  }

  lemma LinkEnds(c: PingPong.Config, run: seq<PingPong.State>, k: nat)
    requires PingPong.Run(c, run) && k < |run| && run[k].client.ClientDone? && run[k].early == 0
    ensures c.Valid() && |run[k].cBuf| == c.n && forall i :: 0 <= i < c.n ==> run[k].cBuf[i] == Dumped(Ping(i, c.len))
  {
    PingPong.EchoedIffNotEarly(c, run, k);
    hide Dumped, Ping;
  }
}
