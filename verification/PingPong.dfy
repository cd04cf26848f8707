/** The ping-pong run: a client (client.dv.c), a server (server.c), their devices and
    a reliable in-order link.

    Every step of either program and of either device may come at any time. A device
    reads a buffer when it transmits, and writes the receiver's buffer byte by byte.
    A send needs a posted receive from its first byte on; an RDMA write with immediate
    only for its last packet, so all of a reply but that packet can reach the client's
    memory before the client reposted. A message that finds no receive may be refused and
    is tried again: by the client for ever, by the server three times, and then its send
    fails and the server stops. The server's `sleep(2)` is not assumed: the outcome is
    stated exactly in terms of how many bytes came too early, and what the wait gives is
    proved from it.
 */
module PingPong {
  import Bits
  import opened Buffers

  /** `n` requests a phase (`PP_MAX_WR`), buffers of `len` bytes (`mrbuflen`), packets of
      at most `mtu` bytes (`IBV_MTU_1024` on both sides). */
  datatype Config = Config(n: nat, len: nat, mtu: nat) {
    ghost predicate Valid() { n > 0 && len > 0 && mtu > 0 }

    /** The first byte of the last packet of a message. */
    function Last(): (b: nat)
      requires Valid()
      ensures b < len <= b + mtu && b % mtu == 0
      ensures b == 0 <==> len <= mtu
    {
      LastPacket(len, mtu);
      (len - 1) / mtu * mtu
    }
  }

  lemma LastPacket(len: nat, mtu: nat)
    requires len > 0 && mtu > 0
    ensures var b := (len - 1) / mtu * mtu; 0 <= b < len <= b + mtu && b % mtu == 0
    ensures (len - 1) / mtu * mtu == 0 <==> len <= mtu
  {
    var q, rest := (len - 1) / mtu, (len - 1) % mtu;
    assert len - 1 == q * mtu + rest;
    Bits.ModShift(0, q, mtu);
    Bits.DivModUnique(0, mtu, 0, 0);
    if q >= 1 {
      Bits.MulLe(1, q, mtu);
    } else if q <= -1 {
      Bits.MulLe(q, -1, mtu);
    }
    if len <= mtu { Bits.DivModUnique(len - 1, mtu, 0, len - 1); }
  }

  /** A completion, for request number `i`. */
  datatype Done = SendDone(i: nat) | RecvDone(i: nat)

  /** One direction. `posted` sends, of which `sent` are transmitted, `arrived` wholly
      delivered and `acked` completed; `pos` bytes of the next are delivered; the
      receiver posted `recvs` receives. */
  datatype Flow = Flow(posted: nat, recvs: nat, sent: nat, wire: seq<Bytes>, arrived: nat, pos: nat, acked: nat)

  datatype ClientPc = Fill | SendPoll | Reset | Repost | RecvPoll | ClientDone

  datatype ServerPc = Prepare | PostRecv | PingPoll | Sleep | ReplyPoll | ServerDone | ServerFailed

  /** `rnr_retry` of the server; the client's is 7, which means no limit. */
  const RNR_RETRY := 3

  datatype State = State(
    client: ClientPc, cNum: nat, cBuf: seq<Bytes>, cCq: seq<Done>,
    server: ServerPc, sNum: nat, sBuf: seq<Bytes>, sCq: seq<Done>,
    ping: Flow, pong: Flow,
    gotSend: seq<Done>, gotRecv: seq<Done>, early: nat, refused: nat)

  datatype Step =
    | ClientFill | ClientPoll | ClientReset | ClientRepost
    | ServerPrepare | ServerPost | ServerPoll | ServerReply
    | PingTransmit | PingByte | PingAck
    | PongTransmit | PongByte | PongAck | PongRefused

  ghost predicate Enabled(c: Config, s: State, step: Step)
    requires c.Valid()
  {
    match step
    case ClientFill => s.client.Fill?
    case ClientPoll => (s.client.SendPoll? || s.client.RecvPoll?) && s.cCq != []
    case ClientReset => s.client.Reset?
    case ClientRepost => s.client.Repost?
    case ServerPrepare => s.server.Prepare?
    case ServerPost => s.server.PostRecv?
    case ServerPoll => (s.server.PingPoll? || s.server.ReplyPoll?) && s.sCq != []
    case ServerReply => s.server.Sleep?
    case PingTransmit => s.ping.sent < s.ping.posted
    case PingByte => s.ping.wire != [] && s.ping.arrived < s.ping.recvs
    case PingAck => s.ping.acked < s.ping.arrived
    case PongTransmit => s.pong.sent < s.pong.posted && !s.server.ServerFailed?
    case PongByte =>
      s.pong.wire != [] && (s.pong.pos >= c.Last() ==> s.pong.arrived < s.pong.recvs) && !s.server.ServerFailed?
    case PongRefused =>
      // The last packet found no receive.
      s.pong.wire != [] && s.pong.pos == c.Last() && s.pong.arrived == s.pong.recvs && !s.server.ServerFailed?
    case PongAck => s.pong.acked < s.pong.arrived
  }

  /** Buffer `i` replaced, if there is one. */
  function Put(bufs: seq<Bytes>, i: nat, b: Bytes): seq<Bytes> {
    if i < |bufs| then bufs[i := b] else bufs
  }

  function At(bufs: seq<Bytes>, i: nat): Bytes {
    if i < |bufs| then bufs[i] else []
  }

  function PutByte(bufs: seq<Bytes>, i: nat, j: nat, v: nat): seq<Bytes> {
    var b := At(bufs, i);
    if j < |b| then Put(bufs, i, b[j := v]) else bufs
  }

  function DumpBuf(bufs: seq<Bytes>, i: nat): seq<Bytes> {
    var b := At(bufs, i);
    if |b| > 0 then Put(bufs, i, Dumped(b)) else bufs
  }

  function Transmit(f: Flow, bufs: seq<Bytes>): Flow {
    f.(wire := f.wire + [At(bufs, f.sent)], sent := f.sent + 1)
  }

  function NextByte(f: Flow): nat
    requires f.wire != []
  {
    if f.pos < |f.wire[0]| then f.wire[0][f.pos] else 0
  }

  function Deliver(f: Flow, len: nat): Flow
    requires f.wire != []
  {
    if f.pos + 1 == len then f.(wire := f.wire[1..], arrived := f.arrived + 1, pos := 0)
    else f.(pos := f.pos + 1)
  }

  function Arrival(f: Flow, len: nat): seq<Done> {
    if f.pos + 1 == len then [RecvDone(f.arrived)] else []
  }

  function Exec(c: Config, s: State, step: Step): State
    requires c.Valid() && Enabled(c, s, step)
  {
    match step
    case ClientFill =>
      var t := s.(cBuf := Put(s.cBuf, s.cNum, Ping(s.cNum, c.len)));
      if s.cNum + 1 < c.n then t.(cNum := s.cNum + 1)
      else t.(cNum := 0, ping := s.ping.(posted := c.n), client := SendPoll)
    case ClientPoll =>
      var t := s.(cCq := s.cCq[1..]);
      var u := if s.client.SendPoll? then t.(gotSend := s.gotSend + [s.cCq[0]])
               else t.(gotRecv := s.gotRecv + [s.cCq[0]], cBuf := DumpBuf(s.cBuf, s.cNum));
      if s.cNum + 1 < c.n then u.(cNum := s.cNum + 1)
      else u.(cNum := 0, client := if s.client.SendPoll? then Reset else ClientDone)
    case ClientReset =>
      var t := s.(cBuf := Put(s.cBuf, s.cNum, Zeros(c.len)), early := if s.cNum == 0 then s.pong.pos else s.early);
      if s.cNum + 1 < c.n then t.(cNum := s.cNum + 1) else t.(cNum := 0, client := Repost)
    case ClientRepost =>
      s.(pong := s.pong.(recvs := c.n), client := RecvPoll)
    case ServerPrepare =>
      var t := s.(sBuf := Put(s.sBuf, s.sNum, Zeros(c.len)));
      if s.sNum + 1 < c.n then t.(sNum := s.sNum + 1) else t.(sNum := 0, server := PostRecv)
    case ServerPost =>
      s.(ping := s.ping.(recvs := c.n), server := PingPoll)
    case ServerPoll =>
      var t := s.(sCq := s.sCq[1..], sBuf := if s.server.PingPoll? then DumpBuf(s.sBuf, s.sNum) else s.sBuf);
      if s.sNum + 1 < c.n then t.(sNum := s.sNum + 1)
      else t.(sNum := 0, server := if s.server.PingPoll? then Sleep else ServerDone)
    case ServerReply =>
      s.(pong := s.pong.(posted := c.n), server := ReplyPoll)
    case PingTransmit => s.(ping := Transmit(s.ping, s.cBuf))
    case PingByte =>
      s.(sBuf := PutByte(s.sBuf, s.ping.arrived, s.ping.pos, NextByte(s.ping)),
         ping := Deliver(s.ping, c.len), sCq := s.sCq + Arrival(s.ping, c.len))
    case PingAck =>
      s.(ping := s.ping.(acked := s.ping.acked + 1), cCq := s.cCq + [SendDone(s.ping.acked)])
    case PongTransmit => s.(pong := Transmit(s.pong, s.sBuf))
    case PongByte =>
      s.(cBuf := PutByte(s.cBuf, s.pong.arrived, s.pong.pos, NextByte(s.pong)),
         pong := Deliver(s.pong, c.len), cCq := s.cCq + Arrival(s.pong, c.len))
    case PongAck =>
      s.(pong := s.pong.(acked := s.pong.acked + 1), sCq := s.sCq + [SendDone(s.pong.acked)])
    case PongRefused =>
      // Out of retries, the completion is an error and `poll_cq_verb` returns.
      s.(refused := s.refused + 1, server := if s.refused < RNR_RETRY then s.server else ServerFailed)
  }

  /** What each step of the client does to the one buffer it is for, byte by byte, in any
      state; the others stay. */
  lemma ClientSteps(c: Config, s: State, step: Step, j: nat)
    requires c.Valid() && Enabled(c, s, step) && Shapes(c, s.cBuf) && s.cNum < c.n && j < c.len && !step.PongByte?
    ensures var t := Exec(c, s, step);
            && |t.cBuf| == c.n && |t.cBuf[s.cNum]| == c.len
            && (step.ClientFill? ==> t.cBuf[s.cNum] == Ping(s.cNum, c.len))
            && (step.ClientReset? ==> t.cBuf[s.cNum][j] == 0)
            && (step.ClientPoll? ==>
                  t.cBuf[s.cNum][j] ==
                  if s.client.RecvPoll? && (j == c.len - 1 || (c.len > 32 && j == 16)) then 0 else s.cBuf[s.cNum][j])
            && forall i :: 0 <= i < c.n && i != s.cNum ==> t.cBuf[i] == s.cBuf[i]
  {
    DumpedAt(s.cBuf[s.cNum], j);
    hide Dumped, Ping, Deliver, Transmit, PutByte;
  }

  /** The same for the server. */
  lemma ServerSteps(c: Config, s: State, step: Step, j: nat)
    requires c.Valid() && Enabled(c, s, step) && Shapes(c, s.sBuf) && s.sNum < c.n && j < c.len && !step.PingByte?
    ensures var t := Exec(c, s, step);
            && |t.sBuf| == c.n && |t.sBuf[s.sNum]| == c.len
            && (step.ServerPrepare? ==> t.sBuf[s.sNum][j] == 0)
            && (step.ServerPoll? ==>
                  t.sBuf[s.sNum][j] ==
                  if s.server.PingPoll? && (j == c.len - 1 || (c.len > 32 && j == 16)) then 0 else s.sBuf[s.sNum][j])
            && forall i :: 0 <= i < c.n && i != s.sNum ==> t.sBuf[i] == s.sBuf[i]
  {
    DumpedAt(s.sBuf[s.sNum], j);
    hide Dumped, Ping, Deliver, Transmit, PutByte;
  }

  const QUIET := Flow(0, 0, 0, [], 0, 0, 0)

  ghost predicate Init(c: Config, s: State) {
    && c.Valid()
    && s.client == Fill && s.server == Prepare && s.cNum == s.sNum == s.early == s.refused == 0
    && |s.cBuf| == |s.sBuf| == c.n
    && (forall i :: 0 <= i < c.n ==> |s.cBuf[i]| == c.len && |s.sBuf[i]| == c.len)
    && s.cCq == s.sCq == s.gotSend == s.gotRecv == []
    && s.ping == s.pong == QUIET
  }

  ghost predicate Next(c: Config, s: State, t: State)
    requires c.Valid()
  {
    exists step :: Enabled(c, s, step) && t == Exec(c, s, step)
  }

  ghost predicate Run(c: Config, run: seq<State>) {
    && c.Valid() && run != []
    && Init(c, run[0])
    && forall i :: 0 <= i < |run| - 1 ==> Next(c, run[i], run[i + 1])
  }

  // ---------- the invariant ----------

  ghost predicate FlowOk(c: Config, f: Flow) {
    && f.acked <= f.arrived <= f.sent <= f.posted <= c.n
    && |f.wire| == f.sent - f.arrived
    && f.arrived <= f.recvs <= c.n
    && f.pos < c.len
    && (f.pos > 0 ==> f.wire != [])
  }

  /** The queue holds the completions `from..to` of one kind, in order. */
  ghost predicate CqIs(cq: seq<Done>, send: bool, from: nat, to: nat) {
    && from <= to && |cq| == to - from
    && forall i :: 0 <= i < |cq| ==> cq[i] == (if send then SendDone(from + i) else RecvDone(from + i))
  }

  ghost predicate ClientView(c: Config, s: State) {
    match s.client
    case Fill => s.ping.posted == 0 && s.pong.recvs == 0 && s.cCq == [] && s.cNum < c.n
    case SendPoll =>
      s.ping.posted == c.n && s.pong.recvs == 0 && CqIs(s.cCq, true, s.cNum, s.ping.acked) && s.cNum < c.n
    case Reset => s.ping.acked == c.n && s.pong.recvs == 0 && s.cCq == [] && s.cNum < c.n
    case Repost => s.ping.acked == c.n && s.pong.recvs == 0 && s.cCq == [] && s.cNum == 0
    case RecvPoll =>
      s.ping.acked == c.n && s.pong.recvs == c.n && CqIs(s.cCq, false, s.cNum, s.pong.arrived) && s.cNum < c.n
    case ClientDone => s.ping.acked == c.n && s.pong.recvs == c.n && s.pong.arrived == c.n && s.cCq == []
  }

  ghost predicate ServerView(c: Config, s: State) {
    match s.server
    case Prepare => s.ping.recvs == 0 && s.pong.posted == 0 && s.sCq == [] && s.sNum < c.n && s.ping.pos == 0
    case PostRecv => s.ping.recvs == 0 && s.pong.posted == 0 && s.sCq == [] && s.sNum == 0 && s.ping.pos == 0
    case PingPoll =>
      s.ping.recvs == c.n && s.pong.posted == 0 && CqIs(s.sCq, false, s.sNum, s.ping.arrived) && s.sNum < c.n
    case Sleep => s.ping.arrived == c.n && s.pong.posted == 0 && s.sCq == [] && s.sNum == 0
    case ReplyPoll =>
      s.ping.arrived == c.n && s.pong.posted == c.n && CqIs(s.sCq, true, s.sNum, s.pong.acked) && s.sNum < c.n
    case ServerDone => s.ping.arrived == c.n && s.pong.acked == c.n && s.sCq == []
    case ServerFailed =>
      s.ping.arrived == c.n && s.pong.posted == c.n && s.pong.arrived == 0 && s.sCq == [] && s.sNum == 0
  }

  /** Only the first reply can be refused, and only before the client reposted. */
  ghost predicate Refusals(s: State) {
    && s.refused <= RNR_RETRY + 1
    && (s.server.ServerFailed? <==> s.refused == RNR_RETRY + 1)
    && (s.refused > 0 ==> s.server.ReplyPoll? || s.server.ServerDone? || s.server.ServerFailed?)
  }

  ghost predicate Shapes(c: Config, bufs: seq<Bytes>) {
    |bufs| == c.n && forall i :: 0 <= i < c.n ==> |bufs[i]| == c.len
  }

  ghost predicate PingsReady(c: Config, s: State)
    requires c.Valid()
  {
    && (s.client.Fill? ==> forall i :: 0 <= i < s.cNum < c.n ==> At(s.cBuf, i) == Ping(i, c.len))
    && (!s.client.Fill? ==> forall i :: s.ping.sent <= i < c.n ==> At(s.cBuf, i) == Ping(i, c.len))
  }

  function Reply(c: Config, i: nat): (r: Bytes)
    requires c.Valid()
    ensures |r| == c.len
  {
    Dumped(Ping(i, c.len))
  }

  ghost predicate WireIs(c: Config, s: State)
    requires c.Valid()
  {
    && (forall j :: 0 <= j < |s.ping.wire| ==> s.ping.wire[j] == Ping(s.ping.arrived + j, c.len))
    && (forall j :: 0 <= j < |s.pong.wire| ==> s.pong.wire[j] == Reply(c, s.pong.arrived + j))
  }

  /** How many of its buffers the server has dumped. */
  function ServerDumps(c: Config, s: State): nat {
    match s.server
    case Prepare | PostRecv => 0
    case PingPoll => s.sNum
    case Sleep | ReplyPoll | ServerDone | ServerFailed => c.n
  }

  /** The first `k` bytes agree. */
  ghost predicate Agree(a: Bytes, b: Bytes, k: nat) {
    k <= |a| && k <= |b| && a[..k] == b[..k]
  }

  ghost predicate ServerHas(c: Config, s: State)
    requires c.Valid()
  {
    && Shapes(c, s.sBuf)
    && (forall i :: 0 <= i < s.ping.arrived && i < c.n ==>
          At(s.sBuf, i) == if i < ServerDumps(c, s) then Reply(c, i) else Ping(i, c.len))
    && (s.ping.pos > 0 ==> Agree(At(s.sBuf, s.ping.arrived), Ping(s.ping.arrived, c.len), s.ping.pos))
  }

  /** What buffer `i` of the client ends up as: the reply, but for the bytes of the
      first one that arrived before the reset. */
  function Final(c: Config, i: nat, early: nat): (r: Bytes)
    requires c.Valid()
    ensures |r| == c.len
  {
    seq(c.len, j requires 0 <= j < c.len => if i == 0 && j < early then 0 else Reply(c, i)[j])
  }

  /** The first buffer has been reset. */
  ghost predicate WasReset(s: State) {
    match s.client
    case Fill | SendPoll => false
    case Reset => s.cNum > 0
    case Repost | RecvPoll | ClientDone => true
  }

  ghost predicate ClientHas(c: Config, s: State)
    requires c.Valid()
  {
    && Shapes(c, s.cBuf)
    && s.early <= c.Last() && (s.pong.arrived == s.pong.recvs ==> s.pong.pos <= c.Last())
    && (!WasReset(s) ==> s.early == 0)
    && (WasReset(s) ==>
          && (s.pong.arrived == 0 ==> s.early <= s.pong.pos)
          && (forall i :: 0 <= i < s.pong.arrived && i < c.n ==> At(s.cBuf, i) == Final(c, i, s.early))
          && (s.pong.pos > 0 ==> Agree(At(s.cBuf, s.pong.arrived), Final(c, s.pong.arrived, s.early), s.pong.pos)))
  }

  /** What the client took in each phase. */
  ghost predicate Consumed(c: Config, s: State) {
    && CqIs(s.gotSend, true, 0, match s.client case Fill => 0 case SendPoll => s.cNum case _ => c.n)
    && CqIs(s.gotRecv, false, 0, match s.client case RecvPoll => s.cNum case ClientDone => c.n case _ => 0)
  }

  ghost predicate Inv(c: Config, s: State) {
    && c.Valid()
    && FlowOk(c, s.ping) && FlowOk(c, s.pong)
    && ClientView(c, s) && ServerView(c, s)
    && PingsReady(c, s) && WireIs(c, s) && ServerHas(c, s) && ClientHas(c, s)
    && Consumed(c, s) && Refusals(s)
  }

  // ---------- every step keeps it ----------

  lemma FinalAt(c: Config, i: nat, early: nat, j: nat)
    requires c.Valid() && j < c.len
    ensures Final(c, i, early)[j] == if i == 0 && j < early then 0 else Reply(c, i)[j]
  {
  }

  /** Dumping what the client received changes nothing. */
  lemma DumpFinal(c: Config, i: nat, early: nat)
    requires c.Valid() && early < c.len
    ensures Dumped(Final(c, i, early)) == Final(c, i, early)
  {
    hide Ping;
    FinalAt(c, i, early, c.len - 1);
    if c.len > DUMP_SHORT { FinalAt(c, i, early, DUMP_CUT); }
  }

  lemma ClientFillKeeps(c: Config, s: State)
    requires Inv(c, s) && Enabled(c, s, ClientFill)
    ensures Inv(c, Exec(c, s, ClientFill))
  {
    hide Ping, Dumped, Final, Zeros;
  }

  lemma ClientRepostKeeps(c: Config, s: State)
    requires Inv(c, s) && Enabled(c, s, ClientRepost)
    ensures Inv(c, Exec(c, s, ClientRepost))
  {
    hide Ping, Dumped, Final, Zeros;
  }

  lemma ServerPrepareKeeps(c: Config, s: State)
    requires Inv(c, s) && Enabled(c, s, ServerPrepare)
    ensures Inv(c, Exec(c, s, ServerPrepare))
  {
    hide Ping, Dumped, Final, Zeros;
  }

  lemma ServerPostKeeps(c: Config, s: State)
    requires Inv(c, s) && Enabled(c, s, ServerPost)
    ensures Inv(c, Exec(c, s, ServerPost))
  {
    hide Ping, Dumped, Final, Zeros;
  }

  lemma ServerReplyKeeps(c: Config, s: State)
    requires Inv(c, s) && Enabled(c, s, ServerReply)
    ensures Inv(c, Exec(c, s, ServerReply))
  {
    hide Ping, Dumped, Final, Zeros;
  }

  lemma PingTransmitKeeps(c: Config, s: State)
    requires Inv(c, s) && Enabled(c, s, PingTransmit)
    ensures Inv(c, Exec(c, s, PingTransmit))
  {
    hide Ping, Dumped, Final, Zeros;
  }

  lemma PingByteHas(c: Config, s: State)
    requires Inv(c, s) && Enabled(c, s, PingByte)
    ensures ServerHas(c, Exec(c, s, PingByte))
  {
    hide Ping, Dumped, Final, Zeros, Reply, ClientHas, ClientView, PingsReady, Consumed;
    OneMore(At(s.sBuf, s.ping.arrived), Ping(s.ping.arrived, c.len), s.ping.pos);
  }

  lemma PingByteClient(c: Config, s: State)
    requires Inv(c, s) && Enabled(c, s, PingByte)
    ensures ClientHas(c, Exec(c, s, PingByte))
  {
    hide ServerHas, ClientView, ServerView, PingsReady, Consumed, WireIs, Final;
  }

  lemma PingByteKeeps(c: Config, s: State)
    requires Inv(c, s) && Enabled(c, s, PingByte)
    ensures Inv(c, Exec(c, s, PingByte))
  {
    hide Ping, Dumped, Final, Zeros, Reply, ServerHas, ClientHas, Agree, Shapes, PutByte, NextByte;
    PingByteHas(c, s);
    assert ClientHas(c, Exec(c, s, PingByte)) by { PingByteClient(c, s); }
  }

  lemma PingAckKeeps(c: Config, s: State)
    requires Inv(c, s) && Enabled(c, s, PingAck)
    ensures Inv(c, Exec(c, s, PingAck))
  {
    hide Ping, Dumped, Final, Zeros;
  }

  lemma PongRefusedKeeps(c: Config, s: State)
    requires Inv(c, s) && Enabled(c, s, PongRefused)
    ensures Inv(c, Exec(c, s, PongRefused))
  {
    hide Ping, Dumped, Final, Zeros;
  }

  lemma PongTransmitKeeps(c: Config, s: State)
    requires Inv(c, s) && Enabled(c, s, PongTransmit)
    ensures Inv(c, Exec(c, s, PongTransmit))
  {
    hide Ping, Dumped, Final, Zeros;
  }

  lemma PongAckKeeps(c: Config, s: State)
    requires Inv(c, s) && Enabled(c, s, PongAck)
    ensures Inv(c, Exec(c, s, PongAck))
  {
    hide Ping, Dumped, Final, Zeros;
  }

  lemma ClientPollHas(c: Config, s: State)
    requires Inv(c, s) && Enabled(c, s, ClientPoll)
    ensures ClientHas(c, Exec(c, s, ClientPoll))
  {
    hide Ping, Dumped, Final, Zeros, Reply, ServerHas, ServerView, PingsReady, Consumed, WireIs;
    if s.client.RecvPoll? { DumpFinal(c, s.cNum, s.early); }
  }

  lemma ClientPollServer(c: Config, s: State)
    requires Inv(c, s) && Enabled(c, s, ClientPoll)
    ensures ServerHas(c, Exec(c, s, ClientPoll))
  {
    hide ClientHas, ClientView, ServerView, PingsReady, Consumed, WireIs, Ping, Reply;
  }

  lemma ClientPollConsumed(c: Config, s: State)
    requires Inv(c, s) && Enabled(c, s, ClientPoll)
    ensures Consumed(c, Exec(c, s, ClientPoll)) && Refusals(Exec(c, s, ClientPoll))
  {
    hide ClientHas, ServerHas, ServerView, PingsReady, WireIs, Ping, Reply, DumpBuf, FlowOk;
  }

  lemma ClientPollKeeps(c: Config, s: State)
    requires Inv(c, s) && Enabled(c, s, ClientPoll)
    ensures Inv(c, Exec(c, s, ClientPoll))
  {
    hide Ping, Dumped, Final, Zeros, Reply, ClientHas, ServerHas, Agree, Shapes, DumpBuf;
    hide Consumed, Refusals;
    ClientPollHas(c, s);
    ClientPollConsumed(c, s);
    assert ServerHas(c, Exec(c, s, ClientPoll)) by { ClientPollServer(c, s); }
  }

  lemma ClientResetKeeps(c: Config, s: State)
    requires Inv(c, s) && Enabled(c, s, ClientReset)
    ensures Inv(c, Exec(c, s, ClientReset))
  {
    hide Ping, Dumped, Final, Reply;
    var e := s.pong.pos;
    assert Zeros(c.len)[..e] == Final(c, 0, e)[..e] by {
      forall j | 0 <= j < e
        ensures Final(c, 0, e)[j] == 0
      {
        FinalAt(c, 0, e, j);
      }
    }
  }

  /** The dump at index `sNum` turns a ping into the reply. */
  lemma ServerPollHas(c: Config, s: State)
    requires Inv(c, s) && Enabled(c, s, ServerPoll)
    ensures ServerHas(c, Exec(c, s, ServerPoll))
  {
    assert Dumped(Ping(s.sNum, c.len)) == Reply(c, s.sNum);
    hide Ping, Dumped, Final, Zeros, Reply, ClientHas, WireIs, PingsReady, Consumed, ClientView;
    if s.server.PingPoll? { assert At(s.sBuf, s.sNum) == Ping(s.sNum, c.len); }
  }

  lemma ServerPollClient(c: Config, s: State)
    requires Inv(c, s) && Enabled(c, s, ServerPoll)
    ensures ClientHas(c, Exec(c, s, ServerPoll))
  {
    hide ServerHas, ClientView, ServerView, PingsReady, Consumed, WireIs, Final;
  }

  lemma ServerPollKeeps(c: Config, s: State)
    requires Inv(c, s) && Enabled(c, s, ServerPoll)
    ensures Inv(c, Exec(c, s, ServerPoll))
  {
    hide Ping, Dumped, Final, Zeros, Reply, ServerHas, ClientHas, Agree, DumpBuf, Shapes;
    ServerPollHas(c, s);
    assert ClientHas(c, Exec(c, s, ServerPoll)) by { ServerPollClient(c, s); }
  }

  /** One more byte of the reply, or of its overwritten beginning, is in place. */
  lemma PongByteHas(c: Config, s: State)
    requires Inv(c, s) && Enabled(c, s, PongByte)
    ensures ClientHas(c, Exec(c, s, PongByte))
  {
    hide Ping, Dumped, Final, Zeros, Reply, ServerHas, ServerView, PingsReady, Consumed;
    var a, p := s.pong.arrived, s.pong.pos;
    FinalAt(c, a, s.early, p);
    if WasReset(s) { OneMore(At(s.cBuf, a), Final(c, a, s.early), p); }
  }

  lemma OneMore(a: Bytes, b: Bytes, k: nat)
    requires k < |a| == |b| && (k > 0 ==> Agree(a, b, k))
    ensures Agree(a[k := b[k]], b, k + 1)
    ensures k + 1 == |a| ==> a[k := b[k]] == b
  {
    assert a[k := b[k]][..k] == a[..k];
    assert a[k := b[k]][..k + 1] == a[..k] + [b[k]];
    assert b[..k + 1] == b[..k] + [b[k]];
  }

  lemma PongByteServer(c: Config, s: State)
    requires Inv(c, s) && Enabled(c, s, PongByte)
    ensures ServerHas(c, Exec(c, s, PongByte))
  {
    hide ClientHas, ClientView, ServerView, PingsReady, Consumed, WireIs, Ping, Reply;
  }

  lemma PongByteKeeps(c: Config, s: State)
    requires Inv(c, s) && Enabled(c, s, PongByte)
    ensures Inv(c, Exec(c, s, PongByte))
  {
    hide Ping, Dumped, Final, Zeros, Reply, ServerHas, ClientHas, Agree, Shapes, PutByte, NextByte;
    PongByteHas(c, s);
    assert ServerHas(c, Exec(c, s, PongByte)) by { PongByteServer(c, s); }
  }


  lemma StepKeepsInv(c: Config, s: State, step: Step)
    requires Inv(c, s) && Enabled(c, s, step)
    ensures Inv(c, Exec(c, s, step))
  {
    hide Inv, Enabled, Exec;
    match step
    case ClientFill => ClientFillKeeps(c, s);
    case ClientPoll => ClientPollKeeps(c, s);
    case ClientReset => ClientResetKeeps(c, s);
    case ClientRepost => ClientRepostKeeps(c, s);
    case ServerPrepare => ServerPrepareKeeps(c, s);
    case ServerPost => ServerPostKeeps(c, s);
    case ServerPoll => ServerPollKeeps(c, s);
    case ServerReply => ServerReplyKeeps(c, s);
    case PingTransmit => PingTransmitKeeps(c, s);
    case PingByte => PingByteKeeps(c, s);
    case PingAck => PingAckKeeps(c, s);
    case PongTransmit => PongTransmitKeeps(c, s);
    case PongByte => PongByteKeeps(c, s);
    case PongAck => PongAckKeeps(c, s);
    case PongRefused => PongRefusedKeeps(c, s);
  }

  lemma InitInv(c: Config, s: State)
    requires Init(c, s)
    ensures Inv(c, s)
  {
    hide Ping, Dumped, Final;
  }

  lemma {:induction false} RunKeepsInv(c: Config, run: seq<State>, i: nat)
    requires Run(c, run) && i < |run|
    ensures Inv(c, run[i])
  {
    hide Inv, Init, Exec, Enabled;
    if i == 0 {
      InitInv(c, run[0]);
    } else {
      RunKeepsInv(c, run, i - 1);
      assert Next(c, run[i - 1], run[i - 1 + 1]);
      StepOf(c, run[i - 1], run[i]);
    }
  }

  lemma StepOf(c: Config, s: State, t: State)
    requires Inv(c, s) && Next(c, s, t)
    ensures Inv(c, t)
  {
    assert c.Valid();
    hide Inv, Exec, Enabled;
    var step :| Enabled(c, s, step) && t == Exec(c, s, step);
    StepKeepsInv(c, s, step);
  }

  // ---------- what the run achieves ----------

  /** At the end of every complete run, whatever the interleaving and however early the
      reply: buffer `i` of the client holds the `i`-th ping as the server dumped it,
      but for the `early` first bytes of buffer 0. */
  lemma FinalBuffers(c: Config, run: seq<State>, k: nat, i: nat)
    requires Run(c, run) && k < |run| && run[k].client.ClientDone? && i < c.n
    ensures i < |run[k].cBuf| && run[k].cBuf[i] == Final(c, i, run[k].early)
  {
    hide Ping, Dumped, Final;
    RunKeepsInv(c, run, k);
    assert At(run[k].cBuf, i) == Final(c, i, run[k].early);
  }

  ghost predicate Echoed(c: Config, bufs: seq<Bytes>)
    requires c.Valid()
  {
    |bufs| == c.n && forall i :: 0 <= i < c.n ==> bufs[i] == Reply(c, i)
  }

  /** A client that ends holds the server's replies exactly if no byte of the reply reached
      its memory before the reset. */
  lemma EchoedIffNotEarly(c: Config, run: seq<State>, k: nat)
    requires Run(c, run) && k < |run| && run[k].client.ClientDone?
    ensures Echoed(c, run[k].cBuf) <==> run[k].early == 0
  {
    hide Ping, Dumped, Inv, Run;
    var s := run[k];
    RunKeepsInv(c, run, k);
    assert |s.cBuf| == c.n && s.early < c.len && c.Valid() by { Basics(c, s); }
    FinalBuffers(c, run, k, 0);
    if s.early > 0 {
      assert s.cBuf[0][0] == 0;
      FirstReplyByte(c);
    } else {
      forall i | 0 <= i < c.n
        ensures s.cBuf[i] == Reply(c, i)
      {
        FinalBuffers(c, run, k, i);
      }
    }
  }

  lemma Basics(c: Config, s: State)
    requires Inv(c, s)
    ensures c.Valid() && |s.cBuf| == c.n && s.early <= c.Last()
  {
  }

  lemma FirstReplyByte(c: Config)
    requires c.Valid() && c.len > 1
    ensures Reply(c, 0)[0] == CHAR_0
  {
    DumpedPingAt(0, c.len, 0);
  }

  predicate Replying(s: State) {
    s.server.ReplyPoll? || s.server.ServerDone? || s.server.ServerFailed?
  }

  /** A reply of one packet is refused whole, so none of it is ever early. */
  lemma OnePacketNeverEarly(c: Config, run: seq<State>, k: nat)
    requires Run(c, run) && k < |run| && c.len <= c.mtu
    ensures run[k].early == 0
    ensures run[k].client.ClientDone? ==> Echoed(c, run[k].cBuf)
  {
    hide Run, Inv, Echoed;
    RunKeepsInv(c, run, k);
    Basics(c, run[k]);
    if run[k].client.ClientDone? { EchoedIffNotEarly(c, run, k); }
  }

  /** The server replies only once the client was reset. */
  ghost predicate ReplyWaits(run: seq<State>) {
    forall i :: 0 <= i < |run| && Replying(run[i]) ==> WasReset(run[i])
  }

  lemma {:induction false} NotEarly(c: Config, run: seq<State>, k: nat)
    requires Run(c, run) && ReplyWaits(run) && k < |run|
    ensures run[k].early == 0
  {
    hide Inv, Init, Exec, Enabled;
    if k == 0 {
      assert run[0].early == 0 by { InitNotEarly(c, run[0]); }
    } else {
      NotEarly(c, run, k - 1);
      RunKeepsInv(c, run, k - 1);
      assert Next(c, run[k - 1], run[k - 1 + 1]);
      EarlyStep(c, run[k - 1], run[k]);
    }
  }

  lemma InitNotEarly(c: Config, s: State)
    requires Init(c, s)
    ensures s.early == 0
  {
  }

  /** Bytes can only be early if the server was replying when the reset began. */
  lemma EarlyStep(c: Config, s: State, t: State)
    requires Inv(c, s) && Next(c, s, t) && s.early == 0
    requires Replying(s) ==> WasReset(s)
    ensures t.early == 0
  {
    hide Ping, Dumped, ServerHas, ClientHas, WireIs, PingsReady, Consumed;
    assert FlowOk(c, s.pong) && ServerView(c, s);
  }

  /** With the wait, every complete run ends in the echo: byte for byte the ping but
      for the cut at 16 in long messages. */
  lemma EchoWhenReplyWaits(c: Config, run: seq<State>, k: nat, i: nat, j: nat)
    requires Run(c, run) && ReplyWaits(run) && k < |run| && run[k].client.ClientDone?
    requires i < c.n && j < c.len
    ensures Echoed(c, run[k].cBuf)
    ensures |run[k].cBuf| == c.n && |run[k].cBuf[i]| == c.len
    ensures c.len > 1 ==>
              run[k].cBuf[i][j] == if c.len > 32 && j == 16 then 0 else Ping(i, c.len)[j]
  {
    hide Run, Inv;
    NotEarly(c, run, k);
    EchoedIffNotEarly(c, run, k);
    assert c.Valid() by { RunValid(c, run); }
    DumpedPingAt(i, c.len, j);
  }

  lemma RunValid(c: Config, run: seq<State>)
    requires Run(c, run)
    ensures c.Valid()
  {
  }

  /** Both phases share one completion queue, yet the first takes exactly the send
      completions and the second exactly the receive completions, in order. */
  lemma PhasesDoNotMix(c: Config, run: seq<State>, k: nat)
    requires Run(c, run) && k < |run|
    ensures forall i :: 0 <= i < |run[k].gotSend| ==> run[k].gotSend[i] == SendDone(i)
    ensures forall i :: 0 <= i < |run[k].gotRecv| ==> run[k].gotRecv[i] == RecvDone(i)
    ensures run[k].gotRecv != [] ==> |run[k].gotSend| == c.n
    ensures run[k].client.ClientDone? ==> |run[k].gotSend| == |run[k].gotRecv| == c.n
  {
    RunKeepsInv(c, run, k);
    hide Ping, Dumped, ServerHas, ClientHas, WireIs, PingsReady;
  }

  /** Requests the client posted that have no completion yet. */
  function Outstanding(s: State): int {
    (s.ping.posted - s.ping.acked) + (s.pong.recvs - s.pong.arrived)
  }

  /** Outstanding requests and unread completions together never exceed what one
      phase posts: a queue of `n` entries is never overrun, and neither is a ring. */
  lemma CqNeverOverrun(c: Config, run: seq<State>, k: nat)
    requires Run(c, run) && k < |run|
    ensures 0 <= Outstanding(run[k])
    ensures Outstanding(run[k]) + |run[k].cCq| <= c.n
    ensures (run[k].pong.posted - run[k].pong.acked) + (run[k].ping.recvs - run[k].ping.arrived) + |run[k].sCq| <= c.n
  {
    RunKeepsInv(c, run, k);
    hide Ping, Dumped, ServerHas, ClientHas, WireIs, PingsReady, Consumed;
  }

  // ---------- the run ends ----------

  /** Bytes of a direction still to deliver. */
  function BytesLeft(c: Config, f: Flow): int { (c.n - f.arrived) * c.len - f.pos }

  function FlowLeft(c: Config, f: Flow): int {
    (c.n - f.sent) + (c.n - f.acked) + BytesLeft(c, f)
  }

  function ClientLeft(c: Config, s: State): int {
    match s.client
    case Fill => 4 * c.n + 1 - s.cNum
    case SendPoll => 3 * c.n + 1 - s.cNum
    case Reset => 2 * c.n + 1 - s.cNum
    case Repost => c.n + 1
    case RecvPoll => c.n - s.cNum
    case ClientDone => 0
  }

  function ServerLeft(c: Config, s: State): int {
    match s.server
    case Prepare => 3 * c.n + 2 - s.sNum
    case PostRecv => 2 * c.n + 2
    case PingPoll => 2 * c.n + 1 - s.sNum
    case Sleep => c.n + 1
    case ReplyPoll | ServerFailed => c.n - s.sNum
    case ServerDone => 0
  }

  function StepsLeft(c: Config, s: State): int {
    ClientLeft(c, s) + ServerLeft(c, s) + FlowLeft(c, s.ping) + FlowLeft(c, s.pong) + (RNR_RETRY + 1 - s.refused)
  }

  lemma NextMessage(n: int, a: int, len: int)
    ensures (n - (a + 1)) * len == (n - a) * len - len
  {
  }

  lemma BytesLeftNat(c: Config, f: Flow)
    requires FlowOk(c, f)
    ensures BytesLeft(c, f) >= 0
  {
    hide FlowOk;
    assert f.arrived <= f.sent <= c.n && |f.wire| == f.sent - f.arrived && f.pos < c.len
        && (f.pos > 0 ==> f.wire != []) by {
      FlowBounds(c, f);
    }
    if f.pos > 0 { Bits.MulLe(1, c.n - f.arrived, c.len); } else { Bits.MulLe(0, c.n - f.arrived, c.len); }
  }

  lemma FlowBounds(c: Config, f: Flow)
    requires FlowOk(c, f)
    ensures f.arrived <= f.sent <= c.n && |f.wire| == f.sent - f.arrived
    ensures f.acked <= c.n && f.pos < c.len && (f.pos > 0 ==> f.wire != [])
  {
  }

  lemma DeliverLeft(c: Config, f: Flow)
    requires f.wire != []
    ensures FlowLeft(c, Deliver(f, c.len)) == FlowLeft(c, f) - 1
  {
    NextMessage(c.n, f.arrived, c.len);
  }

  /** What is left depends only on these. */
  lemma SameFlowLeft(c: Config, f: Flow, g: Flow)
    requires f.arrived == g.arrived && f.pos == g.pos
    ensures FlowLeft(c, f) + f.sent + f.acked == FlowLeft(c, g) + g.sent + g.acked
  {
  }

  lemma LeftNat(c: Config, s: State)
    requires Inv(c, s)
    ensures StepsLeft(c, s) >= 0
  {
    assert FlowOk(c, s.ping) && FlowOk(c, s.pong) && ClientLeft(c, s) >= 0 && ServerLeft(c, s) >= 0;
    hide Inv, FlowOk, BytesLeft, ClientLeft, ServerLeft;
    BytesLeftNat(c, s.ping);
    BytesLeftNat(c, s.pong);
    FlowBounds(c, s.ping);
    FlowBounds(c, s.pong);
  }

  predicate ByProgram(step: Step) {
    match step
    case ClientFill | ClientPoll | ClientReset | ClientRepost => true
    case ServerPrepare | ServerPost | ServerPoll | ServerReply => true
    case _ => false
  }

  /** The programs only post; what is transmitted and delivered is the devices' doing. */
  lemma ProgramFlows(c: Config, s: State, step: Step)
    requires c.Valid() && Enabled(c, s, step) && ByProgram(step)
    ensures var t := Exec(c, s, step);
            && FlowLeft(c, t.ping) == FlowLeft(c, s.ping) && FlowLeft(c, t.pong) == FlowLeft(c, s.pong)
            && t.refused == s.refused
  {
    hide FlowLeft, Put, DumpBuf;
    var t := Exec(c, s, step);
    SameFlowLeft(c, s.ping, t.ping);
    SameFlowLeft(c, s.pong, t.pong);
  }

  lemma ClientStepLeft(c: Config, s: State, step: Step)
    requires c.Valid() && ClientView(c, s) && Enabled(c, s, step)
    requires step.ClientFill? || step.ClientPoll? || step.ClientReset? || step.ClientRepost?
    ensures var t := Exec(c, s, step);
            ClientLeft(c, t) == ClientLeft(c, s) - 1 && t.server == s.server && t.sNum == s.sNum
  {
    hide Ping, Dumped, Zeros, Put, DumpBuf, CqIs, At;
  }

  lemma ServerStepLeft(c: Config, s: State, step: Step)
    requires c.Valid() && ServerView(c, s) && Enabled(c, s, step)
    requires step.ServerPrepare? || step.ServerPost? || step.ServerPoll? || step.ServerReply?
    ensures var t := Exec(c, s, step);
            ServerLeft(c, t) == ServerLeft(c, s) - 1 && t.client == s.client && t.cNum == s.cNum
  {
    hide Ping, Dumped, Zeros, Put, DumpBuf, CqIs, At;
  }

  lemma ProgramStep(c: Config, s: State, step: Step)
    requires Inv(c, s) && Enabled(c, s, step) && ByProgram(step)
    ensures var t := Exec(c, s, step);
            ClientLeft(c, t) + ServerLeft(c, t) == ClientLeft(c, s) + ServerLeft(c, s) - 1
  {
    assert c.Valid() && ClientView(c, s) && ServerView(c, s);
    hide Inv, Enabled, Exec, ClientView, ServerView;
    if step.ClientFill? || step.ClientPoll? || step.ClientReset? || step.ClientRepost? {
      ClientStepLeft(c, s, step);
    } else {
      ServerStepLeft(c, s, step);
    }
  }

  lemma DeviceStep(c: Config, s: State, step: Step)
    requires Inv(c, s) && Enabled(c, s, step) && !ByProgram(step)
    ensures var t := Exec(c, s, step);
            && ClientLeft(c, t) == ClientLeft(c, s) && ServerLeft(c, t) == ServerLeft(c, s)
            && FlowLeft(c, t.ping) + FlowLeft(c, t.pong) - t.refused ==
               FlowLeft(c, s.ping) + FlowLeft(c, s.pong) - s.refused - 1
  {
    assert c.Valid();
    hide Inv, FlowLeft, PutByte, NextByte, Deliver, Arrival, At;
    var t := Exec(c, s, step);
    if step.PingByte? {
      DeliverLeft(c, s.ping);
    } else if step.PongByte? {
      DeliverLeft(c, s.pong);
    } else {
      SameFlowLeft(c, s.ping, t.ping);
      SameFlowLeft(c, s.pong, t.pong);
    }
  }

  /** Every step brings the end nearer by one. */
  lemma StepDecreases(c: Config, s: State, step: Step)
    requires Inv(c, s) && Enabled(c, s, step)
    ensures StepsLeft(c, Exec(c, s, step)) == StepsLeft(c, s) - 1 >= 0
  {
    assert c.Valid();
    hide Inv, Enabled, Exec, ClientLeft, ServerLeft, FlowLeft;
    StepKeepsInv(c, s, step);
    LeftNat(c, Exec(c, s, step));
    if ByProgram(step) {
      ProgramFlows(c, s, step);
      ProgramStep(c, s, step);
    } else {
      DeviceStep(c, s, step);
    }
  }

  /** So every run is finite: polling an empty queue is the only waiting there is. */
  lemma {:induction false} RunIsBounded(c: Config, run: seq<State>, k: nat)
    requires Run(c, run) && k < |run|
    ensures StepsLeft(c, run[k]) == 11 * c.n + 7 + 2 * (c.n * c.len) - k >= 0
  {
    hide Inv, Init, Exec, Enabled, StepsLeft;
    RunKeepsInv(c, run, k);
    LeftNat(c, run[k]);
    if k == 0 {
      InitLeft(c, run[0]);
    } else {
      RunIsBounded(c, run, k - 1);
      RunKeepsInv(c, run, k - 1);
      assert Next(c, run[k - 1], run[k - 1 + 1]);
      NextDecreases(c, run[k - 1], run[k]);
    }
  }

  lemma InitLeft(c: Config, s: State)
    requires Init(c, s)
    ensures StepsLeft(c, s) == 11 * c.n + 7 + 2 * (c.n * c.len)
  {
    assert BytesLeft(c, s.ping) == c.n * c.len && BytesLeft(c, s.pong) == c.n * c.len;
  }

  lemma NextDecreases(c: Config, s: State, t: State)
    requires Inv(c, s) && Next(c, s, t)
    ensures StepsLeft(c, t) == StepsLeft(c, s) - 1
  {
    assert c.Valid();
    hide Inv, Exec, Enabled, StepsLeft;
    var step :| Enabled(c, s, step) && t == Exec(c, s, step);
    StepDecreases(c, s, step);
  }

  /** The step some party can take when not both programs are done. */
  function SomeStep(s: State): Step {
    if s.client.Fill? then ClientFill
    else if s.client.Reset? then ClientReset
    else if s.client.Repost? then ClientRepost
    else if s.server.Prepare? then ServerPrepare
    else if s.server.PostRecv? then ServerPost
    else if s.client.SendPoll? then
      if s.cCq != [] then ClientPoll
      else if s.ping.acked < s.ping.arrived then PingAck
      else if s.ping.wire != [] then PingByte
      else PingTransmit
    else if s.server.Sleep? then ServerReply
    else if s.server.PingPoll? then ServerPoll
    else if s.server.ReplyPoll? then
      if s.sCq != [] then ServerPoll
      else if s.pong.acked < s.pong.arrived then PongAck
      else if s.pong.wire != [] then PongByte
      else PongTransmit
    else ClientPoll
  }

  /** No deadlock: until both programs are done or the server gave up, something can
      happen. */
  lemma NeverStuck(c: Config, s: State)
    requires Inv(c, s) && !(s.client.ClientDone? && s.server.ServerDone?) && !s.server.ServerFailed?
    ensures Enabled(c, s, SomeStep(s))
  {
    hide Ping, Dumped, Final, ServerHas, ClientHas, WireIs, PingsReady, Consumed;
  }

  /** A run that cannot go on is complete on both sides, or the server ran out of retries
      and the client waits for replies for ever. */
  lemma StuckMeansDone(c: Config, run: seq<State>, k: nat)
    requires Run(c, run) && k < |run|
    requires forall step :: !Enabled(c, run[k], step)
    ensures (run[k].client.ClientDone? && run[k].server.ServerDone?)
            || (run[k].server.ServerFailed? && run[k].client.RecvPoll?)
    ensures run[k].server.ServerFailed? <==> run[k].refused == 4
  {
    var s := run[k];
    RunKeepsInv(c, run, k);
    assert Refusals(s);
    if s.server.ServerFailed? {
      FailedGoesOn(c, s);
    } else if !(s.client.ClientDone? && s.server.ServerDone?) {
      NeverStuck(c, s);
    }
  }

  /** When the server gave up, the client still goes on to wait for the replies. */
  lemma FailedGoesOn(c: Config, s: State)
    requires Inv(c, s) && s.server.ServerFailed?
    ensures s.client.RecvPoll? || Enabled(c, s, SomeStep(s))
  {
    hide Ping, Dumped, Final, ServerHas, ClientHas, WireIs, PingsReady, Consumed;
  }

  /** The server replies only once the client reposted: what `sleep(2)` means to give. */
  ghost predicate ReplyWaitsForRepost(run: seq<State>) {
    forall i :: 0 <= i < |run| && Replying(run[i]) ==> run[i].client.RecvPoll? || run[i].client.ClientDone?
  }

  /** With that wait no reply is ever refused or held up for want of a receive. */
  lemma {:induction false} WaitMeansNoRefusal(c: Config, run: seq<State>, k: nat)
    requires Run(c, run) && ReplyWaitsForRepost(run) && k < |run|
    ensures run[k].refused == 0 && !run[k].server.ServerFailed?
    ensures run[k].pong.wire != [] ==> Enabled(c, run[k], PongByte)
    ensures !Enabled(c, run[k], PongRefused)
  {
    hide Inv, Init, Exec, Enabled;
    RunKeepsInv(c, run, k);
    if k == 0 {
      assert run[0].refused == 0 by { InitNotRefused(c, run[0]); }
    } else {
      WaitMeansNoRefusal(c, run, k - 1);
      assert Next(c, run[k - 1], run[k - 1 + 1]);
      NotRefusedStep(c, run[k - 1], run[k]);
    }
    ReceivesReady(c, run[k]);
  }

  lemma InitNotRefused(c: Config, s: State)
    requires Init(c, s)
    ensures s.refused == 0
  {
  }

  lemma NotRefusedStep(c: Config, s: State, t: State)
    requires c.Valid() && Next(c, s, t) && s.refused == 0 && !Enabled(c, s, PongRefused)
    ensures t.refused == 0
  {
    hide Ping, Dumped, Zeros, Put, PutByte, DumpBuf, Transmit, Deliver, Arrival, NextByte;
  }

  lemma ReceivesReady(c: Config, s: State)
    requires Inv(c, s) && s.refused == 0
    requires Replying(s) ==> s.client.RecvPoll? || s.client.ClientDone?
    ensures !s.server.ServerFailed?
    ensures s.pong.wire != [] ==> Enabled(c, s, PongByte)
    ensures !Enabled(c, s, PongRefused)
  {
    hide Ping, Dumped, Final, ServerHas, ClientHas, WireIs, PingsReady, Consumed;
  }

  /** So a run with that wait that cannot go on is complete on both sides, and the client
      holds the replies. */
  lemma WaitMeansEcho(c: Config, run: seq<State>, k: nat)
    requires Run(c, run) && ReplyWaitsForRepost(run) && k < |run|
    requires forall step :: !Enabled(c, run[k], step)
    ensures run[k].client.ClientDone? && run[k].server.ServerDone?
    ensures Echoed(c, run[k].cBuf)
  {
    assert ReplyWaits(run);
    hide Run, Inv, Enabled, ReplyWaits;
    WaitMeansNoRefusal(c, run, k);
    StuckMeansDone(c, run, k);
    NotEarly(c, run, k);
    EchoedIffNotEarly(c, run, k);
  }
}
