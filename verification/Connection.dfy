/** Bringing two queue pairs to RTS with what the exchange told them. */
module Connection {
  import opened Bits
  import opened Exchange

  const SERVER_PSN := 0x1000
  const CLIENT_PSN := 0x8000

  /** The states of section 10.3.1 of the InfiniBand Architecture Specification
      Volume 1 that the programs use. */
  datatype QpState = Reset | Init | Rtr | Rts

  datatype Path = NoPath | ByGid(gid: seq<nat>) | ByLid(lid: nat)

  datatype Command =
    | RstToInit
    | InitToRtr(remoteQpn: nat, rcvPsn: nat, path: Path)
    | RtrToRts(sndPsn: nat)

  predicate Legal(a: QpState, b: QpState) {
    (a.Reset? && b.Init?) || (a.Init? && b.Rtr?) || (a.Rtr? && b.Rts?)
  }

  ghost predicate LegalPath(visited: seq<QpState>) {
    visited != [] && visited[0] == Reset && forall i :: 0 <= i < |visited| - 1 ==> Legal(visited[i], visited[i + 1])
  }

  lemma PathStep(visited: seq<QpState>, next: QpState)
    requires LegalPath(visited) && Legal(visited[|visited| - 1], next)
    ensures LegalPath(visited + [next])
  {
    var v := visited + [next];
    forall i | 0 <= i < |v| - 1
      ensures Legal(v[i], v[i + 1])
    {
      if i + 1 < |visited| { assert Legal(visited[i], visited[i + 1]); }
    }
  }

  function From(cmd: Command): QpState {
    match cmd
    case RstToInit => Reset
    case InitToRtr(_, _, _) => Init
    case RtrToRts(_) => Rtr
  }

  function To(cmd: Command): QpState {
    match cmd
    case RstToInit => Init
    case InitToRtr(_, _, _) => Rtr
    case RtrToRts(_) => Rts
  }

  /** A queue pair as the device keeps it. Its numbers are 24-bit fields. */
  class Qp {
    const qpn: nat
    var state: QpState
    var remoteQpn: nat
    var nextRcvPsn: nat
    var nextSendPsn: nat
    var path: Path
    ghost var visited: seq<QpState>

    ghost predicate Valid()
      reads this
    {
      LegalPath(visited) && visited[|visited| - 1] == state
    }

    constructor (qpn: nat)
      ensures Valid() && state == Reset && visited == [Reset] && this.qpn == qpn
    {
      this.qpn := qpn;
      state, remoteQpn, nextRcvPsn, nextSendPsn, path, visited := Reset, 0, 0, 0, NoPath, [Reset];
    }

    /** The device carries out a command, unless it or the transport reports an error;
        from another state it always does. */
    method Modify(cmd: Command, result: int) returns (ret: int)
      requires Valid()
      modifies this
      ensures Valid()
      ensures result == 0 && old(state) == From(cmd) ==> ret == 0
      ensures ret != 0 ==> unchanged(this)
      ensures result != 0 ==> ret == result
      ensures ret == 0 ==>
                && old(state) == From(cmd) && visited == old(visited) + [state]
                && remoteQpn == (if cmd.InitToRtr? then Wrap(24, cmd.remoteQpn) else old(remoteQpn))
                && nextRcvPsn == (if cmd.InitToRtr? then Wrap(24, cmd.rcvPsn) else old(nextRcvPsn))
                && path == (if cmd.InitToRtr? then cmd.path else old(path))
                && nextSendPsn == (if cmd.RtrToRts? then Wrap(24, cmd.sndPsn) else old(nextSendPsn))
                && state == To(cmd)
    {
      assert visited != [];
      hide Wrap, LegalPath;
      if result != 0 {
        return result;
      }
      if state != From(cmd) {
        return -1;
      }
      ghost var was := visited;
      match cmd {
        case RstToInit => state := Init;
        case InitToRtr(q, p, a) =>
          state, remoteQpn, nextRcvPsn, path := Rtr, Wrap(24, q), Wrap(24, p), a;
        case RtrToRts(p) => state, nextSendPsn := Rts, Wrap(24, p);
      }
      PathStep(was, state);
      visited := was + [state];
      ret := 0;
    }
  }

  /** The address of the peer as decoded; a lid goes into a 16-bit field. */
  function PathTo(ethernet: bool, peer: Local): Path {
    if ethernet then ByGid(peer.gid) else ByLid(Wrap(16, peer.lid))
  }

  lemma PathIs(ethernet: bool, peer: Local)
    ensures ethernet ==> PathTo(ethernet, peer) == ByGid(peer.gid)
    ensures !ethernet ==> PathTo(ethernet, peer) == ByLid(peer.lid % 0x1_0000)
  {
    hide Pow2;
    Pow2Values();
  }

  lemma FieldsAre(a: nat, b: nat, c: nat)
    ensures Wrap(24, a) == a % 0x100_0000 && Wrap(24, b) == b % 0x100_0000 && Wrap(24, c) == c % 0x100_0000
  {
    hide Pow2;
    Pow2Values();
  }

  /** `r` is the first of the results that is an error, and `done` commands came
      before it. */
  predicate FirstError(results: seq<int>, ret: int, done: nat) {
    && done <= |results|
    && (forall i :: 0 <= i < done ==> results[i] == 0)
    && if done < |results| then ret == results[done] != 0 else ret == 0
  }

  /** `pp_move2rts_dv`: three commands, and on an error none after it. */
  method MoveToRtsDv(qp: Qp, ethernet: bool, sndPsn: nat, peer: Local, results: seq<int>)
    returns (ret: int, ghost done: nat)
    requires qp.Valid() && qp.state == Reset && |results| == 3
    modifies qp
    ensures qp.Valid() && FirstError(results, ret, done)
    ensures qp.visited == old(qp.visited) + [Init, Rtr, Rts][..done]
    ensures done >= 2 ==>
              && qp.remoteQpn == peer.qpn % 0x100_0000 && qp.nextRcvPsn == peer.psn % 0x100_0000
              && (ethernet ==> qp.path == ByGid(peer.gid))
              && (!ethernet ==> qp.path == ByLid(peer.lid % 0x1_0000))
    ensures ret == 0 ==> qp.state == Rts && qp.nextSendPsn == sndPsn % 0x100_0000
  {
    hide Pow2, Wrap, LegalPath, Legal, PathTo;
    PathIs(ethernet, peer);
    FieldsAre(peer.qpn, peer.psn, sndPsn);
    done := 0;
    ret := qp.Modify(RstToInit, results[0]);
    if ret != 0 {
      return;
    }
    done := 1;
    ret := qp.Modify(InitToRtr(peer.qpn, peer.psn, PathTo(ethernet, peer)), results[1]);
    if ret != 0 {
      return;
    }
    done := 2;
    ret := qp.Modify(RtrToRts(sndPsn), results[2]);
    if ret == 0 {
      done := 3;
    }
  }

  /** `pp_create_cq_qp_verb` takes its queue pair to INIT already. */
  method CreateInInit(qpn: nat, result: int) returns (qp: Qp, ret: int)
    ensures fresh(qp) && qp.Valid() && qp.qpn == qpn && ret == result
    ensures ret == 0 ==> qp.state == Init && qp.visited == [Reset, Init]
    ensures ret != 0 ==> qp.state == Reset && qp.visited == [Reset]
  {
    qp := new Qp(qpn);
    ret := qp.Modify(RstToInit, result);
  }

  /** `pp_move2rts_verb`. */
  method MoveToRtsVerb(qp: Qp, ethernet: bool, sndPsn: nat, peer: Local, results: seq<int>)
    returns (ret: int, ghost done: nat)
    requires qp.Valid() && qp.state == Init && |results| == 2
    modifies qp
    ensures qp.Valid() && FirstError(results, ret, done)
    ensures qp.visited == old(qp.visited) + [Rtr, Rts][..done]
    ensures done >= 1 ==>
              && qp.remoteQpn == peer.qpn % 0x100_0000 && qp.nextRcvPsn == peer.psn % 0x100_0000
              && (ethernet ==> qp.path == ByGid(peer.gid))
              && (!ethernet ==> qp.path == ByLid(peer.lid % 0x1_0000))
    ensures ret == 0 ==> qp.state == Rts && qp.nextSendPsn == sndPsn % 0x100_0000
  {
    hide Pow2, Wrap, LegalPath, Legal, PathTo;
    PathIs(ethernet, peer);
    FieldsAre(peer.qpn, peer.psn, sndPsn);
    done := 0;
    ret := qp.Modify(InitToRtr(peer.qpn, peer.psn, PathTo(ethernet, peer)), results[0]);
    if ret != 0 {
      return;
    }
    done := 1;
    ret := qp.Modify(RtrToRts(sndPsn), results[1]);
    if ret == 0 {
      done := 2;
    }
  }

  /** Each side expects the packets the other sends, and names the other. */
  ghost predicate CrossMatched(a: Qp, b: Qp)
    reads a, b
  {
    && a.state == b.state == Rts
    && a.nextSendPsn == b.nextRcvPsn && b.nextSendPsn == a.nextRcvPsn
    && a.remoteQpn == b.qpn && b.remoteQpn == a.qpn
  }

  /** A dv client and a verbs server, on ports of one kind and hosts of any byte order:
      exchange, move, and they match. Device queue numbers have 24 bits. */
  method ConnectBoth(ec: Endian, c: Local, es: Endian, s: Local, client: Qp, server: Qp, rc: Remote, rs: Remote,
                     dvResults: seq<int>, verbResults: seq<int>)
    returns (cret: int, sret: int)
    requires c.Valid() && s.Valid() && c.ethernet == s.ethernet && |c.addr| == |s.addr|
    requires c.psn == CLIENT_PSN && s.psn == SERVER_PSN
    requires c.qpn == client.qpn < 0x100_0000 && s.qpn == server.qpn < 0x100_0000
    requires client != server && client.Valid() && server.Valid() && client.state == Reset && server.state == Init
    requires rc.addr.Length == rc.mrkey.Length == rs.addr.Length == rs.mrkey.Length == |c.addr|
    requires rc != rs && rc.addr != rc.mrkey && rs.addr != rs.mrkey && {rc.addr, rc.mrkey} !! {rs.addr, rs.mrkey}
    requires |dvResults| == 3 && |verbResults| == 2
    modifies client, server, rc, rc.addr, rc.mrkey, rs, rs.addr, rs.mrkey
    ensures client.Valid() && server.Valid()
    ensures cret == 0 <==> forall i :: 0 <= i < 3 ==> dvResults[i] == 0
    ensures sret == 0 <==> forall i :: 0 <= i < 2 ==> verbResults[i] == 0
    ensures cret == sret == 0 ==> CrossMatched(client, server)
    ensures cret == sret == 0 ==>
              && client.remoteQpn == s.qpn && client.nextRcvPsn == 0x1000 && client.nextSendPsn == 0x8000
              && server.remoteQpn == c.qpn && server.nextRcvPsn == 0x8000 && server.nextSendPsn == 0x1000
    ensures cret == sret == 0 && c.ethernet ==> client.path == ByGid(s.gid) && server.path == ByGid(c.gid)
    ensures cret == sret == 0 && !c.ethernet ==>
              client.path == ByLid(s.lid % 0x1_0000) && server.path == ByLid(c.lid % 0x1_0000)
  {
    Pow2Values();
    hide Pow2, Wrap, Encodes;
    ghost var m, n;
    var e1, e2 := ExchangeBoth(ec, c, es, s, rc, rs);
    var atClient := Local(c.ethernet, rc.qpn, rc.psn, rc.gid, rc.lid, [], []);
    var atServer := Local(s.ethernet, rs.qpn, rs.psn, rs.gid, rs.lid, [], []);
    cret, m := MoveToRtsDv(client, c.ethernet, CLIENT_PSN, atClient, dvResults);
    sret, n := MoveToRtsVerb(server, s.ethernet, SERVER_PSN, atServer, verbResults);
  }
}
