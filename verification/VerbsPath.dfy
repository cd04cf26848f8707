/** The verbs side of pp_verb.c: linked work requests and the polling loop. */
module VerbsPath {
  import opened Buffers
  import opened Wrappers

  const WR_RDMA_WRITE_WITH_IMM := 1
  const SEND_SIGNALED := 2
  const IMM_BASE := 0x1020_3040

  datatype Sge = Sge(addr: nat, length: nat, lkey: nat)

  /** `next` and `sg` are indices into the arrays the pointers point into. */
  datatype RecvWr = RecvWr(wrId: nat, next: Option<nat>, sg: nat, numSge: nat)

  datatype SendWr = SendWr(wrId: nat, next: Option<nat>, sg: nat, numSge: nat, imm: nat, opcode: nat, flags: nat,
                           remoteAddr: nat, rkey: nat)

  /** A registered buffer: address and key. */
  datatype Mr = Mr(addr: nat, lkey: nat)

  datatype Peer = Peer(addr: seq<nat>, mrkey: seq<nat>)

  function NextOf(i: nat, n: nat): Option<nat> {
    if i + 1 < n then Some(i + 1) else None
  }

  /** Whatever way requests are made, a receive request names its own buffer. */
  ghost predicate RecvReady(w: RecvWr, g: Sge, mrs: seq<Mr>, len: nat, n: nat, i: nat, wrId: nat)
    requires i < |mrs|
  {
    && w.wrId == (wrId + i) % 0x1_0000_0000_0000_0000 && w.next == NextOf(i, n)
    && w.sg == i && w.numSge == 1 && g.addr == mrs[i].addr && g.length == len % 0x1_0000_0000 && g.lkey == mrs[i].lkey
  }

  ghost predicate SendReady(w: SendWr, g: Sge, mrs: seq<Mr>, peer: Peer, len: nat, n: nat, i: nat, wrId: nat,
                            opcode: nat)
    requires i < |mrs| && i < |peer.addr| && i < |peer.mrkey|
  {
    && w.wrId == (wrId + i) % 0x1_0000_0000_0000_0000 && w.next == NextOf(i, n)
    && w.sg == i && w.numSge == 1 && g.addr == mrs[i].addr && g.length == len % 0x1_0000_0000 && g.lkey == mrs[i].lkey
    && w.imm == (0x1020_3040 + i) % 0x1_0000_0000 && w.opcode == opcode && w.flags == 2
    && (opcode == 1 ==> w.remoteAddr == peer.addr[i] && w.rkey == peer.mrkey[i])
  }

  /** `prepare_recv_wr_verb`: clear the buffers and link the requests. */
  method PrepareRecv(bufs: seq<array<nat>>, mrs: seq<Mr>, len: nat, wrr: array<RecvWr>, sgs: array<Sge>, n: nat,
                     wrId: nat)
    requires n <= |bufs| && n <= |mrs| && n <= wrr.Length && n <= sgs.Length
    requires forall i :: 0 <= i < |bufs| ==> bufs[i].Length == len
    requires forall i, j :: 0 <= i < j < |bufs| ==> bufs[i] != bufs[j]
    modifies bufs, wrr, sgs
    ensures forall i :: 0 <= i < n ==> bufs[i][..] == Zeros(len) && RecvReady(wrr[i], sgs[i], mrs, len, n, i, wrId)
  {
    hide Zeros;
    var i := 0;
    while i < n
      invariant 0 <= i <= n
      invariant forall j :: 0 <= j < i ==> bufs[j][..] == Zeros(len)
      invariant forall j :: 0 <= j < i ==> RecvReady(wrr[j], sgs[j], mrs, len, n, j, wrId)
    {
      Clear(bufs[i]);
      sgs[i] := Sge(mrs[i].addr, len % 0x1_0000_0000, mrs[i].lkey);
      var next := None;
      if i < n - 1 {
        next := Some(i + 1);
      }
      wrr[i] := RecvWr((wrId + i) % 0x1_0000_0000_0000_0000, next, i, 1);
      i := i + 1;
    }
  }

  /** `prepare_send_wr_verb`. With `initBuf` unset the buffers keep what they hold: the
      server echoes them. */
  method PrepareSend(bufs: seq<array<nat>>, mrs: seq<Mr>, len: nat, wrs: array<SendWr>, sgs: array<Sge>, peer: Peer,
                     n: nat, wrId: nat, opcode: nat, initBuf: bool)
    requires n <= |bufs| && n <= |mrs| && n <= wrs.Length && n <= sgs.Length && n <= |peer.addr| && n <= |peer.mrkey|
    requires len > 0 && forall i :: 0 <= i < |bufs| ==> bufs[i].Length == len
    requires forall i, j :: 0 <= i < j < |bufs| ==> bufs[i] != bufs[j]
    modifies bufs, wrs, sgs
    ensures forall i :: 0 <= i < n ==> SendReady(wrs[i], sgs[i], mrs, peer, len, n, i, wrId, opcode)
    ensures !initBuf ==> forall i :: 0 <= i < |bufs| ==> bufs[i][..] == old(bufs[i][..])
    ensures initBuf ==> forall i :: 0 <= i < n ==> bufs[i][..] == MemStringOf(len)[0 := i % 16 + CHAR_0]
  {
    hide MemStringOf;
    var i := 0;
    while i < n
      invariant 0 <= i <= n
      invariant !initBuf ==> forall j :: 0 <= j < |bufs| ==> bufs[j][..] == old(bufs[j][..])
      invariant initBuf ==> forall j :: 0 <= j < i ==> bufs[j][..] == MemStringOf(len)[0 := j % 16 + CHAR_0]
      invariant forall j :: 0 <= j < i ==> SendReady(wrs[j], sgs[j], mrs, peer, len, n, j, wrId, opcode)
    {
      if initBuf {
        MemString(bufs[i]);
        bufs[i][0] := i % 16 + CHAR_0;
      }
      sgs[i] := Sge(mrs[i].addr, len % 0x1_0000_0000, mrs[i].lkey);
      var next := None;
      if i < n - 1 {
        next := Some(i + 1);
      }
      var w := wrs[i].(wrId := (wrId + i) % 0x1_0000_0000_0000_0000, next := next, sg := i, numSge := 1,
                       imm := (IMM_BASE + i) % 0x1_0000_0000, opcode := opcode, flags := SEND_SIGNALED);
      if opcode == WR_RDMA_WRITE_WITH_IMM {
        w := w.(remoteAddr := peer.addr[i], rkey := peer.mrkey[i]);
      }
      wrs[i] := w;
      i := i + 1;
    }
  }

  // ---------- following the links ----------

  /** What a provider visits that follows `next` from `at`, within `fuel` steps. */
  function Walk(next: seq<Option<nat>>, at: nat, fuel: nat): Option<seq<nat>>
    decreases fuel
  {
    if fuel == 0 || at >= |next| then None
    else match next[at]
      case None => Some([at])
      case Some(to) =>
        match Walk(next, to, fuel - 1)
        case None => None
        case Some(rest) => Some([at] + rest)
  }

  function FromTo(a: nat, b: nat): seq<nat>
    requires a <= b
  {
    seq(b - a, i => a + i)
  }

  /** Following `next` from the first request visits every request once, in order, and
      ends. */
  lemma {:induction false} WalkVisitsAll(next: seq<Option<nat>>, n: nat, at: nat, fuel: nat)
    requires n <= |next| && at < n && fuel >= n - at
    requires forall i :: 0 <= i < n ==> next[i] == NextOf(i, n)
    ensures Walk(next, at, fuel) == Some(FromTo(at, n))
    decreases n - at
  {
    assert next[at] == NextOf(at, n);
    if at + 1 < n {
      WalkVisitsAll(next, n, at + 1, fuel - 1);
      assert [at] + FromTo(at + 1, n) == FromTo(at, n);
    } else {
      assert FromTo(at, n) == [at];
    }
  }

  // ---------- polling ----------

  /** What happens to the completion queue before a call of `ibv_poll_cq`: completions
      arrive (true for success), or the call fails. */
  datatype Offer = Fault | Arrive(wcs: seq<bool>)

  function Min(a: nat, b: nat): (m: nat)
    ensures m <= a && m <= b
  {
    if a < b then a else b
  }

  predicate Good(w: seq<bool>, take: nat)
    requires take <= |w|
  {
    forall i :: 0 <= i < take ==> w[i]
  }

  /** `Some` is what `poll_cq_verb` returns; `None`: it still polls when the offers end. */
  function PollResult(offers: seq<Offer>, n: nat, got: nat): Option<int>
    requires got <= n
  {
    if offers == [] then None
    else match offers[0]
      case Fault => Some(-1)
      case Arrive(w) =>
        var take := Min(|w|, n - got);
        if !Good(w, take) then Some(-1)
        else if take > 0 && got + take == n then Some(0)
        else PollResult(offers[1..], n, got + take)
  }

  /** All completions that arrived, in order. */
  function Arrived(offers: seq<Offer>): seq<bool> {
    if offers == [] then []
    else (match offers[0] case Fault => [] case Arrive(w) => w) + Arrived(offers[1..])
  }

  ghost predicate NoFault(offers: seq<Offer>) {
    forall i :: 0 <= i < |offers| ==> offers[i].Arrive?
  }

  ghost predicate Successful(s: seq<bool>, n: nat) {
    n <= |s| && forall i :: 0 <= i < n ==> s[i]
  }

  /** After `t` offers without a fault, the first `n` completions are all successes. */
  ghost predicate AllIn(offers: seq<Offer>, t: nat, n: nat) {
    t <= |offers| && NoFault(offers[..t]) && Successful(Arrived(offers[..t]), n)
  }

  /** `poll_cq_verb` returns 0 exactly when the first `n` completions are successes and
      arrive before any fault; for `n` of 0 it never does. */
  lemma ZeroIffAllSucceed(offers: seq<Offer>, n: nat)
    ensures PollResult(offers, n, 0) == Some(0) <==> n > 0 && exists t: nat :: AllIn(offers, t, n)
  {
    if PollResult(offers, n, 0) == Some(0) {
      var t := ZeroMeansIn(offers, n, 0);
    }
    if n > 0 && exists t: nat :: AllIn(offers, t, n) {
      var t: nat :| AllIn(offers, t, n);
      InMeansZero(offers, t, n, 0);
    }
  }

  /** A poll for 0 requests returns only when the library call fails. */
  lemma {:induction false} ZeroPollsForEver(offers: seq<Offer>)
    ensures PollResult(offers, 0, 0) == if NoFault(offers) then None else Some(-1)
    decreases |offers|
  {
    if offers != [] && offers[0].Arrive? {
      ZeroPollsForEver(offers[1..]);
      assert NoFault(offers) <==> NoFault(offers[1..]) by {
        if NoFault(offers[1..]) {
          assert forall i :: 0 < i < |offers| ==> offers[i] == offers[1..][i - 1];
        }
      }
    }
  }

  /** It polls on exactly while no call fails, no completion is an error, and fewer than
      `n` came, or none was asked for. With the two lemmas above this says which of its
      results a poll has. */
  lemma {:induction false} PollsOn(offers: seq<Offer>, n: nat, got: nat)
    requires got < n || got == n == 0
    ensures PollResult(offers, n, got) in {None, Some(0), Some(-1)}
    ensures PollResult(offers, n, got) == None <==>
              && NoFault(offers)
              && (n > 0 ==> got + |Arrived(offers)| < n && Successful(Arrived(offers), |Arrived(offers)|))
    decreases |offers|
  {
    if offers != [] && offers[0].Arrive? {
      var w := offers[0].wcs;
      var take := Min(|w|, n - got);
      FirstOffer(offers);
      assert offers[0..] == offers;
      ResultStep(offers, n, got, 0);
      hide PollResult, NoFault, Arrived, Successful;
      if take == 0 || got + take < n {
        PollsOn(offers[1..], n, got + take);
      }
    }
  }

  lemma FirstOffer(offers: seq<Offer>)
    requires offers != [] && offers[0].Arrive?
    ensures var w, rest := offers[0].wcs, Arrived(offers[1..]);
            && Arrived(offers) == w + rest
            && (Successful(w + rest, |w + rest|) <==> Good(w, |w|) && Successful(rest, |rest|))
    ensures NoFault(offers) <==> NoFault(offers[1..])
  {
    GoodJoin(offers[0].wcs, Arrived(offers[1..]));
    hide Successful, Good;
    assert forall i :: 0 < i < |offers| ==> offers[i] == offers[1..][i - 1];
  }

  lemma GoodJoin(a: seq<bool>, b: seq<bool>)
    ensures Successful(a + b, |a + b|) <==> Good(a, |a|) && Successful(b, |b|)
  {
    assert forall i :: 0 <= i < |a| ==> (a + b)[i] == a[i];
    assert forall i :: 0 <= i < |b| ==> (a + b)[|a| + i] == b[i];
  }

  lemma ArrivedStep(offers: seq<Offer>, t: nat)
    requires 0 < t <= |offers|
    ensures offers[..t][0] == offers[0] && offers[..t][1..] == offers[1..][..t - 1]
  {
  }

  lemma {:induction false} ZeroMeansIn(offers: seq<Offer>, n: nat, got: nat) returns (t: nat)
    requires got <= n && PollResult(offers, n, got) == Some(0)
    ensures got < n && AllIn(offers, t, n - got)
    decreases |offers|
  {
    var w := offers[0].wcs;
    var take := Min(|w|, n - got);
    if take > 0 && got + take == n {
      t := 1;
      assert offers[..1][1..] == [];
      assert Arrived(offers[..1]) == w + Arrived([]);
    } else {
      var u := ZeroMeansIn(offers[1..], n, got + take);
      t := u + 1;
      ArrivedStep(offers, t);
      assert Arrived(offers[..t]) == w + Arrived(offers[1..][..u]);
      assert forall i :: 0 <= i < t ==> offers[..t][i] == (if i == 0 then offers[0] else offers[1..][..u][i - 1]);
    }
  }

  lemma {:induction false} InMeansZero(offers: seq<Offer>, t: nat, n: nat, got: nat)
    requires got < n && AllIn(offers, t, n - got)
    ensures PollResult(offers, n, got) == Some(0)
    decreases |offers|
  {
    assert t > 0;
    ArrivedStep(offers, t);
    assert offers[..t][0].Arrive?;
    var w := offers[0].wcs;
    var take := Min(|w|, n - got);
    var rest := Arrived(offers[1..][..t - 1]);
    assert Arrived(offers[..t]) == w + rest;
    assert forall i :: 0 <= i < take ==> w[i] == (w + rest)[i];
    if got + take < n {
      assert forall i :: 0 <= i < |rest| ==> rest[i] == (w + rest)[|w| + i];
      var tail := offers[1..][..t - 1];
      forall i | 0 <= i < |tail|
        ensures tail[i].Arrive?
      {
        assert offers[..t][i + 1].Arrive?;
      }
      InMeansZero(offers[1..], t - 1, n, got + take);
    }
  }

  function Sum(s: seq<nat>): nat {
    if s == [] then 0 else Sum(s[..|s| - 1]) + s[|s| - 1]
  }

  /** Call `k` of `ibv_poll_cq` asked for what was left after the earlier ones, and got
      no more. The last call may have failed. */
  ghost predicate AsksForRest(asks: seq<nat>, takes: seq<nat>, n: nat) {
    && |takes| <= |asks| <= |takes| + 1
    && (forall k :: 0 <= k < |asks| ==> asks[k] + Sum(takes[..k]) == n)
    && (forall k :: 0 <= k < |takes| ==> takes[k] <= asks[k])
  }

  lemma AskStep(asks: seq<nat>, takes: seq<nat>, n: nat, got: nat)
    requires |asks| == |takes| && AsksForRest(asks, takes, n) && Sum(takes) == got <= n
    ensures AsksForRest(asks + [n - got], takes, n)
  {
    hide Sum;
    var a := asks + [n - got];
    forall k | 0 <= k < |a|
      ensures a[k] + Sum(takes[..k]) == n
    {
      if k == |asks| { assert takes[..k] == takes; }
    }
  }

  lemma SumStep(takes: seq<nat>, take: nat)
    ensures Sum(takes + [take]) == Sum(takes) + take
  {
    assert (takes + [take])[..|takes|] == takes;
  }

  lemma TakeStep(asks: seq<nat>, takes: seq<nat>, n: nat, take: nat)
    requires |asks| == |takes| + 1 && AsksForRest(asks, takes, n) && take <= asks[|takes|]
    ensures AsksForRest(asks, takes + [take], n)
  {
    hide Sum;
    var t := takes + [take];
    forall k | 0 <= k < |asks|
      ensures asks[k] + Sum(t[..k]) == n
    {
      assert t[..k] == takes[..k];
    }
  }

  lemma ResultStep(offers: seq<Offer>, n: nat, got: nat, t: nat)
    requires got <= n && t < |offers|
    ensures PollResult(offers[t..], n, got) ==
            match offers[t]
            case Fault => Some(-1)
            case Arrive(w) =>
              var take := Min(|w|, n - got);
              if !Good(w, take) then Some(-1)
              else if take > 0 && got + take == n then Some(0)
              else PollResult(offers[t + 1..], n, got + take)
  {
    assert offers[t..][0] == offers[t] && offers[t..][1..] == offers[t + 1..];
  }

  lemma ResultEnd(offers: seq<Offer>, n: nat, got: nat)
    requires got <= n
    ensures PollResult(offers[|offers|..], n, got) == None
  {
  }

  ghost function Contents(bufs: seq<array<nat>>): (r: seq<Bytes>)
    reads bufs
    ensures |r| == |bufs| && forall i :: 0 <= i < |bufs| ==> r[i] == bufs[i][..]
  {
    if bufs == [] then [] else [bufs[0][..]] + Contents(bufs[1..])
  }

  /** The buffers of `was` with the first `k` dumped. */
  ghost predicate DumpedUpto(bufs: seq<array<nat>>, was: seq<Bytes>, k: nat)
    reads bufs
  {
    && |was| == |bufs|
    && forall i :: 0 <= i < |bufs| ==>
         |was[i]| > 0 && bufs[i][..] == if i < k then Dumped(was[i]) else was[i]
  }

  /** Distinct buffers, none empty. */
  ghost predicate Distinct(bufs: seq<array<nat>>) {
    && (forall i :: 0 <= i < |bufs| ==> bufs[i].Length > 0)
    && forall i, j :: 0 <= i < j < |bufs| ==> bufs[i] != bufs[j]
  }

  /** One batch of a receiving phase: the next `cqn` buffers are dumped in order. */
  method DumpBatch(bufs: seq<array<nat>>, got: nat, cqn: nat, ghost was: seq<Bytes>)
    requires got + cqn <= |bufs| && Distinct(bufs) && DumpedUpto(bufs, was, got)
    modifies bufs
    ensures DumpedUpto(bufs, was, got + cqn)
  {
    hide Dumped;
    var i := 0;
    while i < cqn
      invariant 0 <= i <= cqn && DumpedUpto(bufs, was, got + i)
    {
      DumpMsgShort(bufs[got + i]);
      i := i + 1;
    }
  }

  /** The status check over a batch. */
  method AllSucceeded(wcs: seq<bool>, cqn: nat) returns (ok: bool)
    requires cqn <= |wcs|
    ensures ok == Good(wcs, cqn)
  {
    var i := 0;
    while i < cqn
      invariant 0 <= i <= cqn
      invariant forall j :: 0 <= j < i ==> wcs[j]
    {
      if !wcs[i] {
        return false;
      }
      i := i + 1;
    }
    ok := true;
  }

  /** How many buffers are dumped once `got` completions are in. */
  function Dumps(forRecv: bool, got: nat): nat {
    if forRecv then got else 0
  }

  /** One call of `ibv_poll_cq`, which returns at most what it is asked for, and what the
      loop does with the result. */
  method PollCall(bufs: seq<array<nat>>, n: nat, forRecv: bool, offer: Offer, got: nat, ghost was: seq<Bytes>)
    returns (failed: bool, cqn: nat)
    requires got <= n <= |bufs| && Distinct(bufs) && DumpedUpto(bufs, was, Dumps(forRecv, got))
    modifies bufs
    ensures failed <==> offer.Fault? || !Good(offer.wcs, Min(|offer.wcs|, n - got))
    ensures cqn == if failed then 0 else Min(|offer.wcs|, n - got)
    ensures DumpedUpto(bufs, was, Dumps(forRecv, got + cqn))
  {
    hide Distinct, Good, DumpedUpto;
    failed, cqn := true, 0;
    if offer.Fault? {
      return;
    }
    var k := Min(|offer.wcs|, n - got);
    var ok := AllSucceeded(offer.wcs, k);
    if !ok {
      return;
    }
    if forRecv {
      DumpBatch(bufs, got, k, was);
    }
    failed, cqn := false, k;
  }

  /** The record of a loop that made `t` calls and has `got` completions. */
  ghost predicate Polling(offers: seq<Offer>, n: nat, got: nat, t: nat, asks: seq<nat>, takes: seq<nat>) {
    && got <= n && t <= |offers| && |asks| == |takes|
    && PollResult(offers, n, 0) == PollResult(offers[t..], n, got)
    && AsksForRest(asks, takes, n) && Sum(takes) == got
  }

  /** The record of a loop that ended. */
  ghost predicate Polled(offers: seq<Offer>, n: nat, got: nat, asks: seq<nat>, takes: seq<nat>, ret: Option<int>) {
    && ret == PollResult(offers, n, 0) && AsksForRest(asks, takes, n) && Sum(takes) == got <= n
    && (ret == Some(0) ==> got == n)
  }

  lemma PollBegins(offers: seq<Offer>, n: nat)
    ensures Polling(offers, n, 0, 0, [], [])
  {
    assert offers[0..] == offers;
  }

  lemma PollEnds(offers: seq<Offer>, n: nat, got: nat, asks: seq<nat>, takes: seq<nat>)
    requires Polling(offers, n, got, |offers|, asks, takes)
    ensures Polled(offers, n, got, asks, takes, None)
  {
    hide AsksForRest, Sum;
    ResultEnd(offers, n, got);
  }

  lemma PollAdvances(offers: seq<Offer>, n: nat, got: nat, t: nat, asks: seq<nat>, takes: seq<nat>)
    requires Polling(offers, n, got, t, asks, takes) && t < |offers|
    ensures var a := asks + [n - got];
            if offers[t].Fault? || !Good(offers[t].wcs, Min(|offers[t].wcs|, n - got))
            then Polled(offers, n, got, a, takes, Some(-1))
            else
              var k := Min(|offers[t].wcs|, n - got);
              if k > 0 && got + k >= n then Polled(offers, n, got + k, a, takes + [k], Some(0))
              else Polling(offers, n, got + k, t + 1, a, takes + [k])
  {
    hide AsksForRest, Sum, PollResult, Good, Min;
    AskStep(asks, takes, n, got);
    ResultStep(offers, n, got, t);
    if offers[t].Arrive? {
      var k := Min(|offers[t].wcs|, n - got);
      SumStep(takes, k);
      TakeStep(asks + [n - got], takes, n, k);
    }
  }

  /** One round of the loop: it goes on, or it ends with a result. */
  method PollRound(bufs: seq<array<nat>>, n: nat, forRecv: bool, offers: seq<Offer>, t: nat, got: nat,
                   ghost was: seq<Bytes>, ghost asks: seq<nat>, ghost takes: seq<nat>)
    returns (more: bool, ret: Option<int>, now: nat, ghost asked: seq<nat>, ghost took: seq<nat>)
    requires n <= |bufs| && Distinct(bufs) && Polling(offers, n, got, t, asks, takes)
    requires got <= n && t < |offers| && DumpedUpto(bufs, was, Dumps(forRecv, got))
    modifies bufs
    ensures now <= n && DumpedUpto(bufs, was, Dumps(forRecv, now))
    ensures if more then Polling(offers, n, now, t + 1, asked, took) else Polled(offers, n, now, asked, took, ret)
  {
    hide *;
    PollAdvances(offers, n, got, t, asks, takes);
    asked, took := asks + [n - got], takes;
    var failed, cqn := PollCall(bufs, n, forRecv, offers[t], got, was);
    if failed {
      return false, Some(-1), got, asked, took;
    }
    took := takes + [cqn];
    more := !(cqn > 0 && got + cqn >= n);
    ret, now := Some(0), got + cqn;
  }

  /** The loop of `poll_cq_verb`. */
  method PollLoop(bufs: seq<array<nat>>, n: nat, forRecv: bool, offers: seq<Offer>)
    returns (ret: Option<int>, ghost all: nat, ghost asks: seq<nat>, ghost takes: seq<nat>)
    requires n <= |bufs| && Distinct(bufs)
    modifies bufs
    ensures Polled(offers, n, all, asks, takes, ret)
    ensures DumpedUpto(bufs, old(Contents(bufs)), Dumps(forRecv, all))
  {
    ghost var was := Contents(bufs);
    assert DumpedUpto(bufs, was, Dumps(forRecv, 0));
    hide *;
    asks, takes, ret := [], [], None;
    var more, got: nat, t: nat := true, 0, 0;
    PollBegins(offers, n);
    while more && t < |offers|
      invariant got <= n && t <= |offers| && DumpedUpto(bufs, was, Dumps(forRecv, got))
      invariant if more then Polling(offers, n, got, t, asks, takes) else Polled(offers, n, got, asks, takes, ret)
      decreases |offers| - t
    {
      more, ret, got, asks, takes := PollRound(bufs, n, forRecv, offers, t, got, was, asks, takes);
      t := t + 1;
    }
    all := got;
    if more {
      PollEnds(offers, n, got, asks, takes);
      ret := None;
    }
  }

  /** `poll_cq_verb`. Each call of the library asks for exactly what is left; a batch is
      dumped only if all of it succeeded; the dumps are of buffers 0, 1, .. once each. */
  method PollCq(bufs: seq<array<nat>>, n: nat, forRecv: bool, offers: seq<Offer>)
    returns (ret: Option<int>, ghost asks: seq<nat>, ghost takes: seq<nat>)
    requires n <= |bufs| && Distinct(bufs)
    modifies bufs
    ensures ret == PollResult(offers, n, 0)
    ensures AsksForRest(asks, takes, n) && Sum(takes) <= n
    ensures ret == Some(0) ==> Sum(takes) == n
    ensures forRecv ==>
              forall i :: 0 <= i < |bufs| ==>
                bufs[i].Length > 0
                && bufs[i][..] == if i < Sum(takes) then Dumped(old(bufs[i][..])) else old(bufs[i][..])
    ensures forRecv && ret == Some(0) ==>
              forall i :: 0 <= i < n ==> bufs[i].Length > 0 && bufs[i][..] == Dumped(old(bufs[i][..]))
    ensures !forRecv ==> forall i :: 0 <= i < |bufs| ==> bufs[i][..] == old(bufs[i][..])
  {
    assert forall i :: 0 <= i < |bufs| ==> bufs[i].Length > 0;
    ghost var got;
    ret, got, asks, takes := PollLoop(bufs, n, forRecv, offers);
    hide PollResult, AsksForRest, Sum, Dumped;
  }
}
