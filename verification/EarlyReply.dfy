/** What `sleep(2)` must prevent can happen: a byte of the reply before the client's
    reset, if replies have more than one packet, and a server that runs out of retries,
    for replies of any length. Both runs let the server go ahead while the client has yet
    to see its first send complete. */
module EarlyReply {
  import opened Buffers
  import opened PingPong

  ghost predicate Reachable(c: Config, s: State) {
    exists run :: Run(c, run) && run[|run| - 1] == s
  }

  lemma Reach(c: Config, s: State, step: Step)
    requires Reachable(c, s) && c.Valid() && Enabled(c, s, step)
    ensures Reachable(c, Exec(c, s, step))
  {
    hide Init, Enabled, Exec;
    var run :| Run(c, run) && run[|run| - 1] == s;
    var t := Exec(c, s, step);
    var longer := run + [t];
    assert Next(c, s, t);
    forall i | 0 <= i < |longer| - 1
      ensures Next(c, longer[i], longer[i + 1])
    {
      if i + 1 < |run| { assert Next(c, run[i], run[i + 1]); }
    }
    assert Run(c, longer);
  }

  lemma ReachableInv(c: Config, s: State)
    requires Reachable(c, s)
    ensures Inv(c, s)
  {
    hide Inv, Init, Next;
    var run :| Run(c, run) && run[|run| - 1] == s;
    RunKeepsInv(c, run, |run| - 1);
  }

  lemma Begin(c: Config) returns (s: State)
    requires c.Valid()
    ensures Reachable(c, s) && Init(c, s)
  {
    var bufs := seq(c.n, i => Zeros(c.len));
    s := State(Fill, 0, bufs, [], Prepare, 0, bufs, [], QUIET, QUIET, [], [], 0, 0);
    assert Run(c, [s]) && [s][|[s]| - 1] == s;
  }

  /** The client has seen no completion, and at most `goal` bytes of the first reply have
      arrived. */
  ghost predicate Ahead(c: Config, s: State, goal: nat) {
    && c.Valid() && Reachable(c, s) && goal <= c.Last()
    && (s.client.Fill? || (s.client.SendPoll? && s.cNum == 0))
    && !s.server.ServerDone? && !s.server.ServerFailed?
    && s.early == 0 && s.refused == 0 && s.cCq == [] && s.ping.acked == 0
    && s.pong.arrived == 0 && s.pong.acked == 0 && s.pong.pos <= goal
  }

  ghost predicate There(s: State, goal: nat) {
    s.client.SendPoll? && s.server.ReplyPoll? && s.pong.wire != [] && s.pong.pos == goal
  }

  /** The server's side goes ahead. */
  function ServerFirst(s: State): Step {
    if s.client.Fill? then ClientFill
    else match s.server
      case Prepare => ServerPrepare
      case PostRecv => ServerPost
      case PingPoll => if s.sCq != [] then ServerPoll else if s.ping.wire != [] then PingByte else PingTransmit
      case Sleep => ServerReply
      case _ => if s.pong.wire != [] then PongByte else PongTransmit
  }

  lemma ServerFirstEnabled(c: Config, s: State, goal: nat)
    requires Ahead(c, s, goal) && Inv(c, s) && !There(s, goal)
    ensures Enabled(c, s, ServerFirst(s))
  {
    hide Ping, Dumped, Final, ServerHas, ClientHas, WireIs, PingsReady, Consumed, Reachable;
  }

  lemma ServerFirstKeeps(c: Config, s: State, goal: nat)
    requires Ahead(c, s, goal) && Inv(c, s) && !There(s, goal) && Enabled(c, s, ServerFirst(s))
    requires Reachable(c, Exec(c, s, ServerFirst(s)))
    ensures Ahead(c, Exec(c, s, ServerFirst(s)), goal)
  {
    hide Ping, Dumped, Final, ServerHas, ClientHas, WireIs, PingsReady, Consumed, Reachable;
    hide Put, PutByte, DumpBuf, At, NextByte, CqIs;
  }

  lemma {:induction false} GoAhead(c: Config, s: State, goal: nat) returns (t: State)
    requires Ahead(c, s, goal) && Inv(c, s) && StepsLeft(c, s) >= 0
    ensures Ahead(c, t, goal) && There(t, goal)
    decreases StepsLeft(c, s)
  {
    if There(s, goal) {
      return s;
    }
    assert c.Valid() && Reachable(c, s);
    hide Ahead, There, Reachable, Inv, Enabled, Exec, ServerFirst, StepsLeft;
    ServerFirstEnabled(c, s, goal);
    Reach(c, s, ServerFirst(s));
    StepKeepsInv(c, s, ServerFirst(s));
    StepDecreases(c, s, ServerFirst(s));
    ServerFirstKeeps(c, s, goal);
    t := GoAhead(c, Exec(c, s, ServerFirst(s)), goal);
  }

  lemma ReplyAhead(c: Config, goal: nat) returns (s: State)
    requires c.Valid() && goal <= c.Last()
    ensures Ahead(c, s, goal) && There(s, goal) && Inv(c, s)
  {
    var s0 := Begin(c);
    assert Ahead(c, s0, goal);
    hide Ahead, There, Inv, Init;
    InitInv(c, s0);
    LeftNat(c, s0);
    s := GoAhead(c, s0, goal);
    assert Reachable(c, s) by { AheadReachable(c, s, goal); }
    ReachableInv(c, s);
  }

  lemma AheadReachable(c: Config, s: State, goal: nat)
    requires Ahead(c, s, goal)
    ensures Reachable(c, s)
  {
  }

  // ---------- a byte before the reset ----------

  /** A reply byte is in the client's memory, and the client is on its way to the reset. */
  ghost predicate Doomed(c: Config, s: State) {
    && Reachable(c, s) && Inv(c, s) && s.pong.pos > 0 && s.server.ReplyPoll?
    && (s.client.SendPoll? || (s.client.Reset? && s.cNum == 0))
  }

  function AckOrPoll(s: State): Step {
    if s.cCq != [] then ClientPoll else PingAck
  }

  lemma AckOrPollEnabled(c: Config, s: State)
    requires Inv(c, s) && s.client.SendPoll? && s.server.ReplyPoll?
    ensures Enabled(c, s, AckOrPoll(s))
  {
    hide Ping, Dumped, Final, ServerHas, ClientHas, WireIs, PingsReady, Consumed;
  }

  lemma AckOrPollStays(c: Config, s: State)
    requires c.Valid() && s.client.SendPoll? && Enabled(c, s, AckOrPoll(s))
    ensures var t := Exec(c, s, AckOrPoll(s));
            t.pong == s.pong && t.server == s.server && (t.client.SendPoll? || (t.client.Reset? && t.cNum == 0))
  {
    hide DumpBuf;
  }

  lemma {:induction false} UntilReset(c: Config, s: State) returns (t: State)
    requires Doomed(c, s) && StepsLeft(c, s) >= 0
    ensures Reachable(c, t) && t.early > 0
    decreases StepsLeft(c, s)
  {
    assert c.Valid();
    hide Reachable, Inv, StepsLeft;
    if s.client.SendPoll? {
      hide Exec, Enabled, AckOrPoll;
      AckOrPollEnabled(c, s);
      AckOrPollStays(c, s);
      Reach(c, s, AckOrPoll(s));
      StepKeepsInv(c, s, AckOrPoll(s));
      StepDecreases(c, s, AckOrPoll(s));
      t := UntilReset(c, Exec(c, s, AckOrPoll(s)));
    } else {
      Reach(c, s, ClientReset);
      t := Exec(c, s, ClientReset);
    }
  }

  /** Nothing but time stands against an early byte exactly when a reply has more than one
      packet, for any number of messages. */
  lemma EarlyIsPossibleIff(c: Config)
    requires c.Valid()
    ensures (exists s :: Reachable(c, s) && s.early > 0) <==> c.len > c.mtu
  {
    if c.len > c.mtu {
      var s := ReplyAhead(c, 1);
      assert Doomed(c, s);
      LeftNat(c, s);
      var t := UntilReset(c, s);
    } else {
      forall s | Reachable(c, s)
        ensures s.early == 0
      {
        ReachableInv(c, s);
        Basics(c, s);
      }
    }
  }

  // ---------- a server that gives up ----------

  lemma {:induction false} RefuseAll(c: Config, s: State) returns (t: State)
    requires c.Valid() && Reachable(c, s) && Inv(c, s) && Enabled(c, s, PongRefused) && s.refused <= RNR_RETRY
    ensures Reachable(c, t) && t.server.ServerFailed?
    decreases RNR_RETRY - s.refused
  {
    hide Reachable, Inv;
    Reach(c, s, PongRefused);
    StepKeepsInv(c, s, PongRefused);
    var u := Exec(c, s, PongRefused);
    if s.refused < RNR_RETRY {
      t := RefuseAll(c, u);
    } else {
      t := u;
    }
  }

  /** For messages of any number and length the server can run out of retries: the last
      packet waits for a receive the client has not posted. */
  lemma FailureIsPossible(c: Config)
    requires c.Valid()
    ensures exists s :: Reachable(c, s) && s.server.ServerFailed?
  {
    var s := ReplyAhead(c, c.Last());
    LastByteRefused(c, s);
    hide Ahead, There, Inv, Reachable, Enabled;
    AheadReachable(c, s, c.Last());
    var t := RefuseAll(c, s);
  }

  lemma LastByteRefused(c: Config, s: State)
    requires c.Valid() && Ahead(c, s, c.Last()) && There(s, c.Last()) && Inv(c, s)
    ensures c.Valid() && Enabled(c, s, PongRefused) && s.refused == 0
  {
    hide Ping, Dumped, Final, ServerHas, ClientHas, WireIs, PingsReady, Consumed, Reachable;
  }
}
