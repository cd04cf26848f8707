/** A run in which the server waits as `sleep(2)` intends, and which is complete. */
module PatientReply {
  import opened PingPong

  /** A server that replies has waited for the client to repost. */
  ghost predicate Waited(s: State) {
    Replying(s) ==> s.client.RecvPoll? || s.client.ClientDone?
  }

  lemma ClientFirst(c: Config, s: State)
    requires Inv(c, s) && Waited(s) && !s.server.ServerFailed? && !(s.client.ClientDone? && s.server.ServerDone?)
    ensures Enabled(c, s, SomeStep(s))
    ensures var t := Exec(c, s, SomeStep(s)); Waited(t) && !t.server.ServerFailed?
  {
    assert c.Valid();
    hide Inv, Enabled, Exec, SomeStep, Waited;
    NeverStuck(c, s);
    StillWaited(c, s);
  }

  lemma StillWaited(c: Config, s: State)
    requires c.Valid() && Enabled(c, s, SomeStep(s)) && Waited(s) && !s.server.ServerFailed?
    ensures var t := Exec(c, s, SomeStep(s)); Waited(t) && !t.server.ServerFailed?
  {
    hide Put, PutByte, DumpBuf, At, NextByte, Deliver, Arrival, Transmit;
  }

  /** A run so far in which every reply waited. */
  ghost predicate Patient(c: Config, run: seq<State>) {
    Run(c, run) && ReplyWaitsForRepost(run) && !run[|run| - 1].server.ServerFailed?
  }

  lemma Extend(c: Config, run: seq<State>)
    requires Patient(c, run)
    requires !(run[|run| - 1].client.ClientDone? && run[|run| - 1].server.ServerDone?)
    ensures var s := run[|run| - 1];
            && Inv(c, s) && Enabled(c, s, SomeStep(s))
            && StepsLeft(c, Exec(c, s, SomeStep(s))) == StepsLeft(c, s) - 1 >= 0
            && Patient(c, run + [Exec(c, s, SomeStep(s))])
  {
    var s := run[|run| - 1];
    RunKeepsInv(c, run, |run| - 1);
    assert Waited(s);
    hide Inv, Init, SomeStep, StepsLeft, Enabled, Exec;
    ClientFirst(c, s);
    StepDecreases(c, s, SomeStep(s));
    var t := Exec(c, s, SomeStep(s));
    var longer := run + [t];
    assert Next(c, s, t);
    forall i | 0 <= i < |longer| - 1
      ensures Next(c, longer[i], longer[i + 1])
    {
      if i + 1 < |run| { assert Next(c, run[i], run[i + 1]); }
    }
    assert Run(c, longer);
  }

  lemma {:induction false} Finish(c: Config, run: seq<State>) returns (longer: seq<State>)
    requires Patient(c, run) && StepsLeft(c, run[|run| - 1]) >= 0
    ensures Patient(c, longer) && longer[0] == run[0]
    ensures longer[|longer| - 1].client.ClientDone? && longer[|longer| - 1].server.ServerDone?
    decreases StepsLeft(c, run[|run| - 1])
  {
    var s := run[|run| - 1];
    if s.client.ClientDone? && s.server.ServerDone? {
      longer := run;
    } else {
      hide Inv, SomeStep, StepsLeft, Enabled, Exec, Run, ReplyWaitsForRepost;
      Extend(c, run);
      assert (run + [Exec(c, s, SomeStep(s))])[0] == run[0];
      longer := Finish(c, run + [Exec(c, s, SomeStep(s))]);
    }
  }

  lemma Begin(c: Config, s: State)
    requires Init(c, s)
    ensures Patient(c, [s]) && Inv(c, s)
  {
    InitInv(c, s);
    assert Run(c, [s]) && [s][|[s]| - 1] == s;
  }

  /** From every initial state there is a run in which every reply waits until the client
      reposted; both programs end, and the client holds the replies. */
  lemma PatientRunExists(c: Config, s: State) returns (run: seq<State>)
    requires Init(c, s)
    ensures Run(c, run) && run[0] == s && ReplyWaitsForRepost(run)
    ensures var t := run[|run| - 1]; t.client.ClientDone? && t.server.ServerDone? && Echoed(c, t.cBuf)
  {
    Begin(c, s);
    hide Init, Inv;
    LeftNat(c, s);
    run := Finish(c, [s]);
    assert ReplyWaits(run);
    NotEarly(c, run, |run| - 1);
    EchoedIffNotEarly(c, run, |run| - 1);
  }
}
