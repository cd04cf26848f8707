/** The posting protocol is safe: every step keeps the invariant, so over every run
    the device fetches exactly the WQEs posted, whole and in order. */
module RingSafety {
  import opened Bits
  import opened Wrappers
  import opened RingProtocol

  // ---------- what a posting call issues ----------

  lemma {:induction false} IssueAppend(a: seq<Instr>, b: seq<Instr>, e: nat, first: nat, count: nat, n: nat)
    requires n > 0
    ensures Issue(a + b, e, first, count, n) ==
            Issue(a, e, first, count, n) + Issue(b, e + Barriers(a), first, count, n)
    ensures Barriers(a + b) == Barriers(a) + Barriers(b)
    decreases |a|
  {
    if a == [] {
      assert a + b == b;
    } else {
      assert (a + b)[0] == a[0] && (a + b)[1..] == a[1..] + b;
      IssueAppend(a[1..], b, if a[0].Barrier? then e + 1 else e, first, count, n);
    }
  }

  ghost predicate StoresOnly(desc: seq<Instr>) {
    forall i :: 0 <= i < |desc| ==> desc[i].Store?
  }

  lemma {:induction false} IssueStores(desc: seq<Instr>, e: nat, first: nat, count: nat, n: nat)
    requires n > 0 && StoresOnly(desc)
    ensures Barriers(desc) == 0
    ensures var q := Issue(desc, e, first, count, n);
            |q| == |desc| &&
            forall i :: 0 <= i < |q| ==>
              q[i] == Pending(e, desc[i].loc, desc[i].val, TagOf(desc[i].loc, first, count, n))
    decreases |desc|
  {
    if desc != [] {
      assert desc[0].Store?;
      IssueStores(desc[1..], e, first, count, n);
    }
  }

  function Tail(e: nat, count: nat, bell: Option<nat>): seq<Pending> {
    [Pending(e + 1, DbRec, Wrap(16, count), count)] +
    (if bell.Some? then [Pending(e + 2, Uar, bell.value, count)] else [])
  }

  /** Descriptor stores in the current epoch, the record one barrier later, the
      register another barrier later. */
  lemma PostShape(desc: seq<Instr>, e: nat, first: nat, count: nat, bell: Option<nat>, n: nat)
    requires n > 0 && StoresOnly(desc)
    ensures var prog := Program(desc, count, bell);
            && Issue(prog, e, first, count, n) == Issue(desc, e, first, count, n) + Tail(e, count, bell)
            && Barriers(prog) == if bell.Some? then 2 else 1
  {
    var db := [Barrier, Store(DbRec, Wrap(16, count))];
    var ring := if bell.Some? then [Barrier, Store(Uar, bell.value)] else [];
    assert Program(desc, count, bell) == desc + (db + ring);
    IssueStores(desc, e, first, count, n);
    IssueAppend(desc, db + ring, e, first, count, n);
    IssueAppend(db, ring, e, first, count, n);
    IssueFenced(DbRec, Wrap(16, count), e, first, count, n);
    if bell.Some? { IssueFenced(Uar, bell.value, e + 1, first, count, n); }
  }

  lemma IssueFenced(l: Loc, v: nat, e: nat, first: nat, count: nat, n: nat)
    requires n > 0
    ensures Issue([Barrier, Store(l, v)], e, first, count, n) == [Pending(e + 1, l, v, TagOf(l, first, count, n))]
    ensures Barriers([Barrier, Store(l, v)]) == 1
  {
    var p, q := [Barrier, Store(l, v)], [Store(l, v)];
    assert p[1..] == q && q[1..] == [];
    assert Issue(q, e + 1, first, count, n) ==
           [Pending(e + 1, l, v, TagOf(l, first, count, n))] + Issue(q[1..], e + 1, first, count, n);
    assert Barriers(q) == 0 + Barriers(q[1..]);
  }

  /** The final value of a word after a posting call is its last descriptor store. */
  lemma PostLast(desc: seq<Instr>, e: nat, first: nat, count: nat, bell: Option<nat>, n: nat, l: Loc)
    requires n > 0 && l.Word?
    ensures LastPending(Issue(Program(desc, count, bell), e, first, count, n), l) == LastStore(desc, l)
  {
    var prog := Program(desc, count, bell);
    LastOfIssue(prog, e, first, count, n, l);
    var ring := if bell.Some? then [Barrier, Store(Uar, bell.value)] else [];
    var tail := [Barrier, Store(DbRec, Wrap(16, count))] + ring;
    assert prog == desc + tail;
    LastStoreAppend(desc, tail, l);
    TailSilent(tail, l);
  }

  lemma {:induction false} TailSilent(prog: seq<Instr>, l: Loc)
    requires forall i :: 0 <= i < |prog| ==> prog[i].Store? ==> prog[i].loc != l
    ensures LastStore(prog, l) == None
  {
    if prog != [] {
      TailSilent(prog[1..], l);
    }
  }

  // ---------- posting ----------

  ghost predicate PostPre(c: Config, s: State, step: Step) {
    Inv(c, s) && step.Post? && Enabled(c, s, step)
  }

  /** The stores a posting call adds. */
  function Added(c: Config, s: State, step: Step): seq<Pending>
    requires step.Post?
  {
    var count := |s.log| + |step.ws|;
    Issue(step.desc, s.epoch, |s.log|, count, c.N()) + Tail(s.epoch, count, step.bell)
  }

  lemma PostAdds(c: Config, s: State, step: Step)
    requires PostPre(c, s, step)
    ensures var t := Exec(c, s, step);
            && t.pending == s.pending + Added(c, s, step)
            && t.epoch == s.epoch + (if step.bell.Some? then 2 else 1)
            && t.log == s.log + step.ws && |t.log| > |s.log|
            && t.visible == s.visible
  {
    forall h | 0 <= h < |step.desc|
      ensures step.desc[h].Store?
    {
      assert DescStore(step.desc[h], |s.log|, step.ws, c.N());
    }
    PostShape(step.desc, s.epoch, |s.log|, |s.log| + |step.ws|, step.bell, c.N());
    assert step.ws != [];
  }

  /** A store added by a posting call: `d` is the number of descriptor stores. */
  ghost predicate AddedAt(p: Pending, i: nat, d: nat, e: nat, first: nat, count: nat, n: nat)
    requires n > 0
  {
    if i < d then p.epoch == e && p.loc.Word? && p.loc.slot == Slot(p.tag, n) && first <= p.tag < count
    else if i == d then p == Pending(e + 1, DbRec, Wrap(16, count), count)
    else p.epoch == e + 2 && p.loc.Uar? && p.tag == count
  }

  lemma DescIsStores(c: Config, s: State, step: Step)
    requires PostPre(c, s, step)
    ensures forall h :: 0 <= h < |step.desc| ==> step.desc[h].Store? && step.desc[h].loc.Word?
  {
    assert Describes(step.desc, |s.log|, step.ws, c.N());
    hide PostPre, IndexFrom;
    forall h | 0 <= h < |step.desc|
      ensures step.desc[h].Store? && step.desc[h].loc.Word?
    {
      assert DescStore(step.desc[h], |s.log|, step.ws, c.N());
    }
  }

  /** What a call adds: one store for each of the descriptor, then the doorbells. */
  lemma AddedParts(c: Config, s: State, step: Step)
    requires PostPre(c, s, step)
    ensures var q, d, count := Added(c, s, step), |step.desc|, |s.log| + |step.ws|;
            && |q| == d + |Tail(s.epoch, count, step.bell)| && |q| > d
            && (forall i :: 0 <= i < d ==>
                  q[i] == Pending(s.epoch, step.desc[i].loc, step.desc[i].val,
                                  TagOf(step.desc[i].loc, |s.log|, count, c.N())))
            && forall i :: d <= i < |q| ==> q[i] == Tail(s.epoch, count, step.bell)[i - d]
  {
    DescIsStores(c, s, step);
    assert StoresOnly(step.desc);
    hide PostPre, Issue, TagOf, Wrap;
    IssueStores(step.desc, s.epoch, |s.log|, |s.log| + |step.ws|, c.N());
  }

  lemma TailAt(i: nat, d: nat, e: nat, first: nat, count: nat, bell: Option<nat>, n: nat)
    requires n > 0 && d <= i < d + |Tail(e, count, bell)|
    ensures AddedAt(Tail(e, count, bell)[i - d], i, d, e, first, count, n)
  {
    hide Wrap, Slot;
  }

  lemma AddedShape(c: Config, s: State, step: Step)
    requires PostPre(c, s, step)
    ensures var q := Added(c, s, step);
            && |q| > |step.desc|
            && forall i :: 0 <= i < |q| ==>
                 AddedAt(q[i], i, |step.desc|, s.epoch, |s.log|, |s.log| + |step.ws|, c.N())
  {
    AddedParts(c, s, step);
    DescIsStores(c, s, step);
    hide PostPre, Issue, TagOf, Wrap, Tail, Added, Slot, IndexFrom;
    var n, e, first := c.N(), s.epoch, |s.log|;
    var count, d, q := first + |step.ws|, |step.desc|, Added(c, s, step);
    forall i | 0 <= i < |q|
      ensures AddedAt(q[i], i, d, e, first, count, n)
    {
      if i < d {
        NewWordOk(c, s, step, i);
      } else {
        TailAt(i, d, e, first, count, step.bell, n);
      }
    }
  }

  /** The stores in flight after a posting call, one by one. */
  lemma PostElem(c: Config, s: State, step: Step, i: nat)
    requires PostPre(c, s, step) && i < |s.pending| + |Added(c, s, step)|
    ensures var ps, a := Exec(c, s, step).pending, |s.pending|;
            && i < |ps|
            && (i < a ==> ps[i] == s.pending[i] && PendingOk(c, s, ps[i]))
            && (i >= a ==> AddedAt(ps[i], i - a, |step.desc|, s.epoch, |s.log|, |s.log| + |step.ws|, c.N()))
  {
    PostAdds(c, s, step);
    AddedShape(c, s, step);
    assert AllOk(c, s);
    hide Pow2, Wrap, Added, Inv, Enabled, Exec, AddedAt;
  }

  lemma StillOk(c: Config, s: State, t: State, p: Pending)
    requires PendingOk(c, s, p)
    requires s.epoch <= t.epoch && s.visible == t.visible && |s.log| <= |t.log|
    ensures PendingOk(c, t, p)
  {
    hide Pow2, Slot, Wrap;
  }

  lemma AddedOk(c: Config, s: State, t: State, p: Pending, i: nat, d: nat)
    requires AddedAt(p, i, d, s.epoch, |s.log|, |t.log|, c.N())
    requires t.epoch >= s.epoch + (if i > d then 2 else 1)
    requires s.visible == t.visible <= |s.log| < |t.log|
    ensures PendingOk(c, t, p)
  {
    hide Pow2, Slot, Wrap;
  }

  lemma PostAllOk(c: Config, s: State, step: Step)
    requires PostPre(c, s, step)
    ensures AllOk(c, Exec(c, s, step))
  {
    var t := Exec(c, s, step);
    PostAdds(c, s, step);
    assert s.visible <= |s.log|;
    AddedLength(c, s, step);
    forall i | 0 <= i < |t.pending|
      ensures PendingOk(c, t, t.pending[i])
    {
      PostElem(c, s, step, i);
      hide *;
      if i < |s.pending| {
        StillOk(c, s, t, t.pending[i]);
      } else {
        AddedOk(c, s, t, t.pending[i], i - |s.pending|, |step.desc|);
      }
    }
  }

  lemma AddedLength(c: Config, s: State, step: Step)
    requires PostPre(c, s, step)
    ensures |Added(c, s, step)| == |step.desc| + (if step.bell.Some? then 2 else 1)
  {
    hide PostPre, Added, Wrap, Pow2, Slot;
    AddedParts(c, s, step);
  }

  lemma PostOrders(c: Config, s: State, step: Step)
    requires PostPre(c, s, step)
    ensures var ps := Exec(c, s, step).pending; EpochsSorted(ps) && RecordsOrdered(ps) && AllBehind(ps)
  {
    var ps := Exec(c, s, step).pending;
    PostAdds(c, s, step);
    assert EpochsSorted(s.pending) && RecordsOrdered(s.pending) && AllBehind(s.pending);
    forall i, h | 0 <= i < |ps| && 0 <= h < |ps|
      ensures i < h ==> ps[i].epoch <= ps[h].epoch
      ensures i < h && ps[i].loc.DbRec? && ps[h].loc.DbRec? ==> ps[i].tag < ps[h].tag
      ensures Behind(ps[i], ps[h])
    {
      PostElem(c, s, step, i);
      PostElem(c, s, step, h);
      assert step.ws != [];
      hide Pow2, Slot, Wrap, PostPre, Exec;
      if i < |s.pending| && h < |s.pending| {
        assert Behind(s.pending[i], s.pending[h]);
      }
    }
  }

  lemma PostAnnounced(c: Config, s: State, step: Step)
    requires PostPre(c, s, step)
    ensures var t := Exec(c, s, step); BellsAnnounced(t) && Announced(t, |t.log|, t.epoch + 1)
  {
    var t := Exec(c, s, step);
    var b := |s.pending| + |step.desc|;
    PostAdds(c, s, step);
    AddedShape(c, s, step);
    PostElem(c, s, step, b);
    assert BellsAnnounced(s);
    hide Exec, Added, PostPre, Pow2, Wrap, Slot, PendingOk;
    forall i | 0 <= i < |t.pending| && t.pending[i].loc.Uar?
      ensures Announced(t, t.pending[i].tag, t.pending[i].epoch)
    {
      PostElem(c, s, step, i);
      if i < |s.pending| {
        KeepAnnounced(s, t, s.pending[i].tag, s.pending[i].epoch);
      } else {
        assert t.pending[b].tag == t.pending[i].tag && t.pending[b].epoch < t.pending[i].epoch;
      }
    }
    assert t.pending[b].loc.DbRec? && t.pending[b].tag == |t.log| && t.pending[b].epoch < t.epoch + 1;
  }

  lemma NewWordOk(c: Config, s: State, step: Step, i: nat)
    requires PostPre(c, s, step) && i < |step.desc|
    ensures var d := step.desc[i];
            && d.Store? && d.loc.Word?
            && var tag := TagOf(d.loc, |s.log|, |s.log| + |step.ws|, c.N());
               d.loc.slot == Slot(tag, c.N()) && |s.log| <= tag < |s.log| + |step.ws|
  {
    assert DescStore(step.desc[i], |s.log|, step.ws, c.N());
    SlotOfIndex(step.desc[i].loc.slot, |s.log|, c.N());
  }

  lemma KeepAnnounced(s: State, t: State, tag: nat, epoch: nat)
    requires Announced(s, tag, epoch) && s.visible <= t.visible && s.pending <= t.pending
    ensures Announced(t, tag, epoch)
  {
    if tag > s.visible {
      var h :| 0 <= h < |s.pending| && s.pending[h].loc.DbRec? && s.pending[h].tag == tag && s.pending[h].epoch < epoch;
      assert t.pending[h] == s.pending[h];
    }
  }

  /** A posting call settles the words it describes and no others. */
  lemma PostEventually(c: Config, s: State, step: Step, l: Loc)
    requires step.Post? && l.Word?
    ensures var t := Exec(c, s, step);
            Eventually(t.mem, t.pending, l) ==
            match LastStore(step.desc, l) case Some(v) => v case None => Eventually(s.mem, s.pending, l)
  {
    var count := |s.log| + |step.ws|;
    var q := Issue(Program(step.desc, count, step.bell), s.epoch, |s.log|, count, c.N());
    hide Issue, Program, LastPending, LastStore, Inv, Enabled;
    LastAppend(s.pending, q, l);
    PostLast(step.desc, s.epoch, |s.log|, count, step.bell, c.N(), l);
  }

  /** Within the outstanding bound no slot of an unfetched WQE is described again. */
  lemma OldSlotsUntouched(c: Config, s: State, step: Step, j: nat, w: nat)
    requires PostPre(c, s, step) && |s.fetched| <= j < |s.log|
    ensures LastStore(step.desc, Word(Slot(j, c.N()), w)) == None
  {
    var l := Word(Slot(j, c.N()), w);
    assert |s.log| + |step.ws| <= j + c.N();
    forall i | 0 <= i < |step.desc|
      ensures step.desc[i].Store? ==> step.desc[i].loc != l
    {
      NewWordOk(c, s, step, i);
      var tag := TagOf(step.desc[i].loc, |s.log|, |s.log| + |step.ws|, c.N());
      hide *;
      SlotsDistinct(j, tag, c.N());
    }
    TailSilent(step.desc, l);
  }

  /** The WQEs of the call are where they should be. */
  lemma PostNewContent(c: Config, s: State, step: Step, m: nat, w: nat)
    requires PostPre(c, s, step) && m < |step.ws| && w < |step.ws[m]|
    ensures var t, l := Exec(c, s, step), Word(Slot(|s.log| + m, c.N()), w);
            Eventually(t.mem, t.pending, l) == step.ws[m][w]
  {
    assert Describes(step.desc, |s.log|, step.ws, c.N());
    assert LastStore(step.desc, Word(Slot(|s.log| + m, c.N()), w)) == Some(step.ws[m][w]);
    hide *;
    PostEventually(c, s, step, Word(Slot(|s.log| + m, c.N()), w));
  }

  /** The WQEs posted before and not yet fetched are untouched. */
  lemma PostOldContent(c: Config, s: State, step: Step, j: nat, w: nat)
    requires PostPre(c, s, step) && |s.fetched| <= j < |s.log| && w < |s.log[j]|
    ensures var t, l := Exec(c, s, step), Word(Slot(j, c.N()), w);
            Eventually(t.mem, t.pending, l) == s.log[j][w]
  {
    assert InvContent(c, s);
    assert Eventually(s.mem, s.pending, Word(Slot(j, c.N()), w)) == s.log[j][w];
    hide *;
    PostEventually(c, s, step, Word(Slot(j, c.N()), w));
    OldSlotsUntouched(c, s, step, j, w);
  }

  lemma PostLogs(c: Config, s: State, step: Step)
    requires PostPre(c, s, step)
    ensures step.Post? && Exec(c, s, step).log == s.log + step.ws && Exec(c, s, step).fetched == s.fetched
  {
    hide Inv, Enabled, Issue, Program;
  }

  lemma PostContent(c: Config, s: State, step: Step)
    requires PostPre(c, s, step)
    ensures InvContent(c, Exec(c, s, step))
  {
    hide Issue, Program, Slot, PostPre, LastStore, Eventually, Exec, Inv, Enabled, Pow2;
    PostLogs(c, s, step);
    var t := Exec(c, s, step);
    forall j: nat, w: nat | |t.fetched| <= j < |t.log| && w < |t.log[j]|
      ensures Eventually(t.mem, t.pending, Word(Slot(j, c.N()), w)) == t.log[j][w]
    {
      if j < |s.log| {
        PostOldContent(c, s, step, j, w);
      } else {
        PostNewContent(c, s, step, j - |s.log|, w);
      }
    }
  }

  lemma PostFetched(c: Config, s: State, step: Step)
    requires PostPre(c, s, step)
    ensures InvFetched(c, Exec(c, s, step)) && InvCounts(c, Exec(c, s, step))
  {
    var t := Exec(c, s, step);
    assert InvFetched(c, s) && InvCounts(c, s) && CanPost(c, s, step);
    hide Pow2, Wrap, Issue, Program, Complete, Inv, Describes, Barriers;
    assert t.log == s.log + step.ws;
    forall j | 0 <= j < |t.log|
      ensures Complete(c.kind, t.log[j])
    {
      if j >= |s.log| { assert Complete(c.kind, step.ws[j - |s.log|]); }
    }
  }

  lemma PostKeepsInv(c: Config, s: State, step: Step)
    requires PostPre(c, s, step)
    ensures Inv(c, Exec(c, s, step))
  {
    PostAllOk(c, s, step);
    PostOrders(c, s, step);
    PostAnnounced(c, s, step);
    PostContent(c, s, step);
    PostFetched(c, s, step);
    hide Exec, InvContent, InvFetched, InvCounts, AllOk, EpochsSorted, RecordsOrdered, AllBehind;
    hide BellsAnnounced, Announced, PostPre;
  }

  // ---------- a store becomes visible ----------

  ghost predicate VisiblePre(c: Config, s: State, i: nat) {
    Inv(c, s) && Enabled(c, s, MakeVisible(i))
  }

  /** The store that becomes visible has no store of an earlier epoch before it. */
  lemma OldestEpoch(c: Config, s: State, i: nat, h: nat)
    requires VisiblePre(c, s, i) && h < |s.pending|
    ensures s.pending[i].epoch <= s.pending[h].epoch
  {
    hide Pow2, PendingOk, InvContent;
    assert EpochsSorted(s.pending);
  }

  /** Where a remaining store came from. */
  lemma Remaining(ps: seq<Pending>, i: nat, h: nat)
    requires i < |ps| && h < |Without(ps, i)|
    ensures Without(ps, i)[h] == ps[if h < i then h else h + 1]
  {
  }

  lemma VisibleTags(c: Config, s: State, i: nat)
    requires VisiblePre(c, s, i)
    ensures s.pending[i].loc.Uar? ==> s.pending[i].tag <= s.visible
    ensures s.pending[i].loc.DbRec? ==>
              s.visible < s.pending[i].tag <= |s.log| && s.pending[i].val == Wrap(16, s.pending[i].tag)
  {
    hide Pow2, Wrap, Slot, InvContent, InvFetched;
    var p := s.pending[i];
    assert PendingOk(c, s, p);
    assert p.loc.Uar? ==> Announced(s, p.tag, p.epoch);
    forall h | 0 <= h < |s.pending|
      ensures p.epoch <= s.pending[h].epoch
    {
      OldestEpoch(c, s, i, h);
    }
  }

  lemma VisibleAllOk(c: Config, s: State, i: nat)
    requires VisiblePre(c, s, i)
    ensures AllOk(c, Exec(c, s, MakeVisible(i)))
  {
    var t := Exec(c, s, MakeVisible(i));
    var p := s.pending[i];
    assert RecordsOrdered(s.pending) && AllBehind(s.pending) && AllOk(c, s);
    forall h | 0 <= h < |t.pending|
      ensures PendingOk(c, t, t.pending[h])
    {
      var h' := if h < i then h else h + 1;
      Remaining(s.pending, i, h);
      OldestEpoch(c, s, i, h');
      hide Pow2, Wrap, Slot, InvContent, InvFetched, EpochsSorted;
      assert PendingOk(c, s, s.pending[h']);
      assert Behind(p, s.pending[h']);
      assert h < i ==> s.pending[h].loc != p.loc;
    }
  }

  lemma VisibleOrders(c: Config, s: State, i: nat)
    requires VisiblePre(c, s, i)
    ensures var ps := Exec(c, s, MakeVisible(i)).pending; EpochsSorted(ps) && RecordsOrdered(ps) && AllBehind(ps)
  {
    var ps := Without(s.pending, i);
    assert EpochsSorted(s.pending) && RecordsOrdered(s.pending) && AllBehind(s.pending);
    forall h, g | 0 <= h < |ps| && 0 <= g < |ps|
      ensures h < g ==> ps[h].epoch <= ps[g].epoch
      ensures h < g && ps[h].loc.DbRec? && ps[g].loc.DbRec? ==> ps[h].tag < ps[g].tag
      ensures Behind(ps[h], ps[g])
    {
      Remaining(s.pending, i, h);
      Remaining(s.pending, i, g);
      hide VisiblePre, Without;
      assert Behind(s.pending[if h < i then h else h + 1], s.pending[if g < i then g else g + 1]);
    }
  }

  lemma VisibleAnnounced(c: Config, s: State, i: nat)
    requires VisiblePre(c, s, i)
    ensures var t := Exec(c, s, MakeVisible(i)); BellsAnnounced(t) && Announced(t, |t.log|, t.epoch + 1)
  {
    var t := Exec(c, s, MakeVisible(i));
    VisibleTags(c, s, i);
    forall h | 0 <= h < |t.pending| && t.pending[h].loc.Uar?
      ensures Announced(t, t.pending[h].tag, t.pending[h].epoch)
    {
      Remaining(s.pending, i, h);
      var q := s.pending[if h < i then h else h + 1];
      hide Pow2, Wrap, InvContent, InvFetched, PendingOk, Without;
      assert Announced(s, q.tag, q.epoch);
      StillAnnounced(c, s, i, q.tag, q.epoch);
    }
    StillAnnounced(c, s, i, |s.log|, s.epoch + 1);
  }

  lemma StillAnnounced(c: Config, s: State, i: nat, tag: nat, epoch: nat)
    requires i < |s.pending| && Announced(s, tag, epoch)
    requires s.pending[i].loc.DbRec? ==> s.visible < s.pending[i].tag
    ensures Announced(Exec(c, s, MakeVisible(i)), tag, epoch)
  {
    var t := Exec(c, s, MakeVisible(i));
    if tag > t.visible {
      var h :| 0 <= h < |s.pending| && s.pending[h].loc.DbRec? && s.pending[h].tag == tag && s.pending[h].epoch < epoch;
      assert h != i;
      assert t.pending[if h < i then h else h - 1] == s.pending[h];
    }
  }

  lemma VisibleContent(c: Config, s: State, i: nat)
    requires VisiblePre(c, s, i)
    ensures InvContent(c, Exec(c, s, MakeVisible(i)))
  {
    var t := Exec(c, s, MakeVisible(i));
    hide Pow2, Slot, InvPending, LastPending, Eventually, InvFetched;
    forall j, w | |t.fetched| <= j < |t.log| && 0 <= w < |t.log[j]|
      ensures Eventually(t.mem, t.pending, Word(Slot(j, c.N()), w)) == t.log[j][w]
    {
      VisibilityKeepsEventual(s.mem, s.pending, i, Word(Slot(j, c.N()), w));
    }
  }

  lemma VisibleKeepsInv(c: Config, s: State, i: nat)
    requires VisiblePre(c, s, i)
    ensures Inv(c, Exec(c, s, MakeVisible(i)))
  {
    VisibleTags(c, s, i);
    VisibleAllOk(c, s, i);
    VisibleOrders(c, s, i);
    VisibleAnnounced(c, s, i);
    VisibleContent(c, s, i);
    hide Pow2, Wrap, Slot, LastPending, Without, AllOk, EpochsSorted, RecordsOrdered, AllBehind;
    hide BellsAnnounced, Announced, InvContent, Complete;
  }

  // ---------- the device reads ----------

  /** A WQE below the visible count and not yet fetched is whole in memory now. */
  lemma AnnouncedIsWhole(c: Config, s: State, j: nat, w: nat)
    requires Inv(c, s) && |s.fetched| <= j < s.visible && w < |s.log[j]|
    ensures Read(s.mem, Word(Slot(j, c.N()), w)) == s.log[j][w]
  {
    hide Pow2, Slot, LastPending;
    var l := Word(Slot(j, c.N()), w);
    forall i | 0 <= i < |s.pending|
      ensures s.pending[i].loc != l
    {
      assert PendingOk(c, s, s.pending[i]);
      if s.pending[i].loc.Word? { SlotsDistinct(j, s.pending[i].tag, c.N()); }
    }
    LastNone(s.pending, l);
    assert Eventually(s.mem, s.pending, l) == s.log[j][w];
  }

  /** From 16 bits the device recovers the exact visible count. */
  lemma DoorbellRecovered(c: Config, s: State)
    requires Inv(c, s)
    ensures s.observed + Wrap(16, Read(s.mem, DbRec) - s.hwSeen) == s.visible
  {
    hide Pow2;
    RingFits16(c);
    Recover(s.observed, s.visible, Pow2(16));
  }

  /** The device's 16-bit test for work is exact. */
  lemma HwHasWork(c: Config, s: State)
    requires Inv(c, s)
    ensures s.hwIndex != s.hwSeen <==> |s.fetched| < s.observed
  {
    hide Pow2;
    RingFits16(c);
    if Wrap(16, |s.fetched|) == Wrap(16, s.observed) {
      ModInjective(|s.fetched|, s.observed, Pow2(16));
    }
  }

  lemma PrefixNotWhole(kind: Kind, p: seq<nat>, w: Wqe)
    requires Complete(kind, w) && p <= w
    ensures Complete(kind, p) <==> p == w
  {
  }

  lemma FetchWordKeepsInv(c: Config, s: State)
    requires Inv(c, s) && Enabled(c, s, FetchWord)
    ensures Inv(c, Exec(c, s, FetchWord))
  {
    hide InvPending, InvContent, Pow2, Slot, LastPending, Complete, Wrap, Eventually;
    var f, w, t := |s.fetched|, |s.partial|, Exec(c, s, FetchWord);
    HwHasWork(c, s);
    HwSlot(f, c.k);
    PrefixNotWhole(c.kind, s.partial, s.log[f]);
    assert s.partial <= s.log[f];
    AnnouncedIsWhole(c, s, f, w);
    assert t.partial <= s.log[f];
    SameMemory(c, s, t);
  }

  /** Steps of the device leave memory and the stores in flight alone. */
  lemma SameMemory(c: Config, s: State, t: State)
    requires InvPending(c, s) && InvContent(c, s)
    requires t.pending == s.pending && t.epoch == s.epoch && t.log == s.log && t.visible == s.visible
    requires t.mem == s.mem && |s.fetched| <= |t.fetched|
    ensures InvPending(c, t) && InvContent(c, t)
  {
    hide Pow2, Slot, Wrap, LastPending, Eventually;
    forall i | 0 <= i < |t.pending|
      ensures PendingOk(c, t, t.pending[i])
    {
      assert PendingOk(c, s, s.pending[i]);
    }
    forall i | 0 <= i < |t.pending| && t.pending[i].loc.Uar?
      ensures Announced(t, t.pending[i].tag, t.pending[i].epoch)
    {
      assert Announced(s, s.pending[i].tag, s.pending[i].epoch);
    }
  }

  lemma FetchDoneKeepsInv(c: Config, s: State)
    requires Inv(c, s) && Enabled(c, s, FetchDone)
    ensures Inv(c, Exec(c, s, FetchDone))
    ensures s.partial == s.log[|s.fetched|]
  {
    assert s.partial != [];
    hide InvPending, InvContent, Pow2, Slot, LastPending, Complete, Wrap, Eventually;
    var f, t := |s.fetched|, Exec(c, s, FetchDone);
    PrefixNotWhole(c.kind, s.partial, s.log[f]);
    assert t.fetched == s.log[..f + 1];
    WrapAdd(16, f, 1);
    SameMemory(c, s, t);
  }

  lemma ReadDoorbellKeepsInv(c: Config, s: State)
    requires Inv(c, s)
    ensures Inv(c, Exec(c, s, ReadDoorbell))
    ensures Exec(c, s, ReadDoorbell).observed == s.visible
  {
    hide InvPending, InvContent, Pow2, Slot, LastPending, Complete, Wrap, Eventually;
    DoorbellRecovered(c, s);
    SameMemory(c, s, Exec(c, s, ReadDoorbell));
  }

  // ---------- every run ----------

  lemma InitInv(c: Config, s: State)
    requires Init(c, s)
    ensures Inv(c, s)
  {
    assert c.N() >= 0;
  }

  lemma StepKeepsInv(c: Config, s: State, step: Step)
    requires Inv(c, s) && Enabled(c, s, step)
    ensures Inv(c, Exec(c, s, step))
  {
    hide Inv, Exec;
    match step
    case Post(_, _, _) => PostKeepsInv(c, s, step);
    case MakeVisible(i) => VisibleKeepsInv(c, s, i);
    case ReadDoorbell => ReadDoorbellKeepsInv(c, s);
    case FetchWord => FetchWordKeepsInv(c, s);
    case FetchDone => FetchDoneKeepsInv(c, s);
  }

  lemma {:induction false} RunKeepsInv(c: Config, run: seq<State>, i: nat)
    requires Run(c, run) && i < |run|
    ensures Inv(c, run[i])
  {
    hide Inv, Init, CanPost;
    if i == 0 {
      assert Init(c, run[0]);
      InitInv(c, run[0]);
    } else {
      RunKeepsInv(c, run, i - 1);
      assert Next(c, run[i - 1], run[i - 1 + 1]);
      var step :| Enabled(c, run[i - 1], step) && run[i] == Exec(c, run[i - 1], step);
      StepKeepsInv(c, run[i - 1], step);
    }
  }

  /** In every interleaving of posting, store visibility and device steps, what the
      device fetched is a prefix of what was posted: no WQE is partial, skipped,
      repeated or left over from an earlier lap. A doorbell that rang announces
      nothing the record does not show. */
  lemma EveryFetchIsThePost(c: Config, run: seq<State>, i: nat)
    requires Run(c, run) && i < |run|
    ensures run[i].fetched <= run[i].log
    ensures run[i].partial != [] ==>
              |run[i].fetched| < |run[i].log| && run[i].partial <= run[i].log[|run[i].fetched|]
    ensures run[i].rung <= run[i].visible
  {
    RunKeepsInv(c, run, i);
  }

  /** The device is never stuck with work outstanding: a store can become visible,
      or the record shows more than it has seen, or it can read on. */
  lemma NeverStuck(c: Config, s: State)
    requires Inv(c, s) && |s.fetched| < |s.log|
    ensures s.pending != [] ==> Enabled(c, s, MakeVisible(0))
    ensures s.pending == [] ==> s.visible == |s.log|
    ensures s.pending == [] && s.observed == s.visible ==>
              Enabled(c, s, FetchWord) || Enabled(c, s, FetchDone)
  {
    HwHasWork(c, s);
  }

  // ---------- what the hypotheses are for ----------

  /** The room the callers must leave is exact: when the ring has work outstanding,
      posting one WQE that differs from the oldest unfetched one spares that one
      exactly if the ring still had a free slot. */
  lemma RoomIsExact(c: Config, s: State, step: Step)
    requires Inv(c, s) && step.Post? && CanPost(c, s, step)
    requires |s.fetched| < |s.log| && |step.ws| == 1
    requires |step.ws[0]| == |s.log[|s.fetched|]| && step.ws[0] != s.log[|s.fetched|]
    ensures var t, f := Exec(c, s, step), |s.fetched|;
            (forall w :: 0 <= w < |s.log[f]| ==>
               Eventually(t.mem, t.pending, Word(Slot(f, c.N()), w)) == s.log[f][w])
            <==> |s.log| + 1 <= f + c.N()
  {
    var t, f, n := Exec(c, s, step), |s.fetched|, c.N();
    if |s.log| + 1 <= f + n {
      PostContent(c, s, step);
    } else {
      assert |s.log| == f + n;
      assert Slot(f + n, n) == Slot(f, n) by { ModShift(f, 1, n); }
      var w :| 0 <= w < |s.log[f]| && step.ws[0][w] != s.log[f][w];
      PostEventually(c, s, step, Word(Slot(f, n), w));
      assert LastStore(step.desc, Word(Slot(|s.log| + 0, n), w)) == Some(step.ws[0][w]);
    }
  }

  /** A fresh ring after a call that issued `prog` for its first WQE. */
  function Posted(c: Config, idle: State, w: Wqe, prog: seq<Instr>): State {
    idle.(pending := Issue(prog, idle.epoch, 0, 1, c.N()), epoch := idle.epoch + Barriers(prog), log := [w])
  }

  /** What the two programs have in flight, with and without the barrier. */
  lemma FenceShape(c: Config, w: Wqe, desc: seq<Instr>, e: nat)
    requires Describes(desc, 0, [w], c.N())
    ensures var d, n := |desc|, c.N();
            var q := Issue(desc + [Store(DbRec, Wrap(16, 1))], e, 0, 1, n);
            var f := Issue(Program(desc, 1, None), e, 0, 1, n);
            && |q| == |f| == d + 1
            && q[d] == Pending(e, DbRec, Wrap(16, 1), 1) && f[d] == Pending(e + 1, DbRec, Wrap(16, 1), 1)
            && forall i :: 0 <= i < d ==> q[i] == f[i] && q[i].epoch == e && q[i].loc.Word?
  {
    hide Pow2, Wrap, IndexFrom;
    forall i | 0 <= i < |desc|
      ensures desc[i].Store? && desc[i].loc.Word?
    {
      assert DescStore(desc[i], 0, [w], c.N());
    }
    var one := [Store(DbRec, Wrap(16, 1))];
    assert one[1..] == [];
    IssueStores(desc, e, 0, 1, c.N());
    IssueAppend(desc, one, e, 0, 1, c.N());
    IssueFenced(DbRec, Wrap(16, 1), e, 0, 1, c.N());
    IssueAppend(desc, [Barrier] + one, e, 0, 1, c.N());
    assert Program(desc, 1, None) == desc + ([Barrier] + one);
    assert Issue(one, e, 0, 1, c.N()) == [Pending(e, DbRec, Wrap(16, 1), 1)] + Issue(one[1..], e, 0, 1, c.N());
  }

  /** The barrier before the record store is needed. The posting routine for any WQE, in
      whatever order it stores the descriptor, lets the record become visible first if
      the barrier is left out, and then the device reads what was in the slot before.
      With the barrier that step is impossible. */
  lemma UnfencedPostTears(c: Config, idle: State, w: Wqe, desc: seq<Instr>)
    requires Init(c, idle) && Complete(c.kind, w) && Describes(desc, 0, [w], c.N())
    requires w[0] != Read(idle.mem, Word(0, 0))
    ensures var s := Posted(c, idle, w, desc + [Store(DbRec, Wrap(16, 1))]);
            && Enabled(c, s, MakeVisible(|desc|))
            && var s1 := Exec(c, s, MakeVisible(|desc|));
               var s2 := Exec(c, s1, ReadDoorbell);
               && Enabled(c, s2, FetchWord)
               && !(Exec(c, s2, FetchWord).partial <= w)
    ensures !Enabled(c, Posted(c, idle, w, Program(desc, 1, None)), MakeVisible(|desc|))
  {
    FenceShape(c, w, desc, idle.epoch);
    assert LastStore(desc, Word(Slot(0 + 0, c.N()), 0)).Some?;
    assert desc != [];
    WrapOne();
    ZeroSlot(c);
    hide Pow2, Wrap, Issue, Slot, LastStore, Barriers, Describes;
    var s := Posted(c, idle, w, desc + [Store(DbRec, Wrap(16, 1))]);
    var s2 := Exec(c, Exec(c, s, MakeVisible(|desc|)), ReadDoorbell);
    assert s2.mem == idle.mem[DbRec := Wrap(16, 1)];
    assert Exec(c, s2, FetchWord).partial == [Read(idle.mem, Word(0, 0))];
  }

  lemma WrapOne()
    ensures Wrap(16, 1) == 1 && Wrap(16, 1 - 0) == 1
  {
    Pow2Values();
  }

  lemma ZeroSlot(c: Config)
    ensures Slot(0, c.N()) == 0
  {
    hide Pow2;
    DivModUnique(0, c.N(), 0, 0);
  }
}
