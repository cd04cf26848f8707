/** Posting work to a device that runs beside the CPU: a ring of WQEs, a doorbell
    record in memory and, for the send ring, a doorbell register.

    The CPU's stores reach the device in any order between two barriers but never
    across one, and stores to one location in program order. The device sees only
    memory and a 16-bit count. The theorem is that it never fetches anything but
    the complete WQE with the index it asks for.
 */
module RingProtocol {
  import opened Bits
  import opened Wrappers

  type Wqe = seq<nat>

  /** Where a store of a posting routine goes. */
  datatype Loc = Word(slot: nat, w: nat) | DbRec | Uar

  /** What a posting routine issues, in program order. */
  datatype Instr = Store(loc: Loc, val: nat) | Barrier

  /** A store issued and not yet visible. `epoch` counts the barriers before it;
      `tag` is the index of the WQE it belongs to, or the count a doorbell names. */
  datatype Pending = Pending(epoch: nat, loc: Loc, val: nat, tag: nat)

  datatype Kind = SendRing | RecvRing

  /** `2^k` slots. */
  datatype Config = Config(k: nat, kind: Kind) {
    ghost predicate Valid() { k <= 15 }
    function N(): (n: nat)
      ensures n > 0
    {
      Pow2(k)
    }
  }

  datatype State = State(
    mem: map<Loc, nat>,
    pending: seq<Pending>,
    epoch: nat,
    log: seq<Wqe>,
    hwIndex: nat,
    hwSeen: nat,
    partial: seq<nat>,
    fetched: seq<Wqe>,
    visible: nat,
    observed: nat,
    rung: nat)

  function Read(mem: map<Loc, nat>, l: Loc): nat {
    if l in mem then mem[l] else 0
  }

  /** The device knows a WQE is whole from the size field of its second word (in
      16-byte units), or on the receive ring from the size of one data segment. */
  predicate Complete(kind: Kind, p: seq<nat>) {
    match kind
    case SendRing => |p| >= 2 && |p| == 4 * (p[1] % 64)
    case RecvRing => |p| == 4
  }

  // ---------- issuing ----------

  /** The first index from `first` on that lives in `slot`. */
  function IndexFrom(slot: nat, first: nat, n: nat): nat
    requires n > 0
  {
    first + (slot - first) % n
  }

  function TagOf(l: Loc, first: nat, count: nat, n: nat): nat
    requires n > 0
  {
    if l.Word? then IndexFrom(l.slot, first, n) else count
  }

  function Issue(prog: seq<Instr>, epoch: nat, first: nat, count: nat, n: nat): seq<Pending>
    requires n > 0
  {
    if prog == [] then []
    else match prog[0]
      case Barrier => Issue(prog[1..], epoch + 1, first, count, n)
      case Store(l, v) =>
        [Pending(epoch, l, v, TagOf(l, first, count, n))] + Issue(prog[1..], epoch, first, count, n)
  }

  function Barriers(prog: seq<Instr>): nat {
    if prog == [] then 0 else (if prog[0].Barrier? then 1 else 0) + Barriers(prog[1..])
  }

  /** A posting routine: descriptor stores, a barrier, the doorbell record, and on
      the send ring another barrier and the doorbell register. */
  function Program(desc: seq<Instr>, count: nat, bell: Option<nat>): seq<Instr> {
    desc + [Barrier, Store(DbRec, Wrap(16, count))] +
    (if bell.Some? then [Barrier, Store(Uar, bell.value)] else [])
  }

  function LastStore(prog: seq<Instr>, l: Loc): Option<nat> {
    if prog == [] then None
    else
      var later := LastStore(prog[1..], l);
      if later.Some? then later
      else if prog[0].Store? && prog[0].loc == l then Some(prog[0].val)
      else None
  }

  ghost predicate DescStore(i: Instr, first: nat, ws: seq<Wqe>, n: nat)
    requires n > 0
  {
    && i.Store? && i.loc.Word? && i.loc.slot < n
    && var j := IndexFrom(i.loc.slot, first, n);
       j < first + |ws| && i.loc.w < |ws[j - first]|
  }

  /** `desc` writes exactly the WQEs `ws` at indices `first..`, in whatever order. */
  ghost predicate Describes(desc: seq<Instr>, first: nat, ws: seq<Wqe>, n: nat)
    requires n > 0
  {
    && (forall i :: 0 <= i < |desc| ==> DescStore(desc[i], first, ws, n))
    && (forall m, w :: 0 <= m < |ws| && 0 <= w < |ws[m]| ==>
          LastStore(desc, Word(Slot(first + m, n), w)) == Some(ws[m][w]))
  }

  // ---------- steps ----------

  // A call issues all its stores in one step. That loses no interleaving: a store not
  // yet issued and one not yet visible are the same to the device.

  datatype Step =
    | Post(ws: seq<Wqe>, desc: seq<Instr>, bell: Option<nat>)
    | MakeVisible(i: nat)
    | ReadDoorbell
    | FetchWord
    | FetchDone

  function Without(ps: seq<Pending>, i: nat): seq<Pending>
    requires i < |ps|
  {
    ps[..i] + ps[i + 1..]
  }

  /** A posting call on the ring, whatever room there is. */
  ghost predicate CanPost(c: Config, s: State, step: Step)
    requires step.Post?
  {
    && step.ws != []
    && (forall m :: 0 <= m < |step.ws| ==> Complete(c.kind, step.ws[m]))
    && Describes(step.desc, |s.log|, step.ws, c.N())
  }

  ghost predicate Enabled(c: Config, s: State, step: Step) {
    match step
    case Post(ws, _, _) =>
      // The program does not check this; its callers must see to it.
      CanPost(c, s, step) && |s.log| + |ws| <= |s.fetched| + c.N()
    case MakeVisible(i) =>
      && i < |s.pending|
      && s.pending[i].epoch == s.pending[0].epoch
      && forall h :: 0 <= h < i ==> s.pending[h].loc != s.pending[i].loc
    case ReadDoorbell => true
    case FetchWord => s.hwIndex != s.hwSeen && !Complete(c.kind, s.partial)
    case FetchDone => Complete(c.kind, s.partial)
  }

  function Exec(c: Config, s: State, step: Step): State
    requires step.MakeVisible? ==> step.i < |s.pending|
  {
    match step
    case Post(ws, desc, bell) =>
      var count := |s.log| + |ws|;
      var prog := Program(desc, count, bell);
      s.(pending := s.pending + Issue(prog, s.epoch, |s.log|, count, c.N()),
         epoch := s.epoch + Barriers(prog),
         log := s.log + ws)
    case MakeVisible(i) =>
      var p := s.pending[i];
      s.(mem := s.mem[p.loc := p.val],
         pending := Without(s.pending, i),
         visible := if p.loc.DbRec? then p.tag else s.visible,
         rung := if p.loc.Uar? then p.tag else s.rung)
    case ReadDoorbell =>
      var db := Read(s.mem, DbRec);
      s.(hwSeen := db, observed := s.observed + Wrap(16, db - s.hwSeen))
    case FetchWord =>
      s.(partial := s.partial + [Read(s.mem, Word(Slot(s.hwIndex, c.N()), |s.partial|))])
    case FetchDone =>
      s.(fetched := s.fetched + [s.partial], partial := [], hwIndex := Wrap(16, s.hwIndex + 1))
  }

  /** A fresh ring: doorbell record zero, any bytes in the slots. */
  ghost predicate Init(c: Config, s: State) {
    && c.Valid()
    && Read(s.mem, DbRec) == 0
    && s.pending == [] && s.log == [] && s.partial == [] && s.fetched == []
    && s.hwIndex == s.hwSeen == s.visible == s.observed == s.rung == 0
  }

  ghost predicate Next(c: Config, s: State, t: State) {
    exists step :: Enabled(c, s, step) && t == Exec(c, s, step)
  }

  ghost predicate Run(c: Config, run: seq<State>) {
    && run != []
    && Init(c, run[0])
    && forall i :: 0 <= i < |run| - 1 ==> Next(c, run[i], run[i + 1])
  }

  // ---------- the value a location will end up with ----------

  function LastPending(ps: seq<Pending>, l: Loc): Option<nat> {
    if ps == [] then None
    else
      var later := LastPending(ps[1..], l);
      if later.Some? then later else if ps[0].loc == l then Some(ps[0].val) else None
  }

  function Eventually(mem: map<Loc, nat>, ps: seq<Pending>, l: Loc): nat {
    match LastPending(ps, l)
    case Some(v) => v
    case None => Read(mem, l)
  }

  lemma {:induction false} LastAppend(ps: seq<Pending>, qs: seq<Pending>, l: Loc)
    ensures LastPending(ps + qs, l) ==
            if LastPending(qs, l).Some? then LastPending(qs, l) else LastPending(ps, l)
  {
    if ps == [] {
      assert ps + qs == qs;
    } else {
      assert (ps + qs)[0] == ps[0] && (ps + qs)[1..] == ps[1..] + qs;
      LastAppend(ps[1..], qs, l);
    }
  }

  lemma {:induction false} LastNone(ps: seq<Pending>, l: Loc)
    ensures LastPending(ps, l) == None <==> forall i :: 0 <= i < |ps| ==> ps[i].loc != l
  {
    if ps != [] {
      LastNone(ps[1..], l);
      assert forall i :: 0 < i < |ps| ==> ps[i] == ps[1..][i - 1];
    }
  }

  /** Making a store visible changes when, not what: the final contents stay. */
  lemma VisibilityKeepsEventual(mem: map<Loc, nat>, ps: seq<Pending>, i: nat, l: Loc)
    requires i < |ps|
    requires forall h :: 0 <= h < i ==> ps[h].loc != ps[i].loc
    ensures Eventually(mem[ps[i].loc := ps[i].val], Without(ps, i), l) == Eventually(mem, ps, l)
  {
    var a, b := ps[..i], ps[i + 1..];
    assert ps == a + ([ps[i]] + b);
    LastAppend(a, [ps[i]] + b, l);
    assert ([ps[i]] + b)[1..] == b;
    LastAppend(a, b, l);
    if l == ps[i].loc { LastNone(a, l); }
  }

  lemma {:induction false} LastOfIssue(prog: seq<Instr>, epoch: nat, first: nat, count: nat, n: nat, l: Loc)
    requires n > 0
    ensures LastPending(Issue(prog, epoch, first, count, n), l) == LastStore(prog, l)
    decreases |prog|
  {
    if prog != [] {
      var e := if prog[0].Barrier? then epoch + 1 else epoch;
      LastOfIssue(prog[1..], e, first, count, n, l);
      if prog[0].Store? {
        assert Issue(prog, epoch, first, count, n)[1..] == Issue(prog[1..], e, first, count, n);
      }
    }
  }

  lemma {:induction false} LastStoreAppend(a: seq<Instr>, b: seq<Instr>, l: Loc)
    ensures LastStore(a + b, l) == if LastStore(b, l).Some? then LastStore(b, l) else LastStore(a, l)
  {
    if a == [] {
      assert a + b == b;
    } else {
      assert (a + b)[0] == a[0] && (a + b)[1..] == a[1..] + b;
      LastStoreAppend(a[1..], b, l);
    }
  }

  // ---------- the invariant ----------

  ghost predicate InvCounts(c: Config, s: State) {
    && c.Valid()
    && s.hwIndex == Wrap(16, |s.fetched|)
    && s.hwSeen == Wrap(16, s.observed)
    && Read(s.mem, DbRec) == Wrap(16, s.visible)
    && |s.fetched| <= s.observed <= s.visible <= |s.log| <= |s.fetched| + c.N()
    && s.rung <= s.visible
  }

  ghost predicate InvFetched(c: Config, s: State) {
    && |s.fetched| <= |s.log|
    && s.fetched == s.log[..|s.fetched|]
    && (forall j :: 0 <= j < |s.log| ==> Complete(c.kind, s.log[j]))
    && (s.partial != [] ==> |s.fetched| < s.observed && |s.fetched| < |s.log| && s.partial <= s.log[|s.fetched|])
  }

  ghost predicate PendingOk(c: Config, s: State, p: Pending) {
    && p.epoch <= s.epoch
    && match p.loc
       case Word(slot, w) => slot == Slot(p.tag, c.N()) && s.visible <= p.tag < |s.log|
       case DbRec => p.val == Wrap(16, p.tag) && s.visible < p.tag <= |s.log|
       case Uar => p.tag <= |s.log|
  }

  /** A doorbell record store is behind every store of a WQE it announces. */
  ghost predicate Behind(d: Pending, p: Pending) {
    d.loc.DbRec? && p.loc.Word? && p.tag < d.tag ==> p.epoch < d.epoch
  }

  /** The record store with count `tag` is visible, or ahead of epoch `epoch`. */
  ghost predicate Announced(s: State, tag: nat, epoch: nat) {
    tag <= s.visible ||
    exists h :: 0 <= h < |s.pending| && s.pending[h].loc.DbRec? && s.pending[h].tag == tag && s.pending[h].epoch < epoch
  }

  ghost predicate AllOk(c: Config, s: State) {
    forall i :: 0 <= i < |s.pending| ==> PendingOk(c, s, s.pending[i])
  }

  ghost predicate EpochsSorted(ps: seq<Pending>) {
    forall i, h :: 0 <= i < h < |ps| ==> ps[i].epoch <= ps[h].epoch
  }

  ghost predicate RecordsOrdered(ps: seq<Pending>) {
    forall i, h :: 0 <= i < h < |ps| && ps[i].loc.DbRec? && ps[h].loc.DbRec? ==> ps[i].tag < ps[h].tag
  }

  ghost predicate AllBehind(ps: seq<Pending>) {
    forall i, h :: 0 <= i < |ps| && 0 <= h < |ps| ==> Behind(ps[i], ps[h])
  }

  ghost predicate BellsAnnounced(s: State) {
    forall i :: 0 <= i < |s.pending| && s.pending[i].loc.Uar? ==>
      Announced(s, s.pending[i].tag, s.pending[i].epoch)
  }

  ghost predicate InvPending(c: Config, s: State) {
    && AllOk(c, s)
    && EpochsSorted(s.pending)
    && RecordsOrdered(s.pending)
    && AllBehind(s.pending)
    && BellsAnnounced(s)
    && Announced(s, |s.log|, s.epoch + 1)
  }

  /** Every WQE not yet fetched will be whole in its slot. */
  ghost predicate InvContent(c: Config, s: State) {
    forall j, w :: |s.fetched| <= j < |s.log| && 0 <= w < |s.log[j]| ==>
      Eventually(s.mem, s.pending, Word(Slot(j, c.N()), w)) == s.log[j][w]
  }

  ghost predicate Inv(c: Config, s: State) {
    InvCounts(c, s) && InvFetched(c, s) && InvPending(c, s) && InvContent(c, s)
  }

  // ---------- small facts about slots ----------

  lemma SlotOfIndex(slot: nat, first: nat, n: nat)
    requires n > 0 && slot < n
    ensures Slot(IndexFrom(slot, first, n), n) == slot
    ensures first <= IndexFrom(slot, first, n) < first + n
  {
    AddMod(slot - first, first, n);
    DivModUnique(slot, n, 0, slot);
  }

  lemma IndexOfSlot(j: nat, first: nat, n: nat)
    requires n > 0 && first <= j < first + n
    ensures IndexFrom(Slot(j, n), first, n) == j
  {
    hide Slot, IndexFrom;
    var i := IndexFrom(Slot(j, n), first, n);
    SlotOfIndex(Slot(j, n), first, n);
    if i < j { SlotsDistinct(i, j, n); }
    if j < i { SlotsDistinct(j, i, n); }
  }

  /** The device's 16-bit index names the same slot as the full count. */
  lemma HwSlot(j: nat, k: nat)
    requires k <= 15
    ensures Slot(Wrap(16, j), Pow2(k)) == Slot(j, Pow2(k))
  {
    hide Pow2;
    Pow2ModOfMod(j, k, 16);
  }

  lemma RingFits16(c: Config)
    requires c.Valid()
    ensures c.N() < Pow2(16)
  {
    hide Pow2;
    Pow2Order(c.k, 15);
    Pow2Order(16, 15);
    Pow2Monotone(15, 16);
  }
}
