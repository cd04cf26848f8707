/** Acquiring and releasing in pp_create_cq_dv, pp_create_qp_dv and the client's main.

    Every allocation and registration may fail; which one does is a parameter. The
    platform records what happened, and only lets the newest live resource go, so a
    wrong order, a double release or a release of something never acquired cannot
    verify.
 */
module Resources {

  datatype Kind = Db | DbUmem | Buf | BufUmem | Uar | Obj

  datatype Resource = Ctx | OfCq(kind: Kind) | OfQp(kind: Kind)

  datatype Event = Got(r: Resource) | Freed(r: Resource)

  class Platform {
    var live: seq<Resource>
    ghost var history: seq<Event>

    constructor ()
      ensures live == [] && history == []
    {
      live, history := [], [];
    }

    method Acquire(r: Resource, ok: bool) returns (got: bool)
      modifies this
      ensures got == ok
      ensures live == if ok then old(live) + [r] else old(live)
      ensures history == if ok then old(history) + [Got(r)] else old(history)
    {
      if ok {
        live, history := live + [r], history + [Got(r)];
      }
      got := ok;
    }

    method Release(r: Resource)
      requires live != [] && live[|live| - 1] == r
      modifies this
      ensures live == old(live)[..|old(live)| - 1]
      ensures history == old(history) + [Freed(r)]
    {
      live, history := live[..|live| - 1], history + [Freed(r)];
    }
  }

  /** The fields of `struct pp_dv_cq` or `pp_dv_qp` that are reset on failure. */
  class Queue {
    var dbSet: bool
    var bufSet: bool

    constructor ()
      ensures !dbSet && !bufSet
    {
      dbSet, bufSet := false, false;
    }
  }

  datatype Owner = ForCq | ForQp

  function Own(o: Owner, k: Kind): Resource {
    if o.ForCq? then OfCq(k) else OfQp(k)
  }

  /** The order of acquisition. */
  function Chain(o: Owner): (r: seq<Resource>)
    ensures |r| == 6
  {
    [Own(o, Db), Own(o, DbUmem), Own(o, Buf), Own(o, BufUmem), Own(o, Uar), Own(o, Obj)]
  }

  function Gots(rs: seq<Resource>): (e: seq<Event>)
    ensures |e| == |rs|
  {
    seq(|rs|, i requires 0 <= i < |rs| => Got(rs[i]))
  }

  /** The releases of `rs`, newest first. */
  function Frees(rs: seq<Resource>): (e: seq<Event>)
    ensures |e| == |rs|
  {
    seq(|rs|, i requires 0 <= i < |rs| => Freed(rs[|rs| - 1 - i]))
  }

  /** How many steps succeed before the first that fails. */
  function Successes(oks: seq<bool>): (n: nat)
    ensures n <= |oks|
    ensures forall i :: 0 <= i < n ==> oks[i]
    ensures n < |oks| ==> !oks[n]
  {
    if oks == [] || !oks[0] then 0 else 1 + Successes(oks[1..])
  }

  lemma {:induction false} SuccessesIs(oks: seq<bool>, n: nat)
    requires n <= |oks| && (forall i :: 0 <= i < n ==> oks[i]) && (n < |oks| ==> !oks[n])
    ensures Successes(oks) == n
    decreases |oks|
  {
    if n > 0 {
      SuccessesIs(oks[1..], n - 1);
    }
  }

  lemma GotsStep(rs: seq<Resource>, n: nat)
    requires n < |rs|
    ensures Gots(rs[..n]) + [Got(rs[n])] == Gots(rs[..n + 1])
    ensures [Freed(rs[n])] + Frees(rs[..n]) == Frees(rs[..n + 1])
    ensures Gots(rs[..0]) == [] && Frees(rs[..0]) == []
  {
  }

  /** Progress of releasing the chain: `k` resources are left of `n`. */
  ghost predicate Unwound(live: seq<Resource>, history: seq<Event>, base: seq<Resource>, h0: seq<Event>, o: Owner,
                          n: nat, k: nat) {
    && k <= n <= 6
    && live == base + Chain(o)[..k]
    && history + Frees(Chain(o)[..k]) == h0 + Frees(Chain(o)[..n])
  }

  lemma UnwindBegins(live: seq<Resource>, history: seq<Event>, base: seq<Resource>, o: Owner, n: nat)
    requires n <= 6 && live == base + Chain(o)[..n]
    ensures Unwound(live, history, base, history, o, n, n)
  {
  }

  lemma UnwindNext(live: seq<Resource>, history: seq<Event>, base: seq<Resource>, h0: seq<Event>, o: Owner, n: nat,
                   k: nat)
    requires 0 < k && Unwound(live, history, base, h0, o, n, k)
    ensures live != [] && live[|live| - 1] == Chain(o)[k - 1]
    ensures Unwound(live[..|live| - 1], history + [Freed(Chain(o)[k - 1])], base, h0, o, n, k - 1)
  {
    hide Chain, Gots, Frees;
    GotsStep(Chain(o), k - 1);
    var h := history;
    assert h + ([Freed(Chain(o)[k - 1])] + Frees(Chain(o)[..k - 1])) == (h + [Freed(Chain(o)[k - 1])])
        + Frees(Chain(o)[..k - 1]);
  }

  lemma UnwindEnds(live: seq<Resource>, history: seq<Event>, base: seq<Resource>, h0: seq<Event>, o: Owner, n: nat)
    requires Unwound(live, history, base, h0, o, n, 0)
    ensures live == base && history == h0 + Frees(Chain(o)[..n])
  {
    assert Chain(o)[..0] == [] && Frees([]) == [];
  }

  /** The release of the newest of the chain. */
  method ReleaseNext(p: Platform, r: Resource, ghost base: seq<Resource>, ghost h0: seq<Event>, ghost o: Owner,
                     ghost n: nat, ghost k: nat)
    requires 0 < k && Unwound(p.live, p.history, base, h0, o, n, k) && r == Chain(o)[k - 1]
    modifies p
    ensures Unwound(p.live, p.history, base, h0, o, n, k - 1)
  {
    hide Unwound, Chain;
    UnwindNext(p.live, p.history, base, h0, o, n, k);
    p.Release(r);
  }

  /** The labels above `fail_alloc_*buf`: what was registered on the buffer, and it. */
  method UnwindBuffer(p: Platform, q: Queue, o: Owner, n: nat, ghost base: seq<Resource>, ghost h0: seq<Event>)
    requires 3 <= n <= 5 && Unwound(p.live, p.history, base, h0, o, n, n)
    modifies p, q
    ensures Unwound(p.live, p.history, base, h0, o, n, 2) && !q.bufSet && q.dbSet == old(q.dbSet)
  {
    hide Unwound;
    if n >= 5 { ReleaseNext(p, Own(o, Uar), base, h0, o, n, 5); }
    if n >= 4 { ReleaseNext(p, Own(o, BufUmem), base, h0, o, n, 4); }
    ReleaseNext(p, Own(o, Buf), base, h0, o, n, 3);
    q.bufSet := false;
  }

  /** The failure labels, which fall through: entered with `n` resources held. */
  method Unwind(p: Platform, q: Queue, o: Owner, n: nat, ghost base: seq<Resource>)
    requires 1 <= n <= 5 && p.live == base + Chain(o)[..n]
    modifies p, q
    ensures p.live == base && p.history == old(p.history) + Frees(Chain(o)[..n])
    ensures !q.dbSet && (n < 3 ==> q.bufSet == old(q.bufSet)) && (n >= 3 ==> !q.bufSet)
  {
    ghost var h0 := p.history;
    assert Own(o, Db) == Chain(o)[0] && Own(o, DbUmem) == Chain(o)[1];
    hide Unwound, Chain, Own, Frees;
    UnwindBegins(p.live, p.history, base, o, n);
    if n >= 3 { UnwindBuffer(p, q, o, n, base, h0); }
    if n >= 2 { ReleaseNext(p, Own(o, DbUmem), base, h0, o, n, 2); }
    ReleaseNext(p, Own(o, Db), base, h0, o, n, 1);
    q.dbSet := false;
    UnwindEnds(p.live, p.history, base, h0, o, n);
  }

  /** The first `n` of the chain are held, and nothing else happened. */
  ghost predicate Held(live: seq<Resource>, history: seq<Event>, base: seq<Resource>, h0: seq<Event>, o: Owner,
                       n: nat) {
    n <= 6 && live == base + Chain(o)[..n] && history == h0 + Gots(Chain(o)[..n])
  }

  /** The first `n` of the chain were acquired and released. */
  ghost predicate Undone(live: seq<Resource>, history: seq<Event>, base: seq<Resource>, h0: seq<Event>, o: Owner,
                         n: nat) {
    n <= 6 && live == base && history == h0 + Gots(Chain(o)[..n]) + Frees(Chain(o)[..n])
  }

  /** Acquisition number `n` of the chain; on failure everything before it goes. */
  method Next(p: Platform, q: Queue, o: Owner, n: nat, r: Resource, ok: bool,
              ghost base: seq<Resource>, ghost h0: seq<Event>)
    returns (got: bool)
    requires 1 <= n <= 5 && r == Chain(o)[n] && Held(p.live, p.history, base, h0, o, n)
    modifies p, q
    ensures got == ok
    ensures got ==> Held(p.live, p.history, base, h0, o, n + 1)
                    && q.dbSet == old(q.dbSet) && q.bufSet == old(q.bufSet)
    ensures !got ==> Undone(p.live, p.history, base, h0, o, n)
                     && !q.dbSet && (n < 3 ==> q.bufSet == old(q.bufSet)) && (n >= 3 ==> !q.bufSet)
  {
    hide Gots, Frees;
    GotsStep(Chain(o), n);
    assert (base + Chain(o)[..n]) + [Chain(o)[n]] == base + Chain(o)[..n + 1];
    got := p.Acquire(r, ok);
    if !got {
      Unwind(p, q, o, n, base);
    }
  }

  lemma Outcomes(live: seq<Resource>, history: seq<Event>, base: seq<Resource>, h0: seq<Event>, o: Owner, n: nat)
    ensures Undone(base, h0, base, h0, o, 0)
    ensures Held(base + [Own(o, Db)], h0 + [Got(Own(o, Db))], base, h0, o, 1)
    ensures Held(live, history, base, h0, o, 6) ==> live == base + Chain(o) && history == h0 + Gots(Chain(o))
    ensures Undone(live, history, base, h0, o, n) ==>
              live == base && history == h0 + (Gots(Chain(o)[..n]) + Frees(Chain(o)[..n]))
  {
    assert Chain(o)[..6] == Chain(o) && Chain(o)[..1] == [Own(o, Db)];
    assert Gots([Own(o, Db)]) == [Got(Own(o, Db))];
  }

  /** What a creating call leaves in the record. */
  function CreateEvents(o: Owner, queryRet: int, oks: seq<bool>): seq<Event>
    requires |oks| == 6
  {
    if queryRet != 0 then []
    else if Successes(oks) == 6 then Gots(Chain(o))
    else Gots(Chain(o)[..Successes(oks)]) + Frees(Chain(o)[..Successes(oks)])
  }

  function CreateResult(queryRet: int, dbRet: int, oks: seq<bool>): int
    requires |oks| == 6
  {
    if queryRet != 0 then queryRet
    else match Successes(oks)
      case 0 => dbRet
      case 6 => 0
      case _ => -1
  }

  /** `pp_create_cq_dv` and `pp_create_qp_dv` as acquirers: a query, then six
      acquisitions. A failing call releases exactly what it acquired, newest first. */
  method Create(p: Platform, q: Queue, o: Owner, queryRet: int, dbRet: int, oks: seq<bool>) returns (ret: int)
    requires |oks| == 6 && oks[0] == (dbRet == 0) && !q.dbSet && !q.bufSet
    modifies p, q
    ensures ret == CreateResult(queryRet, dbRet, oks)
    ensures ret == 0 <==> queryRet == 0 && forall i :: 0 <= i < 6 ==> oks[i]
    ensures queryRet != 0 ==> ret == queryRet
    ensures queryRet == 0 && dbRet != 0 ==> ret == dbRet
    ensures ret != 0 && queryRet == dbRet == 0 ==> ret == -1
    ensures p.history == old(p.history) + CreateEvents(o, queryRet, oks)
    ensures p.live == if ret == 0 then old(p.live) + Chain(o) else old(p.live)
    ensures ret != 0 ==> !q.dbSet && !q.bufSet
  {
    ghost var base, h0 := p.live, p.history;
    if queryRet != 0 {
      return queryRet;
    }
    ghost var n;
    ret, n := AcquireChain(p, q, o, dbRet, oks);
    SuccessesIs(oks, n);
    Outcomes(p.live, p.history, base, h0, o, n);
    hide Gots, Frees, Chain, Held, Undone, Successes;
  }

  lemma ChainIs(o: Owner)
    ensures Chain(o)[1] == Own(o, DbUmem) && Chain(o)[2] == Own(o, Buf) && Chain(o)[3] == Own(o, BufUmem)
    ensures Chain(o)[4] == Own(o, Uar) && Chain(o)[5] == Own(o, Obj)
  {
  }

  /** What must be live for `k` to be acquired: a registration needs the memory it is for,
      and the object needs everything else. */
  function Needs(k: Kind): set<Kind> {
    match k
    case Db | Buf | Uar => {}
    case DbUmem => {Db}
    case BufUmem => {Buf}
    case Obj => {Db, DbUmem, Buf, BufUmem, Uar}
  }

  /** Acquisition `n` finds what it needs among those before it. Releases being newest
      first, nothing is released while what was made of it is live. */
  lemma ChainSound(o: Owner, n: nat, k: Kind, d: Kind)
    requires n < 6 && Chain(o)[n] == Own(o, k) && d in Needs(k)
    ensures Own(o, d) in Chain(o)[..n] && Own(o, k) !in Chain(o)[..n]
  {
    ChainIs(o);
    assert Chain(o)[0] == Own(o, Db);
    var at := if d.Db? then 0 else if d.DbUmem? then 1 else if d.Buf? then 2 else if d.BufUmem? then 3 else 4;
    assert Chain(o)[..n][at] == Own(o, d);
  }

  /** The six acquisitions; `n` of them succeed. */
  method AcquireChain(p: Platform, q: Queue, o: Owner, dbRet: int, oks: seq<bool>) returns (ret: int, ghost n: nat)
    requires |oks| == 6 && oks[0] == (dbRet == 0) && !q.dbSet && !q.bufSet
    modifies p, q
    ensures n <= 6 && (forall i :: 0 <= i < n ==> oks[i]) && (n < 6 ==> !oks[n])
    ensures ret == if n == 0 then dbRet else if n == 6 then 0 else -1
    ensures n == 6 ==> Held(p.live, p.history, old(p.live), old(p.history), o, 6)
    ensures n < 6 ==> Undone(p.live, p.history, old(p.live), old(p.history), o, n) && !q.dbSet && !q.bufSet
  {
    hide *;
    ghost var base, h0 := p.live, p.history;
    ret, n := AcquireMemory(p, q, o, dbRet, oks);
    if ret == 0 {
      ret, n := AcquireRest(p, q, o, oks, base, h0);
    }
  }

  /** The doorbell records and their registration, then the buffer. */
  method AcquireMemory(p: Platform, q: Queue, o: Owner, dbRet: int, oks: seq<bool>) returns (ret: int, ghost n: nat)
    requires |oks| == 6 && oks[0] == (dbRet == 0) && !q.dbSet && !q.bufSet
    modifies p, q
    ensures n <= 3 && (forall i :: 0 <= i < n ==> oks[i]) && (n < 3 ==> !oks[n])
    ensures ret == if n == 0 then dbRet else if n == 3 then 0 else -1
    ensures n == 3 ==> Held(p.live, p.history, old(p.live), old(p.history), o, 3)
    ensures n < 3 ==> Undone(p.live, p.history, old(p.live), old(p.history), o, n) && !q.dbSet && !q.bufSet
  {
    hide *;
    ghost var base, h0 := p.live, p.history;
    ChainIs(o);
    Outcomes(base, h0, base, h0, o, 0);
    var ok := p.Acquire(Own(o, Db), oks[0]);
    if !ok {
      return dbRet, 0;
    }
    n, q.dbSet := 1, true;
    ok := Next(p, q, o, 1, Own(o, DbUmem), oks[1], base, h0);
    if !ok {
      return -1, 1;
    }
    n := 2;
    ok := Next(p, q, o, 2, Own(o, Buf), oks[2], base, h0);
    if !ok {
      return -1, 2;
    }
    ret, n, q.bufSet := 0, 3, true;
  }

  /** What is registered on the buffer, and the object. */
  method AcquireRest(p: Platform, q: Queue, o: Owner, oks: seq<bool>, ghost base: seq<Resource>, ghost h0: seq<Event>)
    returns (ret: int, ghost n: nat)
    requires |oks| == 6 && Held(p.live, p.history, base, h0, o, 3)
    modifies p, q
    ensures 3 <= n <= 6 && (forall i :: 3 <= i < n ==> oks[i]) && (n < 6 ==> !oks[n])
    ensures ret == if n == 6 then 0 else -1
    ensures n == 6 ==> Held(p.live, p.history, base, h0, o, 6)
    ensures n < 6 ==> Undone(p.live, p.history, base, h0, o, n) && !q.dbSet && !q.bufSet
  {
    hide Gots, Frees, Chain, Own, Held, Undone;
    ChainIs(o);
    n := 3;
    var ok := Next(p, q, o, 3, Own(o, BufUmem), oks[3], base, h0);
    if !ok {
      return -1, 3;
    }
    n := 4;
    ok := Next(p, q, o, 4, Own(o, Uar), oks[4], base, h0);
    if !ok {
      return -1, 4;
    }
    n := 5;
    ok := Next(p, q, o, 5, Own(o, Obj), oks[5], base, h0);
    if !ok {
      return -1, 5;
    }
    ret, n := 0, 6;
  }

  /** `pp_destroy_cq_dv` and `pp_destroy_qp_dv`. */
  method Destroy(p: Platform, q: Queue, o: Owner, ghost base: seq<Resource>)
    requires p.live == base + Chain(o)
    modifies p, q
    ensures p.live == base && p.history == old(p.history) + Frees(Chain(o))
    ensures !q.dbSet && !q.bufSet
  {
    ghost var h0 := p.history;
    assert Chain(o)[..6] == Chain(o);
    hide Unwound;
    UnwindBegins(p.live, p.history, base, o, 6);
    ReleaseNext(p, Own(o, Obj), base, h0, o, 6, 6);
    ReleaseNext(p, Own(o, Uar), base, h0, o, 6, 5);
    ReleaseNext(p, Own(o, BufUmem), base, h0, o, 6, 4);
    ReleaseNext(p, Own(o, Buf), base, h0, o, 6, 3);
    q.bufSet := false;
    ReleaseNext(p, Own(o, DbUmem), base, h0, o, 6, 2);
    ReleaseNext(p, Own(o, Db), base, h0, o, 6, 1);
    q.dbSet := false;
    UnwindEnds(p.live, p.history, base, h0, o, 6);
  }

  // ---------- the client's main ----------

  /** The results of the steps of `main`: context, both creations, then the exchange,
      the move to RTS and the traffic. */
  datatype Script = Script(initRet: int, cqQuery: int, cqDb: int, cqOks: seq<bool>,
                           qpQuery: int, qpDb: int, qpOks: seq<bool>, exchange: int, move: int, traffic: int)
  {
    ghost predicate Valid() {
      |cqOks| == 6 && |qpOks| == 6 && cqOks[0] == (cqDb == 0) && qpOks[0] == (qpDb == 0)
    }
  }

  /** The first error, or what the traffic returned. */
  function MainResult(x: Script): int
    requires |x.cqOks| == 6 && |x.qpOks| == 6
  {
    var cq, qp := CreateResult(x.cqQuery, x.cqDb, x.cqOks), CreateResult(x.qpQuery, x.qpDb, x.qpOks);
    if x.initRet != 0 then x.initRet
    else if cq != 0 then cq
    else if qp != 0 then qp
    else if x.exchange != 0 then x.exchange
    else if x.move != 0 then x.move
    else x.traffic
  }

  /** What happens inside a lifetime: nothing or what `inner` says, between the
      acquisitions and the releases of `o`. */
  function Bracket(o: Owner, queryRet: int, oks: seq<bool>, inner: seq<Event>): seq<Event>
    requires |oks| == 6
  {
    if queryRet == 0 && Successes(oks) == 6 then Gots(Chain(o)) + inner + Frees(Chain(o))
    else CreateEvents(o, queryRet, oks)
  }

  function MainEvents(x: Script): seq<Event>
    requires |x.cqOks| == 6 && |x.qpOks| == 6
  {
    if x.initRet != 0 then []
    else [Got(Ctx)] + Bracket(ForCq, x.cqQuery, x.cqOks, Bracket(ForQp, x.qpQuery, x.qpOks, [])) + [Freed(Ctx)]
  }

  /** The body of `main` once the completion queue exists. */
  method MainWithCq(p: Platform, qp: Queue, x: Script) returns (ret: int)
    requires x.Valid() && !qp.dbSet && !qp.bufSet
    modifies p, qp
    ensures p.live == old(p.live)
    ensures p.history == old(p.history) + Bracket(ForQp, x.qpQuery, x.qpOks, [])
    ensures var c := CreateResult(x.qpQuery, x.qpDb, x.qpOks);
            ret == if c != 0 then c else if x.exchange != 0 then x.exchange
                else if x.move != 0 then x.move else x.traffic
  {
    hide Gots, Frees, Chain, Successes;
    ghost var base, h0 := p.live, p.history;
    ret := Create(p, qp, ForQp, x.qpQuery, x.qpDb, x.qpOks);
    if ret != 0 {
      CreatedIff(x.qpQuery, x.qpDb, x.qpOks);
      return;
    }
    CreatedIff(x.qpQuery, x.qpDb, x.qpOks);
    ret := x.exchange;
    if ret == 0 {
      ret := x.move;
      if ret == 0 {
        ret := x.traffic;
      }
    }
    Destroy(p, qp, ForQp, base);
    assert (h0 + Gots(Chain(ForQp))) + Frees(Chain(ForQp)) == h0 + (Gots(Chain(ForQp)) + [] + Frees(Chain(ForQp)));
  }

  lemma CreatedIff(queryRet: int, dbRet: int, oks: seq<bool>)
    requires |oks| == 6 && oks[0] == (dbRet == 0)
    ensures CreateResult(queryRet, dbRet, oks) == 0 <==> queryRet == 0 && Successes(oks) == 6
  {
  }

  /** The body of `main` once the context exists. */
  method MainWithCtx(p: Platform, cq: Queue, qp: Queue, x: Script) returns (ret: int)
    requires x.Valid() && cq != qp && !cq.dbSet && !cq.bufSet && !qp.dbSet && !qp.bufSet
    modifies p, cq, qp
    ensures p.live == old(p.live)
    ensures p.history == old(p.history)
            + Bracket(ForCq, x.cqQuery, x.cqOks, Bracket(ForQp, x.qpQuery, x.qpOks, []))
    ensures x.initRet == 0 ==> ret == MainResult(x)
  {
    CreatedIff(x.cqQuery, x.cqDb, x.cqOks);
    hide Gots, Frees, Chain, Successes, CreateResult, CreateEvents;
    ghost var base, h1 := p.live, p.history;
    ghost var inner := Bracket(ForQp, x.qpQuery, x.qpOks, []);
    ret := Create(p, cq, ForCq, x.cqQuery, x.cqDb, x.cqOks);
    if ret == 0 {
      ret := MainWithCq(p, qp, x);
      Destroy(p, cq, ForCq, base);
      Around(h1, Gots(Chain(ForCq)), inner, Frees(Chain(ForCq)));
    }
  }

  lemma Around(h: seq<Event>, a: seq<Event>, b: seq<Event>, c: seq<Event>)
    ensures ((h + a) + b) + c == h + (a + b + c)
  {
  }

  /** It returns 0 exactly when nothing failed. */
  lemma MainIs(x: Script)
    requires x.Valid()
    ensures MainResult(x) == 0 <==>
              && x.initRet == x.cqQuery == x.qpQuery == x.exchange == x.move == x.traffic == 0
              && forall i :: 0 <= i < 6 ==> x.cqOks[i] && x.qpOks[i]
  {
    CreatedIff(x.cqQuery, x.cqDb, x.cqOks);
    CreatedIff(x.qpQuery, x.qpDb, x.qpOks);
    hide CreateResult;
  }

  /** Otherwise it returns the error of step `n`, the first that failed. */
  lemma MainFirstError(x: Script, n: nat)
    requires x.Valid() && n < 6
    ensures var results := [x.initRet, CreateResult(x.cqQuery, x.cqDb, x.cqOks),
                            CreateResult(x.qpQuery, x.qpDb, x.qpOks), x.exchange, x.move, x.traffic];
            (forall i :: 0 <= i < n ==> results[i] == 0) && results[n] != 0 ==> MainResult(x) == results[n]
  {
    hide CreateResult;
    var results := [x.initRet, CreateResult(x.cqQuery, x.cqDb, x.cqOks), CreateResult(x.qpQuery, x.qpDb, x.qpOks),
                    x.exchange, x.move, x.traffic];
    if (forall i :: 0 <= i < n ==> results[i] == 0) && results[n] != 0 {
      assert forall i :: 0 <= i < n ==> results[i] == 0;
      assert n > 0 ==> results[0] == 0;
      assert n > 1 ==> results[1] == 0;
      assert n > 2 ==> results[2] == 0;
      assert n > 3 ==> results[3] == 0;
      assert n > 4 ==> results[4] == 0;
    }
  }

  /** The client's `main`: on every path it ends with nothing live, and what it released
      is what it acquired, in reverse. */
  method ClientMain(p: Platform, cq: Queue, qp: Queue, x: Script) returns (ret: int)
    requires x.Valid() && cq != qp && !cq.dbSet && !cq.bufSet && !qp.dbSet && !qp.bufSet
    modifies p, cq, qp
    ensures ret == MainResult(x)
    ensures ret == 0 <==>
              && x.initRet == x.cqQuery == x.qpQuery == x.exchange == x.move == x.traffic == 0
              && forall i :: 0 <= i < 6 ==> x.cqOks[i] && x.qpOks[i]
    ensures p.live == old(p.live) && p.history == old(p.history) + MainEvents(x)
  {
    MainIs(x);
    hide Bracket, Successes, CreateResult;
    ghost var base, h0 := p.live, p.history;
    var ok := p.Acquire(Ctx, x.initRet == 0);
    if !ok {
      return x.initRet;
    }
    ret := MainWithCtx(p, cq, qp, x);
    p.Release(Ctx);
    Around(h0, [Got(Ctx)], Bracket(ForCq, x.cqQuery, x.cqOks, Bracket(ForQp, x.qpQuery, x.qpOks, [])), [Freed(Ctx)]);
  }

  // ---------- each once ----------

  function Count(h: seq<Event>, e: Event): nat {
    if h == [] then 0 else (if h[0] == e then 1 else 0) + Count(h[1..], e)
  }

  lemma {:induction false} CountAppend(a: seq<Event>, b: seq<Event>, e: Event)
    ensures Count(a + b, e) == Count(a, e) + Count(b, e)
    decreases |a|
  {
    if a == [] {
      assert a + b == b;
    } else {
      assert (a + b)[0] == a[0] && (a + b)[1..] == a[1..] + b;
      CountAppend(a[1..], b, e);
    }
  }

  lemma CountOne(x: Event, e: Event)
    ensures Count([x], e) == if x == e then 1 else 0
  {
    assert [x][1..] == [];
  }

  /** Getting and freeing a sequence count the same, element by element. */
  lemma {:induction false} CountBoth(rs: seq<Resource>, r: Resource)
    ensures Count(Gots(rs), Got(r)) == Count(Frees(rs), Freed(r))
    ensures Count(Gots(rs), Freed(r)) == 0 == Count(Frees(rs), Got(r))
    ensures r !in rs ==> Count(Gots(rs), Got(r)) == 0
    ensures (forall i, j :: 0 <= i < j < |rs| ==> rs[i] != rs[j]) ==> Count(Gots(rs), Got(r)) <= 1
    decreases |rs|
  {
    if rs != [] {
      var n := |rs| - 1;
      var a := rs[..n];
      assert rs[..n + 1] == rs && rs == a + [rs[n]];
      GotsStep(rs, n);
      hide Gots, Frees, Count;
      CountBoth(a, r);
      CountAppend(Gots(a), [Got(rs[n])], Got(r));
      CountAppend(Gots(a), [Got(rs[n])], Freed(r));
      CountAppend([Freed(rs[n])], Frees(a), Got(r));
      CountAppend([Freed(rs[n])], Frees(a), Freed(r));
      CountOne(Got(rs[n]), Got(r));
      CountOne(Got(rs[n]), Freed(r));
      CountOne(Freed(rs[n]), Got(r));
      CountOne(Freed(rs[n]), Freed(r));
    }
  }

  ghost predicate Belongs(o: Owner, r: Resource) {
    if o.ForCq? then r.OfCq? else r.OfQp?
  }

  lemma ChainDistinct(o: Owner, n: nat, r: Resource)
    requires n <= 6
    ensures forall i, j :: 0 <= i < j < n ==> Chain(o)[..n][i] != Chain(o)[..n][j]
    ensures r in Chain(o)[..n] ==> Belongs(o, r)
  {
    var c := Chain(o);
    assert forall i :: 0 <= i < 6 ==> c[i] == Own(o, [Db, DbUmem, Buf, BufUmem, Uar, Obj][i]);
  }

  /** A lifetime counts its own resources once or not at all, and both ways alike; it
      leaves the others to what is inside. */
  lemma BracketCounts(o: Owner, queryRet: int, oks: seq<bool>, inner: seq<Event>, r: Resource)
    requires |oks| == 6
    requires Count(inner, Got(r)) == Count(inner, Freed(r)) <= 1
    requires Belongs(o, r) ==> Count(inner, Got(r)) == 0
    ensures var h := Bracket(o, queryRet, oks, inner);
            && Count(h, Got(r)) == Count(h, Freed(r)) <= 1
            && (!Belongs(o, r) && Count(inner, Got(r)) == 0 ==> Count(h, Got(r)) == 0)
  {
    var n := if queryRet == 0 then Successes(oks) else 0;
    var rs := Chain(o)[..n];
    assert n == 6 ==> rs == Chain(o);
    var g, f := Gots(rs), Frees(rs);
    assert queryRet != 0 ==> g + f == [];
    hide Gots, Frees, Count, Chain, Successes, Belongs;
    ChainDistinct(o, n, r);
    CountBoth(rs, r);
    CountAppend(g, inner, Got(r));
    CountAppend(g, inner, Freed(r));
    CountAppend(g + inner, f, Got(r));
    CountAppend(g + inner, f, Freed(r));
    CountAppend(g, f, Got(r));
    CountAppend(g, f, Freed(r));
  }

  /** On every path of `main`, each resource acquired is released exactly once, and
      nothing else is released. */
  lemma EachReleasedOnce(x: Script, r: Resource)
    requires x.Valid()
    ensures var h := MainEvents(x); Count(h, Got(r)) == Count(h, Freed(r)) <= 1
  {
    assert Count([], Got(r)) == 0 && Count([], Freed(r)) == 0;
    hide Count, Bracket;
    var inner := Bracket(ForQp, x.qpQuery, x.qpOks, []);
    var outer := Bracket(ForCq, x.cqQuery, x.cqOks, inner);
    BracketCounts(ForQp, x.qpQuery, x.qpOks, [], r);
    BracketCounts(ForCq, x.cqQuery, x.cqOks, inner, r);
    CountAppend([Got(Ctx)], outer, Got(r));
    CountAppend([Got(Ctx)], outer, Freed(r));
    CountAppend([Got(Ctx)] + outer, [Freed(Ctx)], Got(r));
    CountAppend([Got(Ctx)] + outer, [Freed(Ctx)], Freed(r));
    CountOne(Got(Ctx), Got(r));
    CountOne(Got(Ctx), Freed(r));
    CountOne(Freed(Ctx), Got(r));
    CountOne(Freed(Ctx), Freed(r));
  }
}
