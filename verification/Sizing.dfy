/** Queue sizing and layout: calc_rc_send_wqe .. calc_wq_size of pp_dv.c.

    Every C conversion is written out: `uint32_t * int` is a 32-bit unsigned
    product, `size_t` arithmetic is 64-bit, and storing into an `int` keeps 32 bits
    with sign. The results are compared with the plain arithmetic they stand for.
 */
module Sizing {
  import opened Bits
  import opened Ilog
  import opened Util

  const SEND_WQE_BB := 64
  const DATA_SEG := 16
  const INL_SEG := 4
  const SQ_OVERHEAD := 192
  /** The largest power of two an `int` holds. */
  const MAX_RING := 0x4000_0000

  /** The fields of `ibv_qp_cap` that sizing reads, as 32-bit unsigned words. */
  datatype QpCap = QpCap(maxSendWr: nat, maxRecvWr: nat, maxSendSge: nat, maxRecvSge: nat, maxInlineData: nat) {
    ghost predicate Words() {
      && maxSendWr < 0x1_0000_0000 && maxRecvWr < 0x1_0000_0000 && maxSendSge < 0x1_0000_0000
      && maxRecvSge < 0x1_0000_0000 && maxInlineData < 0x1_0000_0000
    }
  }

  /** `struct dv_wq`. */
  class DvWq {
    var wqeCnt: int
    var maxPost: int
    var head: nat
    var tail: nat
    var curPost: nat
    var maxGs: int
    var wqeShift: int
    var offset: int
    var qend: int

    constructor ()
      ensures head == 0 && tail == 0 && curPost == 0
    {
      wqeCnt, maxPost, head, tail, curPost := 0, 0, 0, 0, 0;
      maxGs, wqeShift, offset, qend := 0, 0, 0, 0;
    }
  }

  /** Storing into an `int`. */
  function ToInt(x: int): (r: int)
    ensures -0x8000_0000 <= r < 0x8000_0000
  {
    var u := ToUint(x);
    if u < 0x8000_0000 then u else u - 0x1_0000_0000
  }

  /** Conversion to `uint32_t`. */
  function ToUint(x: int): (r: nat)
    ensures r < 0x1_0000_0000
  {
    x % 0x1_0000_0000
  }

  /** Conversion to `unsigned long`. */
  function ToUlong(x: int): (r: nat)
    ensures r < 0x1_0000_0000_0000_0000
  {
    x % 0x1_0000_0000_0000_0000
  }

  function Max(a: int, b: int): int { if a > b then a else b }

  /** C division truncates toward zero. */
  function CDiv(a: int, b: int): int
    requires b != 0
  {
    if a >= 0 then a / b else -((-a) / b)
  }

  /** The quotient goes toward zero, and the remainder has the sign of the dividend. */
  lemma CDivTruncates(a: int, b: int)
    requires b != 0
    ensures var rest := a - CDiv(a, b) * b;
            if a >= 0 then 0 <= rest < Max(b, -b) else -Max(b, -b) < rest <= 0
  {
    var n := if a >= 0 then a else -a;
    assert n == n / b * b + n % b;
  }

  // ---------- the arithmetic of the code ----------

  function InlSize(inlineData: nat): int {
    ToInt(SQ_OVERHEAD + Align(ToUlong(INL_SEG + inlineData), 16))
  }

  function SgSize(sge: nat): int { ToInt(SQ_OVERHEAD + sge * DATA_SEG) }

  function BlockSize(size: int): int { ToInt(Align(ToUlong(size), SEND_WQE_BB)) }

  /** `calc_rc_send_wqe`, for `max_inline_data > 0`: `inl_size` is unset otherwise. */
  function RcSendWqe(cap: QpCap): int {
    BlockSize(Max(SgSize(cap.maxSendSge), InlSize(cap.maxInlineData)))
  }

  /** The argument `calc_sq_size` rounds: a product of unsigned ints. */
  function SqProduct(cap: QpCap): nat { ToUint(cap.maxSendWr * ToUint(RcSendWqe(cap))) }

  /** Where `calc_sq_size` has a meaning in C: no shift by 64, no division by 0. */
  predicate SqDefined(cap: QpCap) { SqProduct(cap) > 0 && RcSendWqe(cap) != 0 }

  datatype Geometry = Geometry(wqSize: int, wqeCnt: int, wqeShift: int, maxGs: int, maxPost: int)

  function SqGeometry(cap: QpCap): Geometry
    requires SqDefined(cap)
  {
    var wqSize := ToInt(RoundupPowOfTwo(SqProduct(cap)));
    Geometry(wqSize, CDiv(wqSize, SEND_WQE_BB), StaticIlog5(SEND_WQE_BB) - 1, cap.maxSendSge,
             CDiv(wqSize, RcSendWqe(cap)))
  }

  function RecvSgSize(cap: QpCap): int { ToInt(DATA_SEG * Max(cap.maxRecvSge, 1)) }

  function RecvWqe(cap: QpCap): int
    requires RecvSgSize(cap) > 0
  {
    ToInt(RoundupPowOfTwo(RecvSgSize(cap)))
  }

  predicate RqDefined(cap: QpCap) {
    RecvSgSize(cap) > 0 && RecvWqe(cap) != 0 && 0 < cap.maxRecvWr < 0x1_0000_0000
  }

  /** `calc_rq_size` once the count and the WQE size are rounded. */
  function RqOf(count: nat, wqe: int): Geometry
    requires wqe != 0
  {
    var wqSize := Max(ToInt(count * wqe), SEND_WQE_BB);
    var cnt := CDiv(wqSize, wqe);
    Geometry(wqSize, cnt, Ilog32(ToUint(wqe - 1)), CDiv(wqe, DATA_SEG), Pow2(Ilog32(ToUint(cnt - 1))))
  }

  function RqGeometry(cap: QpCap): Geometry
    requires RqDefined(cap)
  {
    RqOf(RoundupPowOfTwo(cap.maxRecvWr), RecvWqe(cap))
  }

  // ---------- the methods ----------

  method CalcSqSize(sq: DvWq, cap: QpCap) returns (wqSize: int)
    requires SqDefined(cap)
    modifies sq
    ensures var g := SqGeometry(cap);
            && wqSize == g.wqSize && sq.wqeCnt == g.wqeCnt && sq.wqeShift == g.wqeShift
            && sq.maxGs == g.maxGs && sq.maxPost == g.maxPost
    ensures sq.head == old(sq.head) && sq.tail == old(sq.tail) && sq.curPost == old(sq.curPost)
  {
    hide Pow2, RcSendWqe, ToInt, StaticIlog5, CDiv, RoundupPowOfTwo;
    var wqeSize := RcSendWqe(cap);
    wqSize := ToInt(RoundupPowOfTwo(SqProduct(cap)));
    sq.wqeCnt := CDiv(wqSize, SEND_WQE_BB);
    sq.wqeShift := StaticIlog5(SEND_WQE_BB) - 1;
    sq.maxGs := cap.maxSendSge;
    sq.maxPost := CDiv(wqSize, wqeSize);
  }

  method CalcRqSize(rq: DvWq, cap: QpCap) returns (wqSize: int)
    requires RqDefined(cap)
    modifies rq
    ensures var g := RqGeometry(cap);
            && wqSize == g.wqSize && rq.wqeCnt == g.wqeCnt && rq.wqeShift == g.wqeShift
            && rq.maxGs == g.maxGs && rq.maxPost == g.maxPost
    ensures rq.head == old(rq.head) && rq.tail == old(rq.tail) && rq.curPost == old(rq.curPost)
  {
    hide Pow2, RecvSgSize, RecvWqe, ToInt, IlogClz, CDiv, RoundupPowOfTwo;
    var wqeSize := RecvWqe(cap);
    wqSize := ToInt(RoundupPowOfTwo(cap.maxRecvWr) * wqeSize);
    wqSize := Max(wqSize, SEND_WQE_BB);
    rq.wqeCnt := CDiv(wqSize, wqeSize);
    rq.wqeShift := Ilog32(ToUint(wqeSize - 1));
    rq.maxPost := Pow2(Ilog32(ToUint(CDiv(wqSize, wqeSize) - 1)));
    rq.maxGs := CDiv(wqeSize, DATA_SEG);
  }

  /** `calc_wq_size`: the receive ring first, the send ring behind it. */
  method CalcWqSize(rq: DvWq, sq: DvWq, cap: QpCap) returns (total: int)
    requires rq != sq && SqDefined(cap) && RqDefined(cap)
    modifies rq, sq
    ensures var r, s := RqGeometry(cap), SqGeometry(cap);
            && total == ToInt(s.wqSize + r.wqSize)
            && rq.offset == 0 && sq.offset == r.wqSize
            && sq.wqeCnt == s.wqeCnt && sq.wqeShift == s.wqeShift && sq.maxPost == s.maxPost && sq.maxGs == s.maxGs
            && rq.wqeCnt == r.wqeCnt && rq.wqeShift == r.wqeShift && rq.maxPost == r.maxPost && rq.maxGs == r.maxGs
  {
    hide *;
    total := CalcSqSize(sq, cap);
    var ret := CalcRqSize(rq, cap);
    total := ToInt(total + ret);
    rq.offset := 0;
    sq.offset := ret;
  }

  // ---------- the sizes meant ----------

  function CeilTo(x: nat, m: nat): nat
    requires m > 0
  {
    FloorTo(x + m - 1, m)
  }

  /** Bytes one send WQE may need, without any truncation. */
  function SendWqeBytes(cap: QpCap): nat {
    CeilTo(MostBytes(cap), SEND_WQE_BB)
  }

  /** Bytes the send ring must hold. */
  function SqNeed(cap: QpCap): nat { cap.maxSendWr * SendWqeBytes(cap) }

  function MostBytes(cap: QpCap): nat {
    Max(SQ_OVERHEAD + cap.maxSendSge * DATA_SEG, SQ_OVERHEAD + CeilTo(INL_SEG + cap.maxInlineData, 16))
  }

  /** What a caller can check: the send ring asked for fits 2^30 bytes. */
  predicate SqFits(cap: QpCap) {
    cap.maxSendWr > 0 && SqNeed(cap) <= MAX_RING
  }

  function Segments(cap: QpCap): nat { DATA_SEG * Max(cap.maxRecvSge, 1) }

  predicate RqArgs(cap: QpCap) {
    0 < cap.maxRecvWr <= MAX_RING && Segments(cap) <= MAX_RING
  }

  /** Bytes of the receive ring: both factors rounded up to powers of two. */
  function RqNeed(cap: QpCap): nat
    requires RqArgs(cap)
  {
    Product(RoundupPowOfTwo(cap.maxRecvWr), RoundupPowOfTwo(Segments(cap)))
  }

  function Product(a: nat, b: nat): nat { a * b }

  predicate RqFits(cap: QpCap) {
    RqArgs(cap) && RqNeed(cap) <= MAX_RING
  }

  /** The sizes in plain numbers: a send WQE is 192 bytes and 16 a segment, or 192 and
      inline data with its 4 bytes of header in whole 16 bytes, whichever is more, in
      whole blocks of 64; a receive WQE is 16 bytes a segment, of which there is one at
      least; a ring is at most 2^30 bytes. */
  lemma SizesMeant(cap: QpCap)
    ensures var a, b := 192 + 16 * cap.maxSendSge, 192 + (cap.maxInlineData + 19) / 16 * 16;
            && SendWqeBytes(cap) % 64 == 0
            && SendWqeBytes(cap) - 64 < (if a > b then a else b) <= SendWqeBytes(cap)
    ensures Segments(cap) == if cap.maxRecvSge == 0 then 16 else 16 * cap.maxRecvSge
    ensures SqNeed(cap) == cap.maxSendWr * SendWqeBytes(cap)
    ensures RqArgs(cap) ==> RqNeed(cap) == RoundupPowOfTwo(cap.maxRecvWr) * RoundupPowOfTwo(Segments(cap))
    ensures SqFits(cap) <==> 0 < cap.maxSendWr && cap.maxSendWr * SendWqeBytes(cap) <= 0x4000_0000
    ensures RqFits(cap) <==>
              && 0 < cap.maxRecvWr <= 0x4000_0000 && Segments(cap) <= 0x4000_0000
              && RoundupPowOfTwo(cap.maxRecvWr) * RoundupPowOfTwo(Segments(cap)) <= 0x4000_0000
  {
    SendWqeMeant(cap);
    hide RoundupPowOfTwo, SendWqeBytes;
  }

  lemma SendWqeMeant(cap: QpCap)
    ensures var a, b := 192 + 16 * cap.maxSendSge, 192 + (cap.maxInlineData + 19) / 16 * 16;
            && SendWqeBytes(cap) % 64 == 0
            && SendWqeBytes(cap) - 64 < (if a > b then a else b) <= SendWqeBytes(cap)
  {
    hide CeilTo;
    CeilMeant(INL_SEG + cap.maxInlineData, 16);
    CeilBounds(MostBytes(cap), 64);
    hide MostBytes;
    CeilMeant(MostBytes(cap), 64);
  }

  lemma CeilMeant(x: nat, m: nat)
    requires m > 0
    ensures CeilTo(x, m) == (x + m - 1) / m * m && CeilTo(x, m) % m == 0
  {
    var q := (x + m - 1) / m;
    ModShift(0, q, m);
    DivModUnique(0, m, 0, 0);
  }

  // ---------- conversions that lose nothing ----------

  /** A power of two stored in an int is at most 2^30, and at most 0 if it was more. */
  lemma IntOfPow2(p: nat)
    requires IsPow2(p)
    ensures ToInt(p) == p || ToInt(p) <= 0
    ensures ToInt(p) <= MAX_RING
    ensures p > MAX_RING ==> ToInt(p) <= 0
  {
    hide Pow2;
    var k: nat :| p == Pow2(k);
    Pow2Values();
    Pow2Order(k, 30);
    Pow2Order(k, 31);
    if k >= 32 {
      Pow2Add(32, k - 32);
      DivModUnique(p, 0x1_0000_0000, Pow2(k - 32), 0);
    }
  }

  lemma CeilBounds(x: nat, m: nat)
    requires m > 0
    ensures x <= CeilTo(x, m) < x + m && Multiple(CeilTo(x, m), m)
  {
    RoundDown(x + m - 1, m);
  }

  /** Alignment in words of 64 bits is plain rounding up while the value is small. */
  lemma AlignIsCeil(x: nat, k: nat, a: nat)
    requires k <= 6 && a == Pow2(k) && x < 0x100_0000_0000
    ensures 0 < a <= 64
    ensures Align(ToUlong(x), a) == CeilTo(x, a)
  {
    hide Pow2, And, AlignWord, FloorTo, Wrap;
    Pow2Order(k, 6);
    Pow2Values();
    AlignForm(64, x, k);
    WrapKeeps(64, x + a - 1);
  }

  lemma IntKeeps(x: nat)
    requires x < 0x8000_0000
    ensures ToInt(x) == x
  {
  }

  // ---------- the send ring ----------

  lemma SendWqeBytesBounds(cap: QpCap)
    requires cap.maxInlineData > 0
    ensures SendWqeBytes(cap) >= 256 && MostBytes(cap) <= SendWqeBytes(cap)
    ensures SQ_OVERHEAD + cap.maxSendSge * DATA_SEG <= MostBytes(cap)
    ensures SQ_OVERHEAD + CeilTo(INL_SEG + cap.maxInlineData, 16) <= MostBytes(cap)
  {
    hide CeilTo, FloorTo;
    CeilBounds(INL_SEG + cap.maxInlineData, 16);
    CeilBounds(MostBytes(cap), 64);
  }

  lemma InlSizeExact(d: nat)
    requires SQ_OVERHEAD + CeilTo(INL_SEG + d, 16) <= MAX_RING
    ensures InlSize(d) == SQ_OVERHEAD + CeilTo(INL_SEG + d, 16)
  {
    assert INL_SEG + d <= MAX_RING by { CeilBounds(INL_SEG + d, 16); }
    hide Align, CeilTo, ToUlong, ToInt;
    AlignIsCeil(INL_SEG + d, 4, 16);
    IntKeeps(SQ_OVERHEAD + CeilTo(INL_SEG + d, 16));
  }

  lemma BlockSizeExact(x: nat)
    requires CeilTo(x, 64) <= MAX_RING
    ensures BlockSize(x) == CeilTo(x, 64)
  {
    assert x <= MAX_RING by { CeilBounds(x, 64); }
    hide Align, CeilTo, ToUlong, ToInt;
    AlignIsCeil(x, 6, 64);
    IntKeeps(CeilTo(x, 64));
  }

  /** In range, no conversion of calc_rc_send_wqe loses anything. */
  lemma RcSendWqeExact(cap: QpCap)
    requires cap.Words() && cap.maxInlineData > 0 && SendWqeBytes(cap) <= MAX_RING
    ensures RcSendWqe(cap) == SendWqeBytes(cap)
  {
    hide CeilTo, InlSize, SgSize, BlockSize;
    SendWqeBytesBounds(cap);
    InlSizeExact(cap.maxInlineData);
    SgSizeExact(cap.maxSendSge);
    BlockSizeExact(MostBytes(cap));
  }

  lemma SgSizeExact(sge: nat)
    requires SQ_OVERHEAD + sge * DATA_SEG <= MAX_RING
    ensures SgSize(sge) == SQ_OVERHEAD + sge * DATA_SEG
  {
  }

  lemma SqProductExact(cap: QpCap)
    requires cap.Words() && cap.maxInlineData > 0 && SqFits(cap)
    ensures RcSendWqe(cap) == SendWqeBytes(cap) >= 256
    ensures SqProduct(cap) == SqNeed(cap) == cap.maxSendWr * SendWqeBytes(cap)
    ensures SqDefined(cap)
  {
    hide SendWqeBytes, RcSendWqe, ToUint;
    var b := SendWqeBytes(cap);
    SendWqeBytesBounds(cap);
    assert b <= cap.maxSendWr * b by { MulGe(cap.maxSendWr, b); }
    RcSendWqeExact(cap);
    UintKeeps(b);
    UintKeeps(cap.maxSendWr * b);
  }

  lemma UintKeeps(x: nat)
    requires x <= MAX_RING
    ensures ToUint(x) == x
  {
  }

  /** Whole quotients of a power of two that holds `n` blocks of `b` and is less than
      twice that. */
  lemma BlocksHeld(p: nat, n: nat, b: nat)
    requires 64 <= b && n > 0 && n * b <= p < 2 * (n * b)
    ensures n <= p / b < 2 * n && p / b <= p / 64 && p >= 64
  {
    QuotientAtLeast(p, b, n);
    assert 2 * (n * b) == (2 * n) * b;
    QuotientBelow(p, b, 2 * n);
    MulLe(64, b, p / b);
    MulLe(1, n, b);
  }

  lemma Log64()
    ensures StaticIlog5(SEND_WQE_BB) - 1 == 6
  {
    hide StaticIlog5, Pow2;
    Pow2Values();
    assert Pow2(7) == 128 by { Pow2Step(6); }
    StaticIlog32Correct(64);
    BitLengthUnique(64, 7);
  }

  lemma LogOfCount(n: nat)
    requires IsPow2(n) && 0 < n <= MAX_RING
    ensures Pow2(Ilog32(ToUint(n - 1))) == n
  {
    hide Pow2, IlogClz;
    var k: nat :| n == Pow2(k);
    Pow2Values();
    Pow2Order(k, 30);
    IlogOfPow2(k, 32);
  }

  lemma Pow2Quotient(p: nat, q: nat)
    requires IsPow2(p) && IsPow2(q) && q <= p
    ensures q > 0 && p % q == 0 && IsPow2(p / q) && p / q >= 1 && (p / q) * q == p
  {
    hide Pow2;
    var i: nat :| p == Pow2(i);
    var j: nat :| q == Pow2(j);
    Pow2Order(j, i);
    Pow2Add(i - j, j);
    DivModUnique(p, q, Pow2(i - j), 0);
  }

  /** A sound geometry for `wr` requests that need `need` bytes together. */
  ghost predicate SqSound(g: Geometry, wr: nat, need: nat) {
    && g.wqSize > 0 && LeastPow2From(g.wqSize, need)
    && g.wqeShift == 6 && g.wqeCnt * SEND_WQE_BB == g.wqSize
    && g.wqeCnt > 0 && IsPow2(g.wqeCnt)
    && wr <= g.maxPost < 2 * wr
    && g.maxPost <= g.wqeCnt
    && Pow2(Ilog32(ToUint(g.wqeCnt - 1))) == g.wqeCnt
  }

  lemma CountOf(p: nat)
    requires IsPow2(p) && 64 <= p <= MAX_RING
    ensures var c := p / 64; c > 0 && c * 64 == p && IsPow2(c) && Pow2(Ilog32(ToUint(c - 1))) == c
  {
    hide Pow2, IsPow2, IlogClz;
    Pow2Quotient(p, 64) by {
      IsPow2Of(6);
      Pow2Values();
    }
    LogOfCount(p / 64);
  }

  lemma SqSoundFrom(wr: nat, need: nat, g: Geometry)
    requires g.wqSize >= 64 && LeastPow2From(g.wqSize, need) && g.wqSize <= MAX_RING
    requires g.wqeCnt == g.wqSize / SEND_WQE_BB && g.wqeShift == 6
    requires wr <= g.maxPost < 2 * wr && g.maxPost <= g.wqeCnt
    ensures SqSound(g, wr, need)
  {
    hide SqSound, Pow2, IsPow2, LeastPow2From, IlogClz, ToUint, Ilog32;
    LeastIs(g.wqSize, need);
    CountOf(g.wqSize);
    SqSoundIs(g, wr, need);
  }

  lemma SqSoundIs(g: Geometry, wr: nat, need: nat)
    requires g.wqSize > 0 && LeastPow2From(g.wqSize, need)
    requires g.wqeShift == 6 && g.wqeCnt * 64 == g.wqSize && g.wqeCnt > 0 && IsPow2(g.wqeCnt)
    requires wr <= g.maxPost < 2 * wr && g.maxPost <= g.wqeCnt
    requires Pow2(Ilog32(ToUint(g.wqeCnt - 1))) == g.wqeCnt
    ensures SqSound(g, wr, need)
  {
    hide Pow2, IsPow2, LeastPow2From, IlogClz, ToUint, Ilog32;
  }

  /** The send ring is the least power of two that holds the WQEs asked for; its
      count and shift describe the same bytes; `max_post` lies between what was
      asked and twice that; the log told to the device names the same count. */
  lemma SqSizing(cap: QpCap)
    requires cap.Words() && cap.maxInlineData > 0 && SqFits(cap)
    ensures SqDefined(cap) && SqSound(SqGeometry(cap), cap.maxSendWr, SqNeed(cap))
    ensures SqGeometry(cap).maxGs == cap.maxSendSge
  {
    SqProductExact(cap);
    var need := SqNeed(cap);
    hide Pow2, SqNeed, SendWqeBytes, RcSendWqe, SqProduct, RoundupPowOfTwo, LeastPow2From, StaticIlog5;
    hide IsPow2, IlogClz, SqSound;
    RoundupIsLeastPow2(need);
    RoundupBound(need, 30) by { Pow2Values(); }
    var p := RoundupPowOfTwo(need);
    assert p <= MAX_RING by { Pow2Values(); }
    IntKeeps(p);
    Log64();
    LeastIs(p, need);
    BlocksHeld(p, cap.maxSendWr, SendWqeBytes(cap));
    SqSoundFrom(cap.maxSendWr, need, SqGeometry(cap));
  }

  lemma LeastIs(p: nat, n: nat)
    requires LeastPow2From(p, n)
    ensures IsPow2(p) && p >= n
  {
  }

  lemma IsPow2Of(k: nat)
    ensures IsPow2(Pow2(k))
  {
  }

  /** Wherever the code is defined, the ring holds what was asked exactly when the
      request fits 2^30 bytes; beyond that the 32-bit conversions shrink it. */
  lemma SqFitsIsExact(cap: QpCap)
    requires cap.Words() && cap.maxInlineData > 0 && SqDefined(cap)
    ensures SqGeometry(cap).wqSize >= SqNeed(cap) <==> SqFits(cap)
  {
    hide Pow2, SqNeed, SendWqeBytes, RcSendWqe, RoundupPowOfTwo, LeastPow2From, StaticIlog5, IsPow2, ToInt;
    if SqFits(cap) {
      SqSizing(cap);
      LeastIs(SqGeometry(cap).wqSize, SqNeed(cap));
    } else {
      RoundupIsLeastPow2(SqProduct(cap));
      LeastIs(RoundupPowOfTwo(SqProduct(cap)), SqProduct(cap));
      IntOfPow2(RoundupPowOfTwo(SqProduct(cap)));
    }
  }

  // ---------- the receive ring ----------

  /** A sound receive geometry for `wr` requests of `sge` segments. */
  ghost predicate RqSound(g: Geometry, wr: nat, sge: nat) {
    && g.maxGs > 0 && g.maxGs >= sge && g.wqeCnt > 0 && g.maxPost == g.wqeCnt >= wr
    && g.wqSize >= SEND_WQE_BB && Multiple(g.wqSize, SEND_WQE_BB)
    && IsPow2(g.wqeCnt) && IsPow2(g.maxGs * DATA_SEG)
    && g.wqeCnt * (g.maxGs * DATA_SEG) == g.wqSize
    && g.wqeShift >= 4 && Pow2(g.wqeShift) == g.maxGs * DATA_SEG
  }

  lemma Pow2Product(p: nat, q: nat)
    requires IsPow2(p) && IsPow2(q)
    ensures p * q >= 0 && IsPow2(p * q)
  {
    hide Pow2;
    var i: nat :| p == Pow2(i);
    var j: nat :| q == Pow2(j);
    Pow2Add(i, j);
  }

  lemma LargerPow2(p: nat)
    requires IsPow2(p)
    ensures p > 0 && IsPow2(if p > 64 then p else 64)
  {
    IsPow2Of(6);
    assert Pow2(6) == 64;
  }

  lemma StrideLog(stride: nat)
    requires IsPow2(stride) && 16 <= stride <= MAX_RING
    ensures Pow2(Ilog32(ToUint(stride - 1))) == stride && Ilog32(ToUint(stride - 1)) >= 4
  {
    hide Pow2, IlogClz, IsPow2;
    LogOfCount(stride);
    var n := Ilog32(ToUint(stride - 1));
    Pow2Order(4, n);
    Pow2Values();
  }

  lemma StrideOf(cap: QpCap)
    requires cap.Words() && Segments(cap) <= MAX_RING
    ensures RecvSgSize(cap) == Segments(cap) >= 16
    ensures RecvWqe(cap) == RoundupPowOfTwo(Segments(cap)) >= Segments(cap)
    ensures RecvWqe(cap) <= MAX_RING && IsPow2(RecvWqe(cap))
  {
    var n := Segments(cap);
    hide Pow2, IsPow2, RoundupPowOfTwo, LeastPow2From, ToInt, ToUint;
    IntKeeps(n);
    RoundupIsLeastPow2(n);
    LeastIs(RoundupPowOfTwo(n), n);
    RoundupBound(n, 30) by { Pow2Values(); }
    assert RoundupPowOfTwo(n) <= MAX_RING by { Pow2Values(); }
    IntKeeps(RoundupPowOfTwo(n));
  }

  lemma RingCount(count: nat, stride: nat, size: nat)
    requires IsPow2(count) && IsPow2(stride) && 16 <= stride && count * stride <= MAX_RING
    requires size == Max(count * stride, 64)
    ensures var cnt := size / stride;
            cnt * stride == size && IsPow2(cnt) && count <= cnt && 0 < cnt <= MAX_RING
    ensures Multiple(size, 64)
  {
    hide Pow2, IsPow2;
    var p := count * stride;
    Pow2Product(count, stride);
    LargerPow2(p);
    LargerPow2(count);
    assert stride <= p by { MulGe(count, stride); }
    Pow2Quotient(size, stride);
    QuotientAtLeast(size, stride, count);
    BlockMultiple(size);
    assert size / stride <= size by { MulGe(stride, size / stride); }
  }

  lemma BlockMultiple(size: nat)
    requires IsPow2(size) && size >= 64
    ensures Multiple(size, 64)
  {
    hide Pow2, IsPow2;
    Pow2Quotient(size, 64) by {
      IsPow2Of(6);
      Pow2Values();
    }
  }

  lemma StrideFacts(stride: nat)
    requires IsPow2(stride) && 16 <= stride <= MAX_RING
    ensures stride / 16 * 16 == stride && stride / 16 > 0
    ensures Pow2(Ilog32(ToUint(stride - 1))) == stride && Ilog32(ToUint(stride - 1)) >= 4
  {
    hide Pow2, IsPow2, IlogClz, ToUint;
    StrideLog(stride);
    Pow2Quotient(stride, 16) by {
      IsPow2Of(4);
      Pow2Values();
    }
  }

  lemma RqOfSound(wr: nat, sge: nat, count: nat, stride: nat)
    requires IsPow2(count) && IsPow2(stride) && 16 <= stride
    requires count >= wr && stride >= 16 * sge && count * stride <= MAX_RING
    ensures var g := RqOf(count, stride); RqSound(g, wr, sge) && g.maxGs * DATA_SEG == stride
  {
    hide Pow2, IsPow2, IlogClz, ToUint, Ilog32, ToInt;
    var p := count * stride;
    var size := Max(p, 64);
    RingCount(count, stride, size);
    assert stride <= MAX_RING by { LargerPow2(count); MulGe(count, stride); }
    IntKeeps(p);
    StrideFacts(stride);
    LogOfCount(size / stride);
    assert RqOf(count, stride) ==
           Geometry(size, size / stride, Ilog32(ToUint(stride - 1)), stride / 16,
               Pow2(Ilog32(ToUint(size / stride - 1))));
  }

  /** The receive ring: count and stride are powers of two that multiply to its
      size, the shift is the stride's log, every request asked for fits in count and
      in segments, and all of it may be posted. */
  lemma RqSizing(cap: QpCap)
    requires cap.Words() && RqFits(cap)
    ensures RqDefined(cap) && RqSound(RqGeometry(cap), cap.maxRecvWr, cap.maxRecvSge)
    ensures RecvWqe(cap) == RqGeometry(cap).maxGs * DATA_SEG
  {
    StrideOf(cap);
    var count, stride := RoundupPowOfTwo(cap.maxRecvWr), RecvWqe(cap);
    assert count * stride == RqNeed(cap) && stride >= 16 * cap.maxRecvSge;
    hide Pow2, IsPow2, RoundupPowOfTwo, LeastPow2From, RecvWqe, RqSound, RqNeed, Segments, RqOf;
    RoundupIsLeastPow2(cap.maxRecvWr);
    LeastIs(count, cap.maxRecvWr);
    RqOfSound(cap.maxRecvWr, cap.maxRecvSge, count, stride);
  }

  /** Beyond 2^30 bytes the product collapses in the int and a single block is left. */
  lemma RqOfCollapsed(wr: nat, count: nat, stride: nat)
    requires IsPow2(count) && IsPow2(stride) && stride >= 16
    requires count < 2 * wr && count * stride > MAX_RING
    ensures RqOf(count, stride).wqeCnt < wr
  {
    hide Pow2, IsPow2, IlogClz, ToUint, Ilog32, ToInt;
    Pow2Product(count, stride);
    IntOfPow2(count * stride);
    assert RqOf(count, stride).wqSize == 64;
    MulLe(count, 2 * wr, stride);
    assert 2 * wr * stride == 2 * (wr * stride);
    QuotientBelow(64, stride, wr);
  }

  lemma SegmentsTooMany(cap: QpCap)
    requires cap.Words() && RqDefined(cap) && Segments(cap) > MAX_RING
    ensures RqGeometry(cap).maxGs < cap.maxRecvSge
  {
    hide Pow2, IsPow2, IlogClz, ToUint, ToInt, Ilog32, RoundupPowOfTwo, LeastPow2From;
    RoundupIsLeastPow2(RecvSgSize(cap));
    LeastIs(RoundupPowOfTwo(RecvSgSize(cap)), RecvSgSize(cap));
    IntOfPow2(RoundupPowOfTwo(RecvSgSize(cap)));
  }

  /** Wherever the code is defined, the receive ring has the requests and the segments
      asked for exactly when the rounded request fits 2^30 bytes. */
  lemma RqFitsIsExact(cap: QpCap)
    requires cap.Words() && RqDefined(cap)
    ensures RqGeometry(cap).wqeCnt >= cap.maxRecvWr && RqGeometry(cap).maxGs >= cap.maxRecvSge <==> RqFits(cap)
  {
    hide Pow2, IsPow2, RoundupPowOfTwo, LeastPow2From, RqOf, RecvWqe, Segments, Product;
    if RqFits(cap) {
      RqSizing(cap);
    } else if Segments(cap) > MAX_RING {
      SegmentsTooMany(cap);
    } else {
      StrideOf(cap);
      var count, stride := RoundupPowOfTwo(cap.maxRecvWr), RecvWqe(cap);
      RoundupIsLeastPow2(cap.maxRecvWr);
      LeastIs(count, cap.maxRecvWr);
      assert count * stride > MAX_RING by { TooLarge(cap); }
      RqOfCollapsed(cap.maxRecvWr, count, stride);
    }
  }

  lemma TooLarge(cap: QpCap)
    requires cap.Words() && RqDefined(cap) && Segments(cap) <= MAX_RING && !RqFits(cap)
    ensures RoundupPowOfTwo(cap.maxRecvWr) * RecvWqe(cap) > MAX_RING
  {
    hide Pow2, IsPow2, RoundupPowOfTwo, LeastPow2From, RecvWqe, Segments;
    StrideOf(cap);
    RoundupIsLeastPow2(cap.maxRecvWr);
    LeastIs(RoundupPowOfTwo(cap.maxRecvWr), cap.maxRecvWr);
    if cap.maxRecvWr > MAX_RING {
      MulGe(RecvWqe(cap), RoundupPowOfTwo(cap.maxRecvWr));
    }
  }

  /** What was asked may be posted, and what may be posted has slots. */
  lemma SoundCounts(cap: QpCap)
    requires SqDefined(cap) && SqSound(SqGeometry(cap), cap.maxSendWr, SqNeed(cap))
    requires RqDefined(cap) && RqSound(RqGeometry(cap), cap.maxRecvWr, cap.maxRecvSge)
    ensures cap.maxSendWr <= SqGeometry(cap).maxPost <= SqGeometry(cap).wqeCnt
    ensures cap.maxRecvWr <= RqGeometry(cap).wqeCnt
  {
    hide SqGeometry, RqGeometry, SqDefined, RqDefined, LeastPow2From, IsPow2, IlogClz, Ilog32, Pow2, SqNeed;
  }

  // ---------- what the device is told ----------

  /** `log_rq_size` and `log_sq_size` are 4-bit fields: the device reads the true
      count back exactly when it is at most 2^15. */
  lemma CountFieldExact(cnt: nat)
    requires IsPow2(cnt) && 0 < cnt <= MAX_RING
    ensures Pow2(Ilog32(ToUint(cnt - 1)) % 16) == cnt <==> cnt <= 0x8000
  {
    hide Pow2, IsPow2, IlogClz, ToUint;
    LogOfCount(cnt);
    var n := Ilog32(ToUint(cnt - 1));
    Pow2Values();
    Pow2Order(n, 15);
    Pow2Order(n % 16, 15);
  }

  /** `log_rq_stride` is a 3-bit field counting from 16 bytes: the device reads the
      true stride back exactly when the shift is at most 11. */
  lemma StrideFieldExact(shift: nat)
    requires shift >= 4
    ensures 16 * Pow2((shift - 4) % 8) == Pow2(shift) <==> shift <= 11
  {
    hide Pow2;
    var f := (shift - 4) % 8;
    Pow2Values();
    Pow2Add(4, f);
    Pow2Order(4 + f, shift);
  }

  // ---------- layout ----------

  /** `dvqp->buflen`: the `int` total goes through `unsigned long` into an `ssize_t`. */
  function Buflen(total: int, page: nat): int
    requires 0 < page <= TWO_TO_63
  {
    ToSigned(64, Align(ToUlong(total), page))
  }

  /** What `calc_wq_size` returns. */
  function WqTotal(cap: QpCap): int
    requires SqDefined(cap) && RqDefined(cap)
  {
    ToInt(SqGeometry(cap).wqSize + RqGeometry(cap).wqSize)
  }

  /** The plain sum of both rings. */
  function WqBytes(cap: QpCap): int
    requires SqDefined(cap) && RqDefined(cap)
  {
    SqGeometry(cap).wqSize + RqGeometry(cap).wqSize
  }

  /** Ring sizes that each fit are at most 2^30, and both are multiples of a block. */
  lemma RingSizes(cap: QpCap)
    requires cap.Words() && cap.maxInlineData > 0 && SqFits(cap) && RqFits(cap)
    ensures SqDefined(cap) && RqDefined(cap)
    ensures var r, s := RqGeometry(cap), SqGeometry(cap);
            && 64 <= r.wqSize <= MAX_RING && 0 < s.wqSize <= MAX_RING
            && r.wqSize == r.wqeCnt * (r.maxGs * 16) && s.wqSize == s.wqeCnt * 64
            && r.wqSize % 64 == 0
  {
    hide *;
    SqSizing(cap);
    RqSizing(cap);
    SqSoundSize(SqGeometry(cap), cap.maxSendWr, SqNeed(cap));
    RqSoundSize(RqGeometry(cap), cap.maxRecvWr, cap.maxRecvSge);
    RqSizeIs(cap);
    SqSizeInt(cap);
  }

  lemma SqSoundSize(g: Geometry, wr: nat, need: nat)
    requires SqSound(g, wr, need)
    ensures g.wqSize > 0 && g.wqSize == g.wqeCnt * 64 && g.wqSize >= need
  {
    hide IlogClz, Pow2, IsPow2;
  }

  lemma RqSoundSize(g: Geometry, wr: nat, sge: nat)
    requires RqSound(g, wr, sge)
    ensures g.wqSize >= 64 && g.wqSize == g.wqeCnt * (g.maxGs * 16) && g.wqSize % 64 == 0
  {
    hide IlogClz, Pow2, IsPow2;
  }

  lemma SqSizeInt(cap: QpCap)
    requires SqDefined(cap)
    ensures SqGeometry(cap).wqSize <= MAX_RING
  {
    var p := RoundupPowOfTwo(SqProduct(cap));
    RoundupIsLeastPow2(SqProduct(cap));
    LeastIs(p, SqProduct(cap));
    hide Pow2, IsPow2, LeastPow2From, RoundupPowOfTwo, RcSendWqe, SqProduct, ToInt, CDiv;
    IntOfPow2(p);
  }

  lemma RqSizeIs(cap: QpCap)
    requires cap.Words() && RqFits(cap)
    ensures RqDefined(cap) && RqGeometry(cap).wqSize == Max(RqNeed(cap), SEND_WQE_BB) <= MAX_RING
  {
    RqSizing(cap);
    StrideOf(cap);
    assert RqNeed(cap) == RoundupPowOfTwo(cap.maxRecvWr) * RecvWqe(cap);
    hide Pow2, IlogClz, ToUint, Ilog32, RoundupPowOfTwo, LeastPow2From, IsPow2, RecvWqe, ToInt;
    IntKeeps(RqNeed(cap));
  }

  /** What a caller can check: each ring fits, and together they overflow an `int`. */
  predicate BothLargest(cap: QpCap)
    requires RqArgs(cap)
  {
    SqNeed(cap) > MAX_RING / 2 && RqNeed(cap) == MAX_RING
  }

  /** Only a request for more than half of the largest send ring gets that ring. */
  lemma LargestSendRing(size: int, need: nat)
    requires 0 < size <= MAX_RING && LeastPow2From(size, need)
    ensures size == MAX_RING <==> need > MAX_RING / 2
  {
    hide Pow2;
    Pow2Values();
    assert Pow2(29) == 0x2000_0000 by { Pow2Step(29); }
    IsPow2Of(29);
    var k: nat :| size == Pow2(k);
    Pow2Order(k, 29);
    Pow2Order(30, k);
  }

  lemma SqSoundLeast(g: Geometry, wr: nat, need: nat)
    requires SqSound(g, wr, need)
    ensures LeastPow2From(g.wqSize, need)
  {
    hide LeastPow2From, IlogClz, Pow2, IsPow2;
  }

  lemma OverflowIff(cap: QpCap)
    requires cap.Words() && cap.maxInlineData > 0 && SqFits(cap) && RqFits(cap)
    ensures RqArgs(cap) && SqDefined(cap) && RqDefined(cap)
    ensures WqBytes(cap) >= 0x8000_0000 <==> BothLargest(cap)
  {
    assert RqArgs(cap);
    assert BothLargest(cap) <==> SqNeed(cap) > MAX_RING / 2 && RqNeed(cap) == MAX_RING;
    LargestIsMax();
    hide *;
    SqSizing(cap);
    RingSizes(cap);
    RqSizeIs(cap);
    SqSoundLeast(SqGeometry(cap), cap.maxSendWr, SqNeed(cap));
    LargestSendRing(SqGeometry(cap).wqSize, SqNeed(cap));
    TotalIs(cap);
    MaxIs(RqNeed(cap));
  }

  lemma LargestIsMax()
    ensures MAX_RING == 0x4000_0000 && SEND_WQE_BB == 64
  {
  }

  lemma MaxIs(x: nat)
    ensures Max(x, SEND_WQE_BB) == if x > 64 then x else 64
  {
  }

  /** The layout: the receive ring `[0, r.wqSize)`, then the send ring, each whole basic
      blocks. Together they fit the page-aligned buffer, and the `int` total is their
      sum, unless both are the largest there is: two rings of 2^30, each of which fits,
      make the total negative. `page` is 2^k. */
  lemma Layout(cap: QpCap, k: nat, page: nat)
    requires cap.Words() && cap.maxInlineData > 0 && SqFits(cap) && RqFits(cap)
    requires k <= 30 && page == Pow2(k)
    ensures 0 < page <= TWO_TO_63 && SqDefined(cap) && RqDefined(cap)
    ensures var r, s := RqGeometry(cap), SqGeometry(cap);
            && r.wqSize == r.wqeCnt * (r.maxGs * 16) && s.wqSize == s.wqeCnt * 64 && r.wqSize % 64 == 0
            && WqBytes(cap) == r.wqSize + s.wqSize
    ensures RqArgs(cap) && (WqBytes(cap) >= 0x8000_0000 <==> BothLargest(cap))
    ensures WqTotal(cap) == WqBytes(cap) <==> !BothLargest(cap)
    ensures Buflen(WqTotal(cap), page) >= WqBytes(cap) <==> !BothLargest(cap)
    ensures 0 <= Buflen(WqTotal(cap), page) <==> !BothLargest(cap)
  {
    hide *;
    RingSizes(cap);
    TotalIs(cap);
    OverflowIff(cap);
    if WqBytes(cap) < 0x8000_0000 {
      BuflenHolds(WqBytes(cap), k, page);
    } else {
      BuflenNegative(k, page);
    }
  }

  lemma TotalIs(cap: QpCap)
    requires SqDefined(cap) && RqDefined(cap)
    requires 0 <= SqGeometry(cap).wqSize <= MAX_RING && 0 <= RqGeometry(cap).wqSize <= MAX_RING
    ensures MAX_RING == 0x4000_0000 && WqBytes(cap) == SqGeometry(cap).wqSize + RqGeometry(cap).wqSize
    ensures WqTotal(cap) == if WqBytes(cap) < 0x8000_0000 then WqBytes(cap) else -0x8000_0000
  {
    hide SqGeometry, RqGeometry, SqDefined, RqDefined;
  }

  lemma BuflenHolds(total: nat, k: nat, page: nat)
    requires k <= 30 && page == Pow2(k) && total < 0x8000_0000
    ensures 0 < page <= TWO_TO_63
    ensures total <= Align(ToUlong(total), page) == Buflen(total, page)
  {
    hide Pow2, Wrap, Not, And, FloorTo, AlignWord;
    Pow2Values();
    Pow2Order(k, 30);
    AlignForm(64, total, k);
    WrapKeeps(64, total + page - 1);
    AlignIsLeastMultiple(total, k);
    LeastMultipleIs(Align(total, page), total, page);
    assert Align(total, page) <= total + page - 1 by { FloorBelow(total + page - 1, page); }
    SignedKeeps(Align(total, page));
  }

  lemma FloorBelow(s: nat, a: nat)
    requires a > 0
    ensures FloorTo(s, a) <= s
  {
  }

  lemma SignedKeeps(x: nat)
    requires x < TWO_TO_63
    ensures ToSigned(64, x) == x
  {
    hide Pow2;
    Pow2Values();
    WrapKeeps(64, x);
  }

  /** The overflown total is a multiple of every page, and stays negative. */
  lemma BuflenNegative(k: nat, page: nat)
    requires k <= 30 && page == Pow2(k)
    ensures 0 < page <= TWO_TO_63
    ensures Buflen(-0x8000_0000, page) == -0x8000_0000
  {
    hide Pow2, Wrap, Not, And, FloorTo, AlignWord, LeastMultipleFrom;
    Pow2Values();
    Pow2Order(k, 30);
    Pow2Add(k, 31 - k);
    Pow2Add(k, 64 - k);
    var v := 0xffff_ffff_8000_0000;
    assert ToUlong(-0x8000_0000) == v;
    assert Multiple(v, page) by {
      DivModUnique(v, page, Pow2(64 - k) - Pow2(31 - k), 0) by {
        Distribute(Pow2(64 - k), Pow2(31 - k), page);
        Pow2Order(31 - k, 64 - k);
      }
    }
    AlignIsLeastMultiple(v, k);
    LeastOfMultiple(Align(v, page), v, page);
    SignedBack();
  }

  lemma Distribute(a: int, b: int, p: int)
    ensures (a - b) * p == p * a - p * b
  {
  }

  lemma LeastOfMultiple(r: nat, v: nat, a: nat)
    requires a > 0 && Multiple(v, a) && LeastMultipleFrom(r, v, a)
    ensures r == v
  {
  }

  lemma SignedBack()
    ensures ToSigned(64, 0xffff_ffff_8000_0000) == -0x8000_0000
  {
    hide Pow2;
    Pow2Values();
    WrapKeeps(64, 0xffff_ffff_8000_0000);
  }

  lemma RoundsToItself(k: nat)
    requires k <= 63
    ensures Pow2(k) <= TWO_TO_63 && RoundupPowOfTwo(Pow2(k)) == Pow2(k)
  {
    hide Pow2, RoundupPowOfTwo;
    RoundupBound(Pow2(k), k);
  }

  /** An input for which both queues fit and the total overflows. */
  lemma LayoutOverflows()
    ensures var cap := QpCap(0x40_0000, 0x400_0000, 1, 1, 1);
            && cap.Words() && SqFits(cap) && RqFits(cap) && SqDefined(cap) && RqDefined(cap)
            && SqGeometry(cap).wqSize == RqGeometry(cap).wqSize == MAX_RING
            && WqTotal(cap) == -0x8000_0000
  {
    var cap := QpCap(0x40_0000, 0x400_0000, 1, 1, 1);
    OverflowNeeds();
    hide *;
    RqSizeIs(cap);
    RingSizes(cap);
    SqSizing(cap);
    SqSoundSize(SqGeometry(cap), cap.maxSendWr, SqNeed(cap));
    TotalIs(cap);
  }

  lemma OverflowNeeds()
    ensures var cap := QpCap(0x40_0000, 0x400_0000, 1, 1, 1);
            && cap.Words() && SqFits(cap) && RqFits(cap) && MAX_RING == 0x4000_0000 && SEND_WQE_BB == 64
            && SqNeed(cap) == MAX_RING == RqNeed(cap) == Max(RqNeed(cap), SEND_WQE_BB)
  {
    var cap := QpCap(0x40_0000, 0x400_0000, 1, 1, 1);
    assert SqNeed(cap) == MAX_RING && Segments(cap) == 16;
    hide Pow2, RoundupPowOfTwo, SqGeometry, RqGeometry, SqDefined, RqDefined;
    Pow2Values();
    Pow2Add(24, 2);
    assert Pow2(2) == 4 by { Pow2Add(2, 2); Pow2Step(0); Pow2Step(1); }
    RoundsToItself(26);
    RoundsToItself(4);
    assert RqNeed(cap) == MAX_RING && RqFits(cap) && SqFits(cap);
  }

  lemma LeastMultipleIs(r: nat, v: nat, a: nat)
    requires a > 0 && LeastMultipleFrom(r, v, a)
    ensures r >= v
  {
  }
}
