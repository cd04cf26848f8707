/** `pp_exchange_info`: each side sends one record of bytes and decodes the other's.

    `htobe32` and its kin act on numbers; what travels is how the host lays the number
    out in memory. Both are modelled for either byte order, so a record written by one
    host is read by another of any order.
 */
module Exchange {
  import Bits

  datatype Endian = Little | Big

  const RECORD_BUF := 4096
  const OFF_QPN := 0
  const OFF_PSN := 4
  const OFF_GID := 8
  const OFF_LID := 24
  const OFF_ADDR := 32

  // ---------- numbers in memory ----------

  predicate IsBytes(b: seq<nat>) { forall i :: 0 <= i < |b| ==> b[i] < 256 }

  function Be32(x: nat): (b: seq<nat>)
    ensures |b| == 4 && IsBytes(b)
  {
    [x / 0x100_0000 % 256, x / 0x1_0000 % 256, x / 0x100 % 256, x % 256]
  }

  function Of32(b: seq<nat>): (x: nat)
    requires |b| == 4
  {
    ((b[0] * 256 + b[1]) * 256 + b[2]) * 256 + b[3]
  }

  function Reversed4(b: seq<nat>): (r: seq<nat>)
    requires |b| == 4
    ensures |r| == 4
  {
    [b[3], b[2], b[1], b[0]]
  }

  /** A 32-bit word in the memory of a host, and read from it. */
  function Store32(e: Endian, x: nat): (b: seq<nat>)
    ensures |b| == 4 && IsBytes(b)
  {
    if e.Big? then Be32(x) else Reversed4(Be32(x))
  }

  function Load32(e: Endian, b: seq<nat>): nat
    requires |b| == 4
  {
    if e.Big? then Of32(b) else Of32(Reversed4(b))
  }

  /** `htobe32`, which is also `be32toh`. */
  function Swap32(e: Endian, x: nat): nat {
    if e.Big? then x else Of32(Reversed4(Be32(x)))
  }

  function Be64(x: nat): (b: seq<nat>)
    ensures |b| == 8 && IsBytes(b)
  {
    Be32(x / 0x1_0000_0000) + Be32(x % 0x1_0000_0000)
  }

  function Of64(b: seq<nat>): nat
    requires |b| == 8
  {
    Of32(b[..4]) * 0x1_0000_0000 + Of32(b[4..])
  }

  function Reversed8(b: seq<nat>): (r: seq<nat>)
    requires |b| == 8
    ensures |r| == 8
  {
    Reversed4(b[4..]) + Reversed4(b[..4])
  }

  function Store64(e: Endian, x: nat): (b: seq<nat>)
    ensures |b| == 8
  {
    if e.Big? then Be64(x) else Reversed8(Be64(x))
  }

  function Load64(e: Endian, b: seq<nat>): nat
    requires |b| == 8
  {
    if e.Big? then Of64(b) else Of64(Reversed8(b))
  }

  /** `htobe64`, which is also `be64toh`. */
  function Swap64(e: Endian, x: nat): nat {
    if e.Big? then x else Of64(Reversed8(Be64(x)))
  }

  lemma Digits(x: nat)
    requires x < 0x1_0000_0000
    ensures x / 0x100_0000 < 256 && x / 0x1_0000 == 256 * (x / 0x100_0000) + x / 0x1_0000 % 256
    ensures x / 0x100 == 256 * (x / 0x1_0000) + x / 0x100 % 256
  {
    Bits.DivMul(x, 0x1_0000, 0x100);
    Bits.DivMul(x, 0x100, 0x100);
  }

  lemma OfBe32(x: nat)
    requires x < 0x1_0000_0000
    ensures Of32(Be32(x)) == x
  {
    Digits(x);
  }

  lemma Peel(hi: nat, lo: nat)
    requires lo < 256
    ensures (hi * 256 + lo) / 256 == hi && (hi * 256 + lo) % 256 == lo
  {
  }

  lemma BeOf32(b: seq<nat>)
    requires |b| == 4 && IsBytes(b)
    ensures Be32(Of32(b)) == b && Of32(b) < 0x1_0000_0000
  {
    var x := Of32(b);
    var h2 := b[0] * 256 + b[1];
    var h3 := h2 * 256 + b[2];
    Peel(b[0], b[1]);
    Peel(h2, b[2]);
    Peel(h3, b[3]);
    Bits.DivMul(x, 0x100, 0x100);
    Bits.DivMul(x, 0x1_0000, 0x100);
  }

  lemma Turn4(b: seq<nat>)
    requires |b| == 4
    ensures Reversed4(Reversed4(b)) == b
  {
  }

  /** What a host stores for `htobe32(x)` is big-endian whatever the host. */
  lemma WireOrder32(e: Endian, x: nat)
    ensures Store32(e, Swap32(e, x)) == Be32(x)
  {
    hide Be32, Of32;
    Turn4(Be32(x));
    if e.Little? { BeOf32(Reversed4(Be32(x))); }
  }

  lemma ReadBack32(e: Endian, x: nat)
    requires x < 0x1_0000_0000
    ensures Swap32(e, Load32(e, Be32(x))) == x
  {
    hide Be32, Of32;
    OfBe32(x);
    Turn4(Be32(x));
    if e.Little? { BeOf32(Reversed4(Be32(x))); }
  }

  lemma Split64(x: nat)
    requires x < 0x1_0000_0000_0000_0000
    ensures x / 0x1_0000_0000 < 0x1_0000_0000
    ensures (x / 0x1_0000_0000) * 0x1_0000_0000 + x % 0x1_0000_0000 == x
  {
  }

  lemma Join64(hi: nat, lo: nat)
    requires lo < 0x1_0000_0000
    ensures (hi * 0x1_0000_0000 + lo) / 0x1_0000_0000 == hi && (hi * 0x1_0000_0000 + lo) % 0x1_0000_0000 == lo
  {
  }

  lemma OfBe64(x: nat)
    requires x < 0x1_0000_0000_0000_0000
    ensures Of64(Be64(x)) == x
  {
    Split64(x);
    hide Be32, Of32;
    OfBe32(x / 0x1_0000_0000);
    OfBe32(x % 0x1_0000_0000);
    assert Be64(x)[..4] == Be32(x / 0x1_0000_0000) && Be64(x)[4..] == Be32(x % 0x1_0000_0000);
  }

  lemma BeOf64(b: seq<nat>)
    requires |b| == 8 && IsBytes(b)
    ensures Be64(Of64(b)) == b
  {
    hide Be32, Of32;
    BeOf32(b[..4]);
    BeOf32(b[4..]);
    Join64(Of32(b[..4]), Of32(b[4..]));
    assert b[..4] + b[4..] == b;
  }

  lemma Turn8(b: seq<nat>)
    requires |b| == 8
    ensures Reversed8(Reversed8(b)) == b
  {
    var r := Reversed8(b);
    assert r[4..] == Reversed4(b[..4]) && r[..4] == Reversed4(b[4..]);
  }

  lemma WireOrder64(e: Endian, x: nat)
    ensures Store64(e, Swap64(e, x)) == Be64(x)
  {
    hide Be64, Of64, Reversed8;
    if e.Little? {
      Turn8(Be64(x));
      assert IsBytes(Reversed8(Be64(x))) by { ReversedBytes(Be64(x)); }
      BeOf64(Reversed8(Be64(x)));
    }
  }

  lemma ReversedBytes(b: seq<nat>)
    requires |b| == 8 && IsBytes(b)
    ensures IsBytes(Reversed8(b))
  {
  }

  lemma ReadBack64(e: Endian, x: nat)
    requires x < 0x1_0000_0000_0000_0000
    ensures Swap64(e, Load64(e, Be64(x))) == x
  {
    hide Be64, Of64, Reversed8;
    OfBe64(x);
    if e.Little? {
      Turn8(Be64(x));
      assert IsBytes(Reversed8(Be64(x))) by { ReversedBytes(Be64(x)); }
      BeOf64(Reversed8(Be64(x)));
    }
  }

  // ---------- byte order in plain numbers ----------

  /** The number whose digits to base 256 are `b`, highest first. */
  function BigEnd(b: seq<nat>): nat {
    if b == [] then 0 else BigEnd(b[..|b| - 1]) * 256 + b[|b| - 1]
  }

  /** The same, lowest first. */
  function LittleEnd(b: seq<nat>): nat {
    if b == [] then 0 else b[0] + 256 * LittleEnd(b[1..])
  }

  function InOrder(e: Endian, b: seq<nat>): nat {
    if e.Big? then BigEnd(b) else LittleEnd(b)
  }

  lemma BigEnd4(b: seq<nat>)
    requires |b| == 4
    ensures BigEnd(b) == Of32(b)
  {
    assert b[..3][..2] == b[..2] && b[..2][..1] == b[..1] && b[..1][..0] == [];
    assert BigEnd(b[..1]) == b[0];
    assert BigEnd(b[..2]) == b[0] * 256 + b[1];
    assert BigEnd(b[..3]) == (b[0] * 256 + b[1]) * 256 + b[2];
  }

  lemma LittleEnd4(b: seq<nat>)
    requires |b| == 4
    ensures LittleEnd(b) == Of32(Reversed4(b))
  {
    assert b[1..][1..] == b[2..] && b[2..][1..] == b[3..] && b[3..][1..] == [];
    assert LittleEnd(b[3..]) == b[3];
    assert LittleEnd(b[2..]) == b[2] + 256 * b[3];
    assert LittleEnd(b[1..]) == b[1] + 256 * (b[2] + 256 * b[3]);
  }

  lemma BigEnd8(b: seq<nat>)
    requires |b| == 8
    ensures BigEnd(b) == Of64(b)
  {
    var h, l := BigEnd(b[..4]), b[4..];
    BigEnd4(b[..4]);
    BigEnd4(l);
    assert b[..7][..6] == b[..6] && b[..6][..5] == b[..5] && b[..5][..4] == b[..4];
    assert BigEnd(b[..5]) == h * 256 + l[0];
    assert BigEnd(b[..6]) == (h * 256 + l[0]) * 256 + l[1];
    assert BigEnd(b[..7]) == ((h * 256 + l[0]) * 256 + l[1]) * 256 + l[2];
  }

  lemma LittleEnd8(b: seq<nat>)
    requires |b| == 8
    ensures LittleEnd(b) == Of64(Reversed8(b))
  {
    var t, r := LittleEnd(b[4..]), Reversed8(b);
    LittleEnd4(b[..4]);
    LittleEnd4(b[4..]);
    assert r[..4] == Reversed4(b[4..]) && r[4..] == Reversed4(b[..4]);
    assert b[1..][1..] == b[2..] && b[2..][1..] == b[3..] && b[3..][1..] == b[4..];
    assert LittleEnd(b[3..]) == b[3] + 256 * t;
    assert LittleEnd(b[2..]) == b[2] + 256 * (b[3] + 256 * t);
    assert LittleEnd(b[1..]) == b[1] + 256 * (b[2] + 256 * (b[3] + 256 * t));
  }

  /** A host stores a word, and reads one, with its digits in the host's own order. */
  lemma HostOrder32(e: Endian, x: nat, b: seq<nat>)
    requires x < 0x1_0000_0000 && |b| == 4
    ensures InOrder(e, Store32(e, x)) == x && Load32(e, b) == InOrder(e, b)
  {
    hide Be32, Of32, Reversed4;
    OfBe32(x);
    Turn4(Be32(x));
    BigEnd4(Be32(x));
    BigEnd4(b);
    LittleEnd4(Reversed4(Be32(x)));
    LittleEnd4(b);
  }

  lemma HostOrder64(e: Endian, x: nat, b: seq<nat>)
    requires x < 0x1_0000_0000_0000_0000 && |b| == 8
    ensures InOrder(e, Store64(e, x)) == x && Load64(e, b) == InOrder(e, b)
  {
    hide Be64, Of64, Reversed8;
    OfBe64(x);
    Turn8(Be64(x));
    BigEnd8(Be64(x));
    BigEnd8(b);
    LittleEnd8(Reversed8(Be64(x)));
    LittleEnd8(b);
  }

  // ---------- the record ----------

  /** What one side tells the other. `PP_MAX_WR` is `|addr|`. */
  datatype Local = Local(ethernet: bool, qpn: nat, psn: nat, gid: seq<nat>, lid: nat, addr: seq<nat>, mrkey: seq<nat>) {
    ghost predicate Valid() {
      && qpn < 0x1_0000_0000 && psn < 0x1_0000_0000 && lid < 0x1_0000_0000
      && |gid| == 16 && IsBytes(gid)
      && |addr| == |mrkey| && OFF_ADDR + 12 * |addr| <= RECORD_BUF
      && (forall i :: 0 <= i < |addr| ==> addr[i] < 0x1_0000_0000_0000_0000 && mrkey[i] < 0x1_0000_0000)
    }
  }

  predicate FieldAt(b: seq<nat>, off: nat, w: seq<nat>) {
    off + |w| <= |b| && b[off..off + |w|] == w
  }

  function OffKey(n: nat): nat { OFF_ADDR + 8 * n }

  /** The record of the first `k` buffers of `l`, field by field, big-endian. */
  ghost predicate Tables(b: seq<nat>, l: Local, k: nat)
    requires |l.addr| == |l.mrkey|
  {
    forall i :: 0 <= i < k && i < |l.addr| ==>
      FieldAt(b, OFF_ADDR + 8 * i, Be64(l.addr[i])) && FieldAt(b, OffKey(|l.addr|) + 4 * i, Be32(l.mrkey[i]))
  }

  /** An Ethernet port sends its gid, any other its lid; the other field stays zero. */
  ghost predicate Heads(b: seq<nat>, l: Local) {
    && FieldAt(b, OFF_QPN, Be32(l.qpn)) && FieldAt(b, OFF_PSN, Be32(l.psn))
    && FieldAt(b, OFF_GID, if l.ethernet then l.gid else seq(16, i => 0))
    && FieldAt(b, OFF_LID, if l.ethernet then Be32(0) else Be32(l.lid))
  }

  ghost predicate Encodes(b: seq<nat>, l: Local)
    requires |l.addr| == |l.mrkey|
  {
    Heads(b, l) && Tables(b, l, |l.addr|)
  }

  /** The record byte by byte: fields of 4, 4, 16 and 4 bytes and 4 of padding, then the
      table of 8-byte addresses and the table of 4-byte keys, highest byte first. */
  lemma RecordTells(b: seq<nat>, l: Local, i: nat)
    requires l.Valid() && Encodes(b, l)
    ensures 28 <= |b| && BigEnd(b[0..4]) == l.qpn && BigEnd(b[4..8]) == l.psn
    ensures b[8..24] == if l.ethernet then l.gid else seq(16, k => 0)
    ensures BigEnd(b[24..28]) == if l.ethernet then 0 else l.lid
    ensures var n := |l.addr|;
            i < n ==>
              && 32 + 8 * n + 4 * i + 4 <= |b|
              && BigEnd(b[32 + 8 * i..32 + 8 * i + 8]) == l.addr[i]
              && BigEnd(b[32 + 8 * n + 4 * i..32 + 8 * n + 4 * i + 4]) == l.mrkey[i]
  {
    hide Be32, Be64, Of32, Of64, BigEnd, IsBytes;
    Carries32(l.qpn);
    Carries32(l.psn);
    Carries32(if l.ethernet then 0 else l.lid);
    if i < |l.addr| {
      Carries64(l.addr[i]);
      Carries32(l.mrkey[i]);
    }
  }

  lemma Carries32(x: nat)
    requires x < 0x1_0000_0000
    ensures BigEnd(Be32(x)) == x
  {
    hide Be32, Of32;
    OfBe32(x);
    BigEnd4(Be32(x));
  }

  lemma Carries64(x: nat)
    requires x < 0x1_0000_0000_0000_0000
    ensures BigEnd(Be64(x)) == x
  {
    hide Be64, Of64;
    OfBe64(x);
    BigEnd8(Be64(x));
  }

  function Splice(b: seq<nat>, off: nat, w: seq<nat>): (r: seq<nat>)
    requires off + |w| <= |b|
    ensures |r| == |b|
  {
    b[..off] + w + b[off + |w|..]
  }

  lemma SpliceField(b: seq<nat>, off: nat, w: seq<nat>, at: nat, v: seq<nat>)
    requires off + |w| <= |b|
    ensures FieldAt(Splice(b, off, w), off, w)
    ensures FieldAt(b, at, v) && (at + |v| <= off || off + |w| <= at) ==> FieldAt(Splice(b, off, w), at, v)
  {
    var r := Splice(b, off, w);
    if FieldAt(b, at, v) && (at + |v| <= off || off + |w| <= at) {
      forall i | 0 <= i < |v|
        ensures r[at + i] == v[i]
      {
        assert b[at..at + |v|][i] == v[i];
      }
    }
  }

  // ---------- filling ----------

  method Put(buf: array<nat>, off: nat, w: seq<nat>)
    requires off + |w| <= buf.Length
    modifies buf
    ensures buf[..] == Splice(old(buf[..]), off, w)
  {
    var i := 0;
    while i < |w|
      invariant 0 <= i <= |w|
      invariant forall j :: 0 <= j < buf.Length ==>
                  buf[j] == if off <= j < off + i then w[j - off] else old(buf[j])
    {
      buf[off + i] := w[i];
      i := i + 1;
    }
  }

  /** `local->f = htobe32(x)`. */
  method Put32(buf: array<nat>, off: nat, e: Endian, x: nat)
    requires off + 4 <= buf.Length
    modifies buf
    ensures buf[..] == Splice(old(buf[..]), off, Be32(x))
  {
    hide Be32, Splice;
    WireOrder32(e, x);
    Put(buf, off, Store32(e, Swap32(e, x)));
  }

  method Put64(buf: array<nat>, off: nat, e: Endian, x: nat)
    requires off + 8 <= buf.Length
    modifies buf
    ensures buf[..] == Splice(old(buf[..]), off, Be64(x))
  {
    hide Be64, Splice;
    WireOrder64(e, x);
    Put(buf, off, Store64(e, Swap64(e, x)));
  }

  lemma ZeroFields(b: seq<nat>)
    requires |b| == RECORD_BUF && forall i :: 0 <= i < |b| ==> b[i] == 0
    ensures FieldAt(b, OFF_GID, seq(16, i => 0)) && FieldAt(b, OFF_LID, Be32(0))
  {
  }

  /** The fixed fields: gid or lid first, then the numbers. */
  method FillHead(buf: array<nat>, e: Endian, l: Local)
    requires l.Valid() && buf.Length == RECORD_BUF && forall i :: 0 <= i < buf.Length ==> buf[i] == 0
    modifies buf
    ensures Heads(buf[..], l)
  {
    ZeroFields(buf[..]);
    hide Be32, Splice, FieldAt;
    var zero := seq(16, i => 0);
    ghost var b0 := buf[..];
    if l.ethernet {
      Put(buf, OFF_GID, l.gid);
      SpliceField(b0, OFF_GID, l.gid, OFF_LID, Be32(0));
    } else {
      Put32(buf, OFF_LID, e, l.lid);
      SpliceField(b0, OFF_LID, Be32(l.lid), OFF_GID, zero);
    }
    ghost var g, d := if l.ethernet then l.gid else zero, if l.ethernet then Be32(0) else Be32(l.lid);
    ghost var b1 := buf[..];
    assert FieldAt(b1, OFF_GID, g) && FieldAt(b1, OFF_LID, d);
    Put32(buf, OFF_QPN, e, l.qpn);
    ghost var b2 := buf[..];
    SpliceField(b1, OFF_QPN, Be32(l.qpn), OFF_GID, g);
    SpliceField(b1, OFF_QPN, Be32(l.qpn), OFF_LID, d);
    Put32(buf, OFF_PSN, e, l.psn);
    SpliceField(b2, OFF_PSN, Be32(l.psn), OFF_GID, g);
    SpliceField(b2, OFF_PSN, Be32(l.psn), OFF_LID, d);
    SpliceField(b2, OFF_PSN, Be32(l.psn), OFF_QPN, Be32(l.qpn));
  }

  lemma HeadKept(b: seq<nat>, l: Local, off: nat, w: seq<nat>)
    requires l.Valid() && Heads(b, l) && OFF_ADDR <= off && off + |w| <= |b|
    ensures Heads(Splice(b, off, w), l)
  {
    hide Be32, Splice, FieldAt;
    SpliceField(b, off, w, OFF_QPN, Be32(l.qpn));
    SpliceField(b, off, w, OFF_PSN, Be32(l.psn));
    SpliceField(b, off, w, OFF_GID, if l.ethernet then l.gid else seq(16, i => 0));
    SpliceField(b, off, w, OFF_LID, if l.ethernet then Be32(0) else Be32(l.lid));
  }

  /** Entry `k` of both tables goes behind the earlier ones. */
  lemma TableStep(b: seq<nat>, l: Local, k: nat)
    requires l.Valid() && k < |l.addr| && |b| == RECORD_BUF && Heads(b, l) && Tables(b, l, k)
    ensures var b1 := Splice(b, OFF_ADDR + 8 * k, Be64(l.addr[k]));
            var b2 := Splice(b1, OffKey(|l.addr|) + 4 * k, Be32(l.mrkey[k]));
            Heads(b2, l) && Tables(b2, l, k + 1)
  {
    hide Be32, Be64, Splice, FieldAt, Heads;
    var n := |l.addr|;
    var b1 := Splice(b, OFF_ADDR + 8 * k, Be64(l.addr[k]));
    var b2 := Splice(b1, OffKey(n) + 4 * k, Be32(l.mrkey[k]));
    HeadKept(b, l, OFF_ADDR + 8 * k, Be64(l.addr[k]));
    HeadKept(b1, l, OffKey(n) + 4 * k, Be32(l.mrkey[k]));
    forall i | 0 <= i < k + 1
      ensures FieldAt(b2, OFF_ADDR + 8 * i, Be64(l.addr[i])) && FieldAt(b2, OffKey(n) + 4 * i, Be32(l.mrkey[i]))
    {
      SpliceField(b, OFF_ADDR + 8 * k, Be64(l.addr[k]), OFF_ADDR + 8 * i, Be64(l.addr[i]));
      SpliceField(b, OFF_ADDR + 8 * k, Be64(l.addr[k]), OffKey(n) + 4 * i, Be32(l.mrkey[i]));
      SpliceField(b1, OffKey(n) + 4 * k, Be32(l.mrkey[k]), OFF_ADDR + 8 * i, Be64(l.addr[i]));
      SpliceField(b1, OffKey(n) + 4 * k, Be32(l.mrkey[k]), OffKey(n) + 4 * i, Be32(l.mrkey[i]));
    }
  }

  /** The sending half, for a host of any byte order. */
  method FillRecord(buf: array<nat>, e: Endian, l: Local)
    requires l.Valid() && buf.Length == RECORD_BUF && forall i :: 0 <= i < buf.Length ==> buf[i] == 0
    modifies buf
    ensures Encodes(buf[..], l)
  {
    hide Be32, Be64, Splice, FieldAt, Heads;
    FillHead(buf, e, l);
    var i := 0;
    while i < |l.addr|
      invariant 0 <= i <= |l.addr|
      invariant Heads(buf[..], l) && Tables(buf[..], l, i)
    {
      TableStep(buf[..], l, i);
      Put64(buf, OFF_ADDR + 8 * i, e, l.addr[i]);
      Put32(buf, OffKey(|l.addr|) + 4 * i, e, l.mrkey[i]);
      i := i + 1;
    }
  }

  // ---------- reading ----------

  /** `struct pp_exchange_info` as decoded. */
  class Remote {
    var qpn: nat
    var psn: nat
    var gid: seq<nat>
    var lid: nat
    const addr: array<nat>
    const mrkey: array<nat>

    constructor (n: nat)
      ensures fresh(addr) && fresh(mrkey) && addr != mrkey && addr.Length == mrkey.Length == n
    {
      qpn, psn, gid, lid := 0, 0, [], 0;
      addr := new nat[n](i => 0);
      mrkey := new nat[n](i => 0);
    }

    /** It is what the other side meant. */
    ghost predicate Matches(l: Local)
      reads this, addr, mrkey
    {
      && qpn == l.qpn && psn == l.psn
      && (if l.ethernet then gid == l.gid && lid == 0 else lid == l.lid && gid == seq(16, i => 0))
      && addr[..] == l.addr && mrkey[..] == l.mrkey
    }
  }

  function Get32(b: seq<nat>, off: nat, e: Endian): nat
    requires off + 4 <= |b|
  {
    Swap32(e, Load32(e, b[off..off + 4]))
  }

  function Get64(b: seq<nat>, off: nat, e: Endian): nat
    requires off + 8 <= |b|
  {
    Swap64(e, Load64(e, b[off..off + 8]))
  }

  lemma GetField32(b: seq<nat>, off: nat, e: Endian, x: nat)
    requires x < 0x1_0000_0000 && FieldAt(b, off, Be32(x))
    ensures off + 4 <= |b| && Get32(b, off, e) == x
  {
    hide Be32, Load32, Swap32;
    ReadBack32(e, x);
  }

  lemma GetField64(b: seq<nat>, off: nat, e: Endian, x: nat)
    requires x < 0x1_0000_0000_0000_0000 && FieldAt(b, off, Be64(x))
    ensures off + 8 <= |b| && Get64(b, off, e) == x
  {
    hide Be64, Load64, Swap64;
    ReadBack64(e, x);
  }

  /** The receiving half, on a host of any byte order: whatever bytes came, and if they
      are a record of `l`, exactly what `l` says. */
  method ReadRecord(b: seq<nat>, e: Endian, r: Remote, ghost l: Local)
    requires r.addr.Length == r.mrkey.Length && r.addr != r.mrkey
    requires |b| == RECORD_BUF && OFF_ADDR + 12 * r.addr.Length <= RECORD_BUF
    requires l.Valid() && |l.addr| == r.addr.Length && Encodes(b, l)
    modifies r, r.addr, r.mrkey
    ensures r.Matches(l)
  {
    hide Be32, Be64, FieldAt, Get32, Get64;
    var n := r.addr.Length;
    GetField32(b, OFF_LID, e, if l.ethernet then 0 else l.lid);
    GetField32(b, OFF_QPN, e, l.qpn);
    GetField32(b, OFF_PSN, e, l.psn);
    r.lid := Get32(b, OFF_LID, e);
    r.qpn := Get32(b, OFF_QPN, e);
    r.psn := Get32(b, OFF_PSN, e);
    var i := 0;
    while i < n
      invariant 0 <= i <= n
      invariant r.lid == (if l.ethernet then 0 else l.lid) && r.qpn == l.qpn && r.psn == l.psn
      invariant forall j :: 0 <= j < i ==> r.addr[j] == l.addr[j] && r.mrkey[j] == l.mrkey[j]
    {
      GetField64(b, OFF_ADDR + 8 * i, e, l.addr[i]);
      GetField32(b, OffKey(n) + 4 * i, e, l.mrkey[i]);
      r.addr[i] := Get64(b, OFF_ADDR + 8 * i, e);
      r.mrkey[i] := Get32(b, OffKey(n) + 4 * i, e);
      i := i + 1;
    }
    r.gid := b[OFF_GID..OFF_GID + 16];
    assert r.gid == (if l.ethernet then l.gid else seq(16, i => 0)) by { GidField(b, l); }
  }

  lemma GidField(b: seq<nat>, l: Local)
    requires l.Valid() && Heads(b, l)
    ensures OFF_GID + 16 <= |b| && b[OFF_GID..OFF_GID + 16] == if l.ethernet then l.gid else seq(16, i => 0)
  {
  }

  /** `sizeof(struct pp_exchange_info)`: what the socket carries. */
  function RecordSize(n: nat): nat { OFF_ADDR + 12 * n }

  lemma FieldCarried(b: seq<nat>, b': seq<nat>, size: nat, off: nat, w: seq<nat>)
    requires size <= |b| && size <= |b'| && b'[..size] == b[..size]
    requires FieldAt(b, off, w) && off + |w| <= size
    ensures FieldAt(b', off, w)
  {
    assert b[off..off + |w|] == b[..size][off..off + |w|];
    assert b'[off..off + |w|] == b'[..size][off..off + |w|];
  }

  lemma HeadsCarried(b: seq<nat>, b': seq<nat>, l: Local)
    requires l.Valid() && Heads(b, l) && OFF_ADDR <= |b| && OFF_ADDR <= |b'| && b'[..OFF_ADDR] == b[..OFF_ADDR]
    ensures Heads(b', l)
  {
    hide Be32, FieldAt;
    FieldCarried(b, b', OFF_ADDR, OFF_QPN, Be32(l.qpn));
    FieldCarried(b, b', OFF_ADDR, OFF_PSN, Be32(l.psn));
    FieldCarried(b, b', OFF_ADDR, OFF_GID, if l.ethernet then l.gid else seq(16, i => 0));
    FieldCarried(b, b', OFF_ADDR, OFF_LID, if l.ethernet then Be32(0) else Be32(l.lid));
  }

  lemma TablesCarried(b: seq<nat>, b': seq<nat>, l: Local)
    requires l.Valid() && Tables(b, l, |l.addr|)
    requires var size := RecordSize(|l.addr|); size <= |b| && size <= |b'| && b'[..size] == b[..size]
    ensures Tables(b', l, |l.addr|)
  {
    var size := RecordSize(|l.addr|);
    hide Be32, Be64, FieldAt;
    forall i | 0 <= i < |l.addr|
      ensures FieldAt(b', OFF_ADDR + 8 * i, Be64(l.addr[i])) && FieldAt(b', OffKey(|l.addr|) + 4 * i, Be32(l.mrkey[i]))
    {
      FieldCarried(b, b', size, OFF_ADDR + 8 * i, Be64(l.addr[i]));
      FieldCarried(b, b', size, OffKey(|l.addr|) + 4 * i, Be32(l.mrkey[i]));
    }
  }

  /** The record's own bytes are enough; what else is in the receiving buffer does not
      matter. */
  lemma RecordCarried(b: seq<nat>, b': seq<nat>, l: Local)
    requires l.Valid() && Encodes(b, l)
    requires var size := RecordSize(|l.addr|); size <= |b| && size <= |b'| && b'[..size] == b[..size]
    ensures Encodes(b', l)
  {
    hide Heads, Tables;
    assert b'[..OFF_ADDR] == b'[..RecordSize(|l.addr|)][..OFF_ADDR] == b[..OFF_ADDR];
    HeadsCarried(b, b', l);
    TablesCarried(b, b', l);
  }

  /** What goes onto the socket is the record, and nothing behind it. */
  ghost predicate Carries(sent: seq<nat>, l: Local)
    requires |l.addr| == |l.mrkey|
  {
    |sent| == RecordSize(|l.addr|) <= RECORD_BUF && Encodes(Padded(sent), l)
  }

  /** A zeroed receiving buffer with the bytes that came at its start. */
  function Padded(bytes: seq<nat>): (r: seq<nat>)
    requires |bytes| <= RECORD_BUF
    ensures |r| == RECORD_BUF
  {
    bytes + seq(RECORD_BUF - |bytes|, i => 0)
  }

  /** The sending half of `pp_exchange_info`; the gid query is given by its result. */
  method BuildRecord(portNum: nat, e: Endian, l: Local, gidRet: int) returns (ret: int, sent: seq<nat>)
    requires l.Valid()
    ensures portNum == 0 ==> ret == -1
    ensures portNum != 0 && l.ethernet && gidRet != 0 ==> ret == gidRet
    ensures portNum != 0 && (l.ethernet ==> gidRet == 0) ==> ret == 0
    ensures if ret == 0 then Carries(sent, l) else sent == []
  {
    hide Encodes, FieldAt;
    sent := [];
    if portNum == 0 {
      return -1, sent;
    }
    if l.ethernet && gidRet != 0 {
      return gidRet, sent;
    }
    var buf := new nat[RECORD_BUF](i => 0);
    FillRecord(buf, e, l);
    sent := buf[..RecordSize(|l.addr|)];
    assert Padded(sent)[..RecordSize(|l.addr|)] == buf[..][..RecordSize(|l.addr|)];
    RecordCarried(buf[..], Padded(sent), l);
    ret := 0;
  }

  /** The receiving half: the socket is given by its result and the bytes that came. */
  method TakeRecord(e: Endian, sockRet: int, came: seq<nat>, r: Remote, ghost peer: Local) returns (ret: int)
    requires peer.Valid() && |peer.addr| == r.addr.Length == r.mrkey.Length && r.addr != r.mrkey
    requires sockRet == 0 ==> Carries(came, peer)
    modifies r, r.addr, r.mrkey
    ensures ret == sockRet
    ensures ret == 0 ==> r.Matches(peer)
    ensures ret != 0 ==> unchanged(r) && unchanged(r.addr) && unchanged(r.mrkey)
  {
    if sockRet != 0 {
      return sockRet;
    }
    assert Encodes(Padded(came), peer);
    hide Encodes, Carries, FieldAt, Padded;
    ReadRecord(Padded(came), e, r, peer);
    ret := 0;
  }

  /** `pp_exchange_info`: `came` is what the other side sent. A failed call leaves `r`
      alone. */
  method ExchangeInfo(portNum: nat, e: Endian, l: Local, gidRet: int, sockRet: int, came: seq<nat>,
                      r: Remote, ghost peer: Local) returns (ret: int, sent: seq<nat>)
    requires l.Valid() && peer.Valid() && |l.addr| == |peer.addr| == r.addr.Length == r.mrkey.Length
    requires r.addr != r.mrkey
    requires sockRet == 0 ==> Carries(came, peer)
    modifies r, r.addr, r.mrkey
    ensures portNum == 0 ==> ret == -1
    ensures portNum != 0 && l.ethernet && gidRet != 0 ==> ret == gidRet
    ensures portNum != 0 && (l.ethernet ==> gidRet == 0) ==> ret == sockRet
    ensures ret == 0 ==> r.Matches(peer)
    ensures ret != 0 ==> unchanged(r) && unchanged(r.addr) && unchanged(r.mrkey)
    ensures if portNum != 0 && (l.ethernet ==> gidRet == 0) then Carries(sent, l) else sent == []
  {
    hide Carries;
    ret, sent := BuildRecord(portNum, e, l, gidRet);
    if ret != 0 {
      return;
    }
    ret := TakeRecord(e, sockRet, came, r, peer);
  }

  /** Two hosts, each of its own byte order: what one side sent is what the other takes,
      and each ends up with what the other is. */
  method ExchangeBoth(ea: Endian, a: Local, eb: Endian, b: Local, ra: Remote, rb: Remote) returns (reta: int, retb: int)
    requires a.Valid() && b.Valid() && |a.addr| == |b.addr|
    requires ra.addr.Length == ra.mrkey.Length == rb.addr.Length == rb.mrkey.Length == |a.addr|
    requires ra != rb && ra.addr != ra.mrkey && rb.addr != rb.mrkey
    requires {ra.addr, ra.mrkey} !! {rb.addr, rb.mrkey}
    modifies ra, ra.addr, ra.mrkey, rb, rb.addr, rb.mrkey
    ensures reta == retb == 0 && ra.Matches(b) && rb.Matches(a)
  {
    hide Carries;
    var fromA, fromB;
    reta, fromA := BuildRecord(1, ea, a, 0);
    retb, fromB := BuildRecord(1, eb, b, 0);
    reta := TakeRecord(ea, 0, fromB, ra, b);
    retb := TakeRecord(eb, 0, fromA, rb, a);
  }
}
