/** The payload buffers: what is written into them and what dumping does to them. */
module Buffers {

  const CHAR_0 := 48
  const CHAR_A := 65
  const CHAR_Z_SMALL := 122
  /** From this length on `dump_msg_short` prints two pieces. */
  const DUMP_SHORT := 32
  const DUMP_CUT := 16

  type Bytes = seq<nat>

  function Zeros(len: nat): (r: Bytes)
    ensures |r| == len && forall j :: 0 <= j < len ==> r[j] == 0
  {
    seq(len, j => 0)
  }

  /** Byte `j` of what `mem_string` writes. */
  function StringAt(j: nat, len: nat): nat {
    if j + 1 == len then 0 else CHAR_A + j % (CHAR_Z_SMALL - CHAR_A + 1)
  }

  function MemStringOf(len: nat): (r: Bytes)
    ensures |r| == len && forall j :: 0 <= j < len ==> r[j] == StringAt(j, len)
  {
    seq(len, j requires 0 <= j < len => StringAt(j, len))
  }

  /** The first byte of the `i`-th ping. */
  function Mark(i: nat): nat { i % (CHAR_Z_SMALL - CHAR_0) + CHAR_0 }

  /** What the client sends from buffer `i`. */
  function Ping(i: nat, len: nat): (r: Bytes)
    requires len > 0
    ensures |r| == len
  {
    MemStringOf(len)[0 := Mark(i)]
  }

  /** The buffer after `dump_msg_short`, which edits what it prints. */
  function Dumped(b: Bytes): (r: Bytes)
    requires |b| > 0
    ensures |r| == |b|
  {
    var c := b[|b| - 1 := 0];
    if |b| <= DUMP_SHORT then c else c[DUMP_CUT := 0]
  }

  // ---------- the loops ----------

  /** `mem_string`; the source writes before the buffer when `len` is 0. */
  method MemString(p: array<nat>)
    requires p.Length > 0
    modifies p
    ensures p[..] == MemStringOf(p.Length)
  {
    var i := 0;
    while i < p.Length - 1
      invariant 0 <= i <= p.Length - 1
      invariant forall j :: 0 <= j < i ==> p[j] == StringAt(j, p.Length)
    {
      p[i] := CHAR_A + i % (CHAR_Z_SMALL - CHAR_A + 1);
      i := i + 1;
    }
    p[p.Length - 1] := 0;
  }

  /** One iteration of the client's fill loop. */
  method FillPing(p: array<nat>, i: nat)
    requires p.Length > 0
    modifies p
    ensures p[..] == Ping(i, p.Length)
  {
    MemString(p);
    p[0] := i % (CHAR_Z_SMALL - CHAR_0) + CHAR_0;
  }

  method Clear(p: array<nat>)
    modifies p
    ensures p[..] == Zeros(p.Length)
  {
    var i := 0;
    while i < p.Length
      invariant 0 <= i <= p.Length
      invariant forall j :: 0 <= j < i ==> p[j] == 0
    {
      p[i] := 0;
      i := i + 1;
    }
  }

  method DumpMsgShort(p: array<nat>)
    requires p.Length > 0
    modifies p
    ensures p[..] == Dumped(old(p[..]))
  {
    p[p.Length - 1] := 0;
    if p.Length > DUMP_SHORT {
      p[DUMP_CUT] := 0;
    }
  }

  // ---------- what it means for the echo ----------

  /** The bytes of a ping: the mark, repeating letters from 'A' to 'z', a terminator. */
  lemma PingAt(i: nat, len: nat, j: nat)
    requires j < len
    ensures Ping(i, len)[j] == if j == 0 then 48 + i % 74 else if j == len - 1 then 0 else 65 + j % 58
  {
  }

  /** What dumping does to any buffer: it cuts the last byte, and byte 16 of more than 32. */
  lemma DumpedAt(b: Bytes, j: nat)
    requires j < |b|
    ensures Dumped(b)[j] == if j == |b| - 1 || (|b| > 32 && j == 16) then 0 else b[j]
  {
  }

  /** Byte by byte, a dumped ping is the ping but for the terminator and the cut. */
  lemma DumpedPingAt(i: nat, len: nat, j: nat)
    requires j < len
    ensures Dumped(Ping(i, len))[j] ==
            if j == len - 1 || (len > 32 && j == 16) then 0
            else if j == 0 then 48 + i % 74
            else 65 + j % 58
  {
    DumpedAt(Ping(i, len), j);
    PingAt(i, len, j);
  }

  /** Dumping leaves a ping alone exactly in this range of lengths: a single byte is
      the mark itself, and a long one loses the byte at the cut. */
  lemma EchoIsPingIff(i: nat, len: nat)
    requires len > 0
    ensures Dumped(Ping(i, len)) == Ping(i, len) <==> 2 <= len <= 32
  {
    var p := Ping(i, len);
    if len == 1 {
      assert Dumped(p)[0] == 0 && p[0] >= CHAR_0;
    } else if len > DUMP_SHORT {
      assert Dumped(p)[DUMP_CUT] == 0 && p[DUMP_CUT] == CHAR_A + 16;
    } else {
      assert p[len - 1] == 0;
    }
  }

  lemma DumpTwice(b: Bytes)
    requires |b| > 0
    ensures Dumped(Dumped(b)) == Dumped(b)
  {
  }

  /** Up to 74 buffers, pings differ in their first byte. */
  lemma MarksTellBuffers(i: nat, h: nat, len: nat)
    requires len > 0 && i < 74 && h < 74
    ensures Ping(i, len) == Ping(h, len) <==> i == h
  {
    assert Ping(i, len)[0] == CHAR_0 + i && Ping(h, len)[0] == CHAR_0 + h;
  }
}
