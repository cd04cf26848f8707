/** `mmio_memcpy_x64` of util/mmio.h: a copy in whole blocks, counted down in a `size_t`. */
module Mmio {
  import opened Bits

  /** The native word decides the block and the width of `size_t`. */
  datatype Native = Words64 | Words32

  function BlockOf(w: Native): nat { if w.Words64? then 64 else 8 }

  function SizeOf(w: Native): nat { if w.Words64? then 0x1_0000_0000_0000_0000 else 0x1_0000_0000 }

  /** What is left of `bytecnt` after `k` blocks, as a `size_t`. */
  function Left(w: Native, bytecnt: nat, k: nat): nat {
    (bytecnt - BlockOf(w) * k) % SizeOf(w)
  }

  /** The `do` loop ends after `k` blocks: nothing is left then, and something before. */
  ghost predicate EndsAfter(w: Native, bytecnt: nat, k: nat) {
    k > 0 && Left(w, bytecnt, k) == 0 && forall j :: 0 < j < k ==> Left(w, bytecnt, j) != 0
  }

  /** Subtracting blocks never changes the remainder: an odd length never reaches 0. */
  lemma LeftKeepsRest(w: Native, bytecnt: nat, k: nat)
    ensures Left(w, bytecnt, k) % BlockOf(w) == bytecnt % BlockOf(w)
  {
    var block, m := BlockOf(w), SizeOf(w) / BlockOf(w);
    assert block * m == SizeOf(w);
    ModOfMod(bytecnt - block * k, block, m);
    ModShift(bytecnt, 0 - k, block);
    assert bytecnt + (0 - k) * block == bytecnt - block * k;
  }

  /** The loop ends exactly when the length is a multiple of the block, and then copies
      that many blocks; the length 0 runs once around the whole address space. */
  lemma EndsIffWholeBlocks(w: Native, bytecnt: nat)
    requires bytecnt < SizeOf(w)
    ensures (exists k: nat :: EndsAfter(w, bytecnt, k)) <==> bytecnt % BlockOf(w) == 0
    ensures bytecnt % BlockOf(w) == 0 ==>
              EndsAfter(w, bytecnt, (if bytecnt == 0 then SizeOf(w) else bytecnt) / BlockOf(w))
  {
    if bytecnt % BlockOf(w) == 0 {
      EndsThere(w, bytecnt, (if bytecnt == 0 then SizeOf(w) else bytecnt) / BlockOf(w));
    } else {
      forall k: nat
        ensures !EndsAfter(w, bytecnt, k)
      {
        LeftKeepsRest(w, bytecnt, k);
      }
    }
  }

  /** The two blocks and the two address spaces in plain numbers. */
  lemma WholeSpace()
    ensures BlockOf(Words64) == 64 && BlockOf(Words32) == 8
    ensures EndsAfter(Words64, 0, 0x400_0000_0000_0000) && EndsAfter(Words32, 0, 0x2000_0000)
  {
    hide EndsAfter;
    EndsThere(Words64, 0, 0x400_0000_0000_0000);
    EndsThere(Words32, 0, 0x2000_0000);
  }

  lemma EndsThere(w: Native, bytecnt: nat, k: nat)
    requires bytecnt < SizeOf(w) && k > 0
    requires BlockOf(w) * k == if bytecnt == 0 then SizeOf(w) else bytecnt
    ensures EndsAfter(w, bytecnt, k)
  {
    hide Left, SizeOf, BlockOf;
    forall j: nat | 0 < j <= k
      ensures Left(w, bytecnt, j) == 0 <==> j == k
    {
      LeftIs(w, bytecnt, k, j);
    }
  }

  /** After `j` of `k` blocks, the blocks that remain are left. */
  lemma LeftIs(w: Native, bytecnt: nat, k: nat, j: nat)
    requires bytecnt < SizeOf(w) && 0 < j <= k
    requires BlockOf(w) * k == if bytecnt == 0 then SizeOf(w) else bytecnt
    ensures Left(w, bytecnt, j) == 0 <==> j == k
  {
    assert Left(w, bytecnt, j) == (bytecnt - BlockOf(w) * j) % SizeOf(w) && BlockOf(w) > 0;
    assert SizeOf(w) > 0;
    hide *;
    var rest, done := BlockOf(w) * (k - j), BlockOf(w) * j;
    assert done + rest == BlockOf(w) * k by { Spread(BlockOf(w), j, k); }
    Positive(BlockOf(w), j);
    if j < k { Positive(BlockOf(w), k - j); } else { assert rest == BlockOf(w) * 0 == 0; }
    DivModUnique(bytecnt - done, SizeOf(w), if bytecnt == 0 then -1 else 0, rest);
  }

  lemma Spread(b: int, j: int, k: int)
    ensures b * j + b * (k - j) == b * k
  {
  }

  lemma Positive(b: int, j: int)
    requires b > 0 && j > 0
    ensures b * j > 0
  {
  }

  /** Words `[0, at)` are copied, one by one and upward. */
  ghost predicate Copied(d: seq<nat>, was: seq<nat>, src: seq<nat>, order: seq<nat>, at: nat) {
    && |d| == |was| && at <= |src| && at <= |d|
    && (forall i :: 0 <= i < |d| ==> d[i] == if i < at then src[i] else was[i])
    && |order| == at && forall i :: 0 <= i < at ==> order[i] == i
  }

  /** One block less, while whole blocks remain. */
  lemma OneBlockLess(w: Native, left: nat)
    requires 0 < left < SizeOf(w) && left % BlockOf(w) == 0
    ensures (left - BlockOf(w)) % SizeOf(w) == left - BlockOf(w) >= 0
    ensures (left - BlockOf(w)) % BlockOf(w) == 0
  {
  }

  /** The copy with 64-bit words, for the lengths its comment asks for: whole blocks, at
      least one. */
  method MemcpyX64(dest: array<nat>, src: seq<nat>, bytecnt: nat) returns (ghost order: seq<nat>)
    requires 0 < bytecnt < SizeOf(Words64) && bytecnt % 64 == 0
    requires bytecnt / 8 <= |src| && bytecnt / 8 <= dest.Length
    modifies dest
    ensures Copied(dest[..], old(dest[..]), src, order, bytecnt / 8)
  {
    var left, at := bytecnt, 0;
    ghost var was := dest[..];
    order := [];
    assert Copied(dest[..], was, src, order, 0);
    hide Copied;
    while true
      invariant left + 8 * at == bytecnt && 0 < left < SizeOf(Words64) && left % 64 == 0
      invariant Copied(dest[..], was, src, order, at)
      decreases left
    {
      OneBlockLess(Words64, left);
      order := CopyWords(dest, was, src, at, 8, order);
      at, left := at + 8, (left - 64) % SizeOf(Words64);
      if left == 0 {
        break;
      }
    }
  }

  /** The copy with 32-bit words. */
  method MemcpyX32(dest: array<nat>, src: seq<nat>, bytecnt: nat) returns (ghost order: seq<nat>)
    requires 0 < bytecnt < SizeOf(Words32) && bytecnt % 8 == 0
    requires bytecnt / 4 <= |src| && bytecnt / 4 <= dest.Length
    modifies dest
    ensures Copied(dest[..], old(dest[..]), src, order, bytecnt / 4)
  {
    var left, at := bytecnt, 0;
    ghost var was := dest[..];
    order := [];
    assert Copied(dest[..], was, src, order, 0);
    hide Copied;
    while true
      invariant left + 4 * at == bytecnt && 0 < left < SizeOf(Words32) && left % 8 == 0
      invariant Copied(dest[..], was, src, order, at)
      decreases left
    {
      OneBlockLess(Words32, left);
      order := CopyWords(dest, was, src, at, 2, order);
      at, left := at + 2, (left - 8) % SizeOf(Words32);
      if left == 0 {
        break;
      }
    }
  }

  /** One round of the loop: `per` stores at rising addresses. */
  method CopyWords(dest: array<nat>, ghost was: seq<nat>, src: seq<nat>, at: nat, per: nat, ghost before: seq<nat>)
    returns (ghost order: seq<nat>)
    requires at + per <= |src| && at + per <= dest.Length && Copied(dest[..], was, src, before, at)
    modifies dest
    ensures Copied(dest[..], was, src, order, at + per)
  {
    order := before;
    var i := 0;
    while i < per
      invariant 0 <= i <= per && Copied(dest[..], was, src, order, at + i)
    {
      dest[at + i] := src[at + i];
      order := order + [at + i];
      i := i + 1;
    }
  }
}
