/** Zeroing memory with whole-block clears in the middle. */
module Zeroing {
  import opened Arithmetic

  /** Exactly `[from, to)` is zero; the rest is as `before` had it. */
  predicate ZeroedOnly(before: seq<bv8>, after: seq<bv8>, from: nat, to: nat) {
    && |after| == |before|
    && forall i :: 0 <= i < |after| ==> after[i] == if from <= i < to then 0 else before[i]
  }

  /** `dc zva`: clears the whole aligned block that contains `address`. */
  method DcZva(mem: array<bv8>, address: nat, block: nat)
    requires block > 0 && address - address % block + block <= mem.Length
    modifies mem
    ensures ZeroedOnly(old(mem[..]), mem[..], address - address % block, address - address % block + block)
  {
    WriteZeros(mem, address - address % block, block);
  }

  method WriteZeros(mem: array<bv8>, from: nat, n: nat)
    requires from + n <= mem.Length
    modifies mem
    ensures ZeroedOnly(old(mem[..]), mem[..], from, from + n)
  {
    for i := 0 to n
      invariant forall k :: 0 <= k < mem.Length ==> mem[k] == if from <= k < from + i then 0 else old(mem[k])
    {
      mem[from + i] := 0;
    }
  }

  lemma ZeroedJoin(a: seq<bv8>, b: seq<bv8>, c: seq<bv8>, from: nat, mid: nat, to: nat)
    requires ZeroedOnly(a, b, from, mid) && ZeroedOnly(b, c, mid, to) && from <= mid <= to
    ensures ZeroedOnly(a, c, from, to)
  {
  }

  lemma NextBlock(p: nat, block: nat)
    requires block > 0 && p % block == 0
    ensures (p + block) % block == 0
  {
    assert p + block == (p / block + 1) * block;
    NoRemainder(p + block, block, p / block + 1);
  }

  lemma RoundUp(p: nat, block: nat)
    requires block > 0 && p % block != 0
    ensures (p + (block - p % block)) % block == 0
  {
    assert p + (block - p % block) == (p / block + 1) * block;
    NoRemainder(p + (block - p % block), block, p / block + 1);
  }

  /** Every byte of the range and no other, whatever the alignment of the start
      and the length of the tail: no block clear reaches outside. */
  method DcZvaZero(mem: array<bv8>, start: nat, length: nat, block: nat)
    requires PowerOfTwo(block) && start + length <= mem.Length
    modifies mem
    ensures ZeroedOnly(old(mem[..]), mem[..], start, start + length)
  {
    hide ZeroedOnly;
    ghost var before := mem[..];
    ZeroedNone(before, start);
    var ptr, size := start, length;
    var misalignment := ptr % block;
    if misalignment != 0 {
      var prefix := if block - misalignment < size then block - misalignment else size;
      if prefix == block - misalignment { RoundUp(ptr, block); }
      WriteZeros(mem, ptr, prefix);
      ptr := ptr + prefix;
      size := size - prefix;
    }
    while size >= block
      invariant start <= ptr && 0 <= size && ptr + size == start + length && (ptr % block == 0 || size == 0)
      invariant ZeroedOnly(before, mem[..], start, ptr)
    {
      ghost var now := mem[..];
      DcZva(mem, ptr, block);
      ZeroedJoin(before, now, mem[..], start, ptr, ptr + block);
      NextBlock(ptr, block);
      ptr := ptr + block;
      size := size - block;
    }
    if size > 0 {
      ghost var now := mem[..];
      WriteZeros(mem, ptr, size);
      ZeroedJoin(before, now, mem[..], start, ptr, ptr + size);
    }
  }

  lemma ZeroedNone(before: seq<bv8>, from: nat)
    ensures ZeroedOnly(before, before, from, from)
  {
  }
}
