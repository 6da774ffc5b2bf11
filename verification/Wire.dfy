/** Bytes, little-endian integers, UTF-8 and 16-byte alignment: the parts the
    `helios-bootfs` format is made of. */
module Wire {

  type Byte = b: int | 0 <= b < 256

  type Bytes = seq<Byte>

  // ---- Little-endian integers

  function Base(n: nat): (r: nat)
    ensures r > 0
  {
    if n == 0 then 1 else 256 * Base(n - 1)
  }

  lemma Bases()
    ensures Base(4) == 0x1_0000_0000 && Base(8) == 0x1_0000_0000_0000_0000
  {
  }

  /** The low `n` bytes of `v`, least significant first: a cast to a narrower
      integer is part of it. */
  function Le(v: nat, n: nat): (r: Bytes)
    ensures |r| == n
  {
    if n == 0 then [] else [v % 256] + Le(v / 256, n - 1)
  }

  function FromLe(b: Bytes): (v: nat)
    ensures v < Base(|b|)
  {
    if b == [] then 0 else b[0] + 256 * FromLe(b[1..])
  }

  lemma {:induction false} LeBack(v: nat, n: nat)
    requires v < Base(n)
    ensures FromLe(Le(v, n)) == v
  {
    if n > 0 {
      assert v / 256 < Base(n - 1);
      LeBack(v / 256, n - 1);
      assert Le(v, n)[1..] == Le(v / 256, n - 1);
    }
  }

  function ReadLe(bytes: Bytes, offset: nat, n: nat): (v: nat)
    requires offset + n <= |bytes|
    ensures v < Base(n)
  {
    FromLe(bytes[offset..offset + n])
  }

  // ---- UTF-8

  predicate Cont(b: Byte) { 0x80 <= b <= 0xbf }

  /** The length of the well-formed sequence `b` starts with, or 0. */
  function Utf8Head(b: Bytes): (n: nat)
    ensures n <= |b|
  {
    if b == [] then 0
    else if b[0] < 0x80 then 1
    else if |b| >= 2 && 0xc2 <= b[0] <= 0xdf && Cont(b[1]) then 2
    else if |b| >= 3 && Cont(b[2]) && (
              || (b[0] == 0xe0 && 0xa0 <= b[1] <= 0xbf)
              || (0xe1 <= b[0] <= 0xec && Cont(b[1]))
              || (b[0] == 0xed && 0x80 <= b[1] <= 0x9f)
              || (0xee <= b[0] <= 0xef && Cont(b[1]))) then 3
    else if |b| >= 4 && Cont(b[2]) && Cont(b[3]) && (
              || (b[0] == 0xf0 && 0x90 <= b[1] <= 0xbf)
              || (0xf1 <= b[0] <= 0xf3 && Cont(b[1]))
              || (b[0] == 0xf4 && 0x80 <= b[1] <= 0x8f)) then 4
    else 0
  }

  predicate Utf8(b: Bytes)
    decreases |b|
  {
    b == [] || (Utf8Head(b) > 0 && Utf8(b[Utf8Head(b)..]))
  }

  // ---- Alignment

  const SECTION_ALIGN := 16

  function Align(n: nat): (r: nat)
    ensures r >= n && r % SECTION_ALIGN == 0 && r < n + SECTION_ALIGN
  {
    (n + SECTION_ALIGN - 1) / SECTION_ALIGN * SECTION_ALIGN
  }

  function Zeros(n: nat): (r: Bytes)
    ensures |r| == n && forall i :: 0 <= i < n ==> r[i] == 0
  {
    seq(n, _ => 0)
  }

  function PadTo(b: Bytes): (r: Bytes)
    ensures |r| == Align(|b|) && b <= r && forall i :: |b| <= i < |r| ==> r[i] == 0
  {
    b + Zeros(Align(|b|) - |b|)
  }

  /** Blobs one after the other, each starting on an aligned offset. */
  function Packed(blobs: seq<Bytes>): (r: Bytes)
    ensures |r| % SECTION_ALIGN == 0
  {
    if blobs == [] then [] else
      var n := |blobs| - 1;
      PadTo(Packed(blobs[..n]) + blobs[n])
  }

  function OffsetOf(blobs: seq<Bytes>, i: nat): (r: nat)
    requires i <= |blobs|
    ensures r % SECTION_ALIGN == 0
  {
    |Packed(blobs[..i])|
  }

  /** Each blob is found again at its offset. */
  lemma {:induction false} PackedSlice(blobs: seq<Bytes>, i: nat)
    requires i < |blobs|
    ensures OffsetOf(blobs, i) + |blobs[i]| <= |Packed(blobs)|
    ensures Packed(blobs)[OffsetOf(blobs, i)..OffsetOf(blobs, i) + |blobs[i]|] == blobs[i]
  {
    var n := |blobs| - 1;
    var before, whole := Packed(blobs[..n]), Packed(blobs);
    assert before + blobs[n] <= whole;
    if i == n {
      assert whole[|before|..|before| + |blobs[n]|] == (before + blobs[n])[|before|..];
    } else {
      PackedSlice(blobs[..n], i);
      assert blobs[..n][..i] == blobs[..i];
      var a, b := OffsetOf(blobs, i), OffsetOf(blobs, i) + |blobs[i]|;
      assert whole[a..b] == before[a..b];
    }
  }
}
