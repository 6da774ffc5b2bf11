/** Writing a `helios-bootfs` image, and reading it back. */
module BootfsWriter {
  import opened Options
  import opened Wire
  import opened Bootfs

  function Paths(es: seq<Entry>): (r: seq<Bytes>)
    ensures |r| == |es| && forall i :: 0 <= i < |r| ==> r[i] == es[i].path
  {
    seq(|es|, i requires 0 <= i < |es| => es[i].path)
  }

  function Blobs(es: seq<Entry>): (r: seq<Bytes>)
    ensures |r| == |es| && forall i :: 0 <= i < |r| ==> r[i] == es[i].data
  {
    seq(|es|, i requires 0 <= i < |es| => es[i].data)
  }

  // ---- The image

  function HeaderBytes(count: nat, stringsAt: nat, stringsLen: nat, dataAt: nat, dataLen: nat): (r: Bytes)
    ensures |r| == HEADER_BYTES
  {
    MAGIC + Le(VERSION, 4) + Le(count, 4) + Le(stringsAt, 8) + Le(stringsLen, 8) + Le(dataAt, 8) + Le(dataLen, 8)
  }

  function Record(kind: nat, pathAt: nat, pathLen: nat, dataAt: nat, dataLen: nat, modified: nat): (r: Bytes)
    ensures |r| == ENTRY_BYTES
  {
    Le(kind, 4) + Le(0, 4) + Le(pathAt, 8) + Le(pathLen, 8) + Le(dataAt, 8) + Le(dataLen, 8) + Le(modified, 8)
  }

  function RecordOf(es: seq<Entry>, i: nat): (r: Bytes)
    requires i < |es|
    ensures |r| == ENTRY_BYTES
  {
    Record(es[i].kind.ToWire(), OffsetOf(Paths(es), i), |es[i].path|, OffsetOf(Blobs(es), i), |es[i].data|, es[i].modifiedNanos)
  }

  /** The records of the first `n` entries. */
  function Table(es: seq<Entry>, n: nat): (r: Bytes)
    requires n <= |es|
    ensures |r| == n * ENTRY_BYTES
  {
    if n == 0 then [] else Table(es, n - 1) + RecordOf(es, n - 1)
  }

  function StringsAt(es: seq<Entry>): nat { Align(HEADER_BYTES + |es| * ENTRY_BYTES) }

  function DataAt(es: seq<Entry>): nat { Align(StringsAt(es) + |Packed(Paths(es))|) }

  function Head(es: seq<Entry>): (r: Bytes)
    ensures |r| == HEADER_BYTES
  {
    HeaderBytes(|es|, StringsAt(es), |Packed(Paths(es))|, DataAt(es), |Packed(Blobs(es))|)
  }

  function ImageOf(es: seq<Entry>): Bytes {
    PadTo(Head(es) + Table(es, |es|)) + Packed(Paths(es)) + Packed(Blobs(es))
  }

  /** `write_image`. */
  method WriteImage(es: seq<Entry>) returns (image: Bytes)
    ensures image == ImageOf(es)
  {
    hide Le, HeaderBytes, Record, Packed, OffsetOf;
    var strings, pathOffsets := Pack(Paths(es));
    var data, dataOffsets := Pack(Blobs(es));
    var stringsAt := Align(HEADER_BYTES + |es| * ENTRY_BYTES);
    var dataAt := Align(stringsAt + |strings|);
    image := HeaderBytes(|es|, stringsAt, |strings|, dataAt, |data|);
    ghost var head := image;
    assert head == Head(es);
    for i := 0 to |es|
      invariant image == head + Table(es, i)
    {
      var e := es[i];
      var record := Record(e.kind.ToWire(), pathOffsets[i], |e.path|, dataOffsets[i], |e.data|, e.modifiedNanos);
      assert image + record == head + (Table(es, i) + record);
      image := image + record;
    }
    image := PadTo(image);
    image := image + strings;
    image := image + data;
  }

  /** One section: blob after blob, padded, with the offset of each. */
  method Pack(blobs: seq<Bytes>) returns (packed: Bytes, offsets: seq<nat>)
    ensures packed == Packed(blobs)
    ensures |offsets| == |blobs| && forall i :: 0 <= i < |blobs| ==> offsets[i] == OffsetOf(blobs, i)
  {
    packed, offsets := [], [];
    for i := 0 to |blobs|
      invariant packed == Packed(blobs[..i]) && |offsets| == i
      invariant forall j :: 0 <= j < i ==> offsets[j] == OffsetOf(blobs, j)
    {
      offsets := offsets + [|packed|];
      packed := PadTo(packed + blobs[i]);
      assert blobs[..i + 1][..i] == blobs[..i];
    }
    assert blobs[..|blobs|] == blobs;
  }

  // ---- Where things are in it

  lemma Unpadded(b: Bytes)
    requires |b| % SECTION_ALIGN == 0
    ensures PadTo(b) == b
  {
  }

  lemma Aligned(n: nat)
    requires n % SECTION_ALIGN == 0
    ensures Align(n) == n
  {
  }

  lemma Multiple(n: nat)
    ensures (HEADER_BYTES + n * ENTRY_BYTES) % SECTION_ALIGN == 0
  {
  }

  /** Header and records leave nothing to pad, so the sections are adjacent. */
  lemma Layout(es: seq<Entry>)
    ensures StringsAt(es) == HEADER_BYTES + |es| * ENTRY_BYTES
    ensures DataAt(es) == StringsAt(es) + |Packed(Paths(es))|
    ensures ImageOf(es) == Head(es) + Table(es, |es|) + Packed(Paths(es)) + Packed(Blobs(es))
  {
    hide Head, Table, Packed, PadTo, Align;
    var n := HEADER_BYTES + |es| * ENTRY_BYTES;
    Multiple(|es|);
    Aligned(n);
    Aligned(n + |Packed(Paths(es))|);
    Unpadded(Head(es) + Table(es, |es|));
  }

  lemma {:induction false} TableSlice(es: seq<Entry>, n: nat, i: nat)
    requires i < n <= |es|
    ensures i * ENTRY_BYTES + ENTRY_BYTES <= n * ENTRY_BYTES
    ensures Table(es, n)[i * ENTRY_BYTES..i * ENTRY_BYTES + ENTRY_BYTES] == RecordOf(es, i)
  {
    hide RecordOf;
    var a := i * ENTRY_BYTES;
    if i < n - 1 {
      TableSlice(es, n - 1, i);
      assert Table(es, n)[a..a + ENTRY_BYTES] == Table(es, n - 1)[a..a + ENTRY_BYTES];
    } else {
      assert |Table(es, i)| == a;
      assert (Table(es, i) + RecordOf(es, i))[a..a + ENTRY_BYTES] == RecordOf(es, i);
    }
  }

  lemma Within(whole: Bytes, at: nat, part: Bytes, from: nat, to: nat)
    requires at + |part| <= |whole| && whole[at..at + |part|] == part && from <= to <= |part|
    ensures whole[at + from..at + to] == part[from..to]
  {
    var x, y := whole[at + from..at + to], part[from..to];
    forall k | 0 <= k < |x| ensures x[k] == y[k] {
      assert part[from + k] == whole[at..at + |part|][from + k];
    }
  }

  predicate Holds(whole: Bytes, at: nat, part: Bytes) {
    at + |part| <= |whole| && whole[at..at + |part|] == part
  }

  lemma Sections(es: seq<Entry>)
    ensures Holds(ImageOf(es), 0, Head(es)) && Holds(ImageOf(es), HEADER_BYTES, Table(es, |es|))
    ensures Holds(ImageOf(es), StringsAt(es), Packed(Paths(es))) && Holds(ImageOf(es), DataAt(es), Packed(Blobs(es)))
    ensures |ImageOf(es)| == DataAt(es) + |Packed(Blobs(es))|
    ensures StringsAt(es) == HEADER_BYTES + |es| * ENTRY_BYTES && DataAt(es) == StringsAt(es) + |Packed(Paths(es))|
  {
    hide ImageOf, Head, Table, Packed, StringsAt, DataAt, Holds;
    Layout(es);
    Parts(Head(es), Table(es, |es|), Packed(Paths(es)), Packed(Blobs(es)));
  }

  lemma Parts(a: Bytes, b: Bytes, c: Bytes, d: Bytes)
    ensures Holds(a + b + c + d, 0, a) && Holds(a + b + c + d, |a|, b)
    ensures Holds(a + b + c + d, |a| + |b|, c) && Holds(a + b + c + d, |a| + |b| + |c|, d)
  {
  }

  lemma ReadBack(bytes: Bytes, at: nat, n: nat, v: nat)
    requires at + n <= |bytes| && bytes[at..at + n] == Le(v, n) && v < Base(n)
    ensures ReadLe(bytes, at, n) == v
  {
    LeBack(v, n);
  }

  lemma Field(whole: Bytes, at: nat, part: Bytes, from: nat, n: nat, v: nat)
    requires Holds(whole, at, part) && from + n <= |part| && part[from..from + n] == Le(v, n) && v < Base(n)
    ensures ReadLe(whole, at + from, n) == v
  {
    Within(whole, at, part, from, from + n);
    ReadBack(whole, at + from, n, v);
  }

  // ---- Reading it back

  /** Within the size limits of the format, with paths that are strings. */
  predicate Fits(es: seq<Entry>) {
    && |es| < U32_SPAN && |ImageOf(es)| < U64_SPAN
    && forall i :: 0 <= i < |es| ==> Utf8(es[i].path) && es[i].modifiedNanos < U64_SPAN
  }

  function View(es: seq<Entry>): Image {
    Image(ImageOf(es), |es|, Span(StringsAt(es), DataAt(es)), Span(DataAt(es), |ImageOf(es)|))
  }

  lemma WrittenFields(es: seq<Entry>)
    requires Fits(es)
    ensures var b := ImageOf(es);
            && |b| >= HEADER_BYTES && b[..8] == MAGIC && ReadLe(b, 8, 4) == VERSION && ReadLe(b, 12, 4) == |es|
            && ReadLe(b, 16, 8) == StringsAt(es) && ReadLe(b, 24, 8) == |Packed(Paths(es))|
            && ReadLe(b, 32, 8) == DataAt(es) && ReadLe(b, 40, 8) == |Packed(Blobs(es))|
  {
    var b, h := ImageOf(es), Head(es);
    HeadFields(es);
    Bases();
    Sections(es);
    hide ImageOf, Head, Table, Packed, Le, StringsAt, DataAt, Base;
    Within(b, 0, h, 0, 8);
    Field(b, 0, h, 8, 4, VERSION);
    Field(b, 0, h, 12, 4, |es|);
    Field(b, 0, h, 16, 8, StringsAt(es));
    Field(b, 0, h, 24, 8, |Packed(Paths(es))|);
    Field(b, 0, h, 32, 8, DataAt(es));
    Field(b, 0, h, 40, 8, |Packed(Blobs(es))|);
  }

  lemma HeadFields(es: seq<Entry>)
    ensures Head(es)[0..8] == MAGIC && Head(es)[8..8 + 4] == Le(VERSION, 4) && Head(es)[12..12 + 4] == Le(|es|, 4)
    ensures Head(es)[16..16 + 8] == Le(StringsAt(es), 8) && Head(es)[24..24 + 8] == Le(|Packed(Paths(es))|, 8)
    ensures Head(es)[32..32 + 8] == Le(DataAt(es), 8) && Head(es)[40..40 + 8] == Le(|Packed(Blobs(es))|, 8)
  {
    hide Packed, Le, StringsAt, DataAt;
    Seven(MAGIC, Le(VERSION, 4), Le(|es|, 4), Le(StringsAt(es), 8), Le(|Packed(Paths(es))|, 8), Le(DataAt(es), 8), Le(|Packed(Blobs(es))|, 8));
  }

  /** Seven fields end to end, each found at the sum of the lengths before. */
  lemma Seven(a: Bytes, b: Bytes, c: Bytes, d: Bytes, e: Bytes, f: Bytes, g: Bytes)
    ensures var all := a + b + c + d + e + f + g;
            && Holds(all, 0, a) && Holds(all, |a|, b) && Holds(all, |a| + |b|, c) && Holds(all, |a| + |b| + |c|, d)
            && Holds(all, |a| + |b| + |c| + |d|, e) && Holds(all, |a| + |b| + |c| + |d| + |e|, f)
            && Holds(all, |a| + |b| + |c| + |d| + |e| + |f|, g)
  {
  }

  lemma WrittenHeader(es: seq<Entry>)
    requires Fits(es)
    ensures Header(ImageOf(es)) == Ok(View(es)) && Laid(View(es))
  {
    hide ImageOf, Head, Packed, Table, ReadLe;
    WrittenFields(es);
    Sections(es);
    AlignedAt(es);
  }

  lemma AlignedAt(es: seq<Entry>)
    ensures StringsAt(es) % SECTION_ALIGN == 0 && DataAt(es) % SECTION_ALIGN == 0
  {
  }

  /** Every record reads back as the entry it was written for; only stray data
      is refused. */
  lemma WrittenEntry(es: seq<Entry>, i: nat)
    requires Fits(es) && i < |es|
    ensures Laid(View(es))
    ensures EntryAt(View(es), i) ==
              if es[i].data != [] && es[i].kind.Bare() then Err(EntryDataUnexpected(i)) else Ok(es[i])
  {
    hide ImageOf, Packed, Table, ReadLe, OffsetOf, Utf8, StringsAt, DataAt, Paths, Blobs, Header;
    WrittenHeader(es);
    WrittenRecord(es, i);
    WrittenSlices(es, i);
    RecordInside(View(es), i);
    KindBack(es[i].kind);
  }

  lemma KindBack(kind: EntryKind)
    ensures FromWire(kind.ToWire()) == Some(kind)
  {
  }

  lemma WrittenRecord(es: seq<Entry>, i: nat)
    requires Fits(es) && i < |es|
    ensures RecordBase(i) + ENTRY_BYTES <= |ImageOf(es)|
    ensures var b, base, e := ImageOf(es), RecordBase(i), es[i];
            && ReadLe(b, base, 4) == e.kind.ToWire() && ReadLe(b, base + 4, 4) == 0
            && ReadLe(b, base + 8, 8) == OffsetOf(Paths(es), i) && ReadLe(b, base + 16, 8) == |e.path|
            && ReadLe(b, base + 24, 8) == OffsetOf(Blobs(es), i) && ReadLe(b, base + 32, 8) == |e.data|
            && ReadLe(b, base + 40, 8) == e.modifiedNanos
  {
    hide ImageOf, Head, Packed, Le, StringsAt, DataAt, Base, Table, OffsetOf, Paths, Blobs, RecordOf;
    var b, base, r, e := ImageOf(es), RecordBase(i), RecordOf(es, i), es[i];
    Bases();
    Offsets(es, i);
    RecordHeld(es, i);
    RecordFields(es, i);
    Field(b, base, r, 0, 4, e.kind.ToWire());
    Field(b, base, r, 4, 4, 0);
    Field(b, base, r, 8, 8, OffsetOf(Paths(es), i));
    Field(b, base, r, 16, 8, |e.path|);
    Field(b, base, r, 24, 8, OffsetOf(Blobs(es), i));
    Field(b, base, r, 32, 8, |e.data|);
    Field(b, base, r, 40, 8, e.modifiedNanos);
  }

  lemma RecordHeld(es: seq<Entry>, i: nat)
    requires i < |es|
    ensures Holds(ImageOf(es), RecordBase(i), RecordOf(es, i))
  {
    hide ImageOf, Head, Packed, StringsAt, DataAt, Table, RecordOf;
    Sections(es);
    TableSlice(es, |es|, i);
    var a := i * ENTRY_BYTES;
    Within(ImageOf(es), HEADER_BYTES, Table(es, |es|), a, a + ENTRY_BYTES);
  }

  lemma RecordFields(es: seq<Entry>, i: nat)
    requires i < |es|
    ensures var r, e := RecordOf(es, i), es[i];
            && r[0..0 + 4] == Le(e.kind.ToWire(), 4) && r[4..4 + 4] == Le(0, 4)
            && r[8..8 + 8] == Le(OffsetOf(Paths(es), i), 8) && r[16..16 + 8] == Le(|e.path|, 8)
            && r[24..24 + 8] == Le(OffsetOf(Blobs(es), i), 8) && r[32..32 + 8] == Le(|e.data|, 8)
            && r[40..40 + 8] == Le(e.modifiedNanos, 8)
  {
    hide Le, OffsetOf, Paths, Blobs;
    var e := es[i];
    Seven(Le(e.kind.ToWire(), 4), Le(0, 4), Le(OffsetOf(Paths(es), i), 8), Le(|e.path|, 8), Le(OffsetOf(Blobs(es), i), 8), Le(|e.data|, 8), Le(e.modifiedNanos, 8));
  }

  lemma Offsets(es: seq<Entry>, i: nat)
    requires Fits(es) && i < |es|
    ensures OffsetOf(Paths(es), i) + |es[i].path| <= DataAt(es) - StringsAt(es)
    ensures OffsetOf(Blobs(es), i) + |es[i].data| <= |ImageOf(es)| - DataAt(es)
    ensures DataAt(es) <= |ImageOf(es)| < U64_SPAN
  {
    hide ImageOf, Head, Packed, StringsAt, DataAt, Table, OffsetOf;
    Sections(es);
    PackedSlice(Paths(es), i);
    PackedSlice(Blobs(es), i);
  }

  lemma WrittenSlices(es: seq<Entry>, i: nat)
    requires Fits(es) && i < |es| && Laid(View(es))
    ensures SliceIn(View(es), View(es).strings, OffsetOf(Paths(es), i), |es[i].path|, EntryPathOverrun(i)) == Ok(es[i].path)
    ensures SliceIn(View(es), View(es).data, OffsetOf(Blobs(es), i), |es[i].data|, EntryDataOverrun(i)) == Ok(es[i].data)
  {
    hide ImageOf, Head, Packed, Table, OffsetOf, StringsAt, DataAt, Utf8;
    Sections(es);
    Offsets(es, i);
    PackedSlice(Paths(es), i);
    PackedSlice(Blobs(es), i);
    var p, d := OffsetOf(Paths(es), i), OffsetOf(Blobs(es), i);
    Within(ImageOf(es), StringsAt(es), Packed(Paths(es)), p, p + |es[i].path|);
    Within(ImageOf(es), DataAt(es), Packed(Blobs(es)), d, d + |es[i].data|);
  }

  predicate NoStray(es: seq<Entry>) {
    forall i :: 0 <= i < |es| ==> es[i].kind.Bare() ==> es[i].data == []
  }

  /** For every entry list within the limits: the written image parses exactly
      when the list makes one image, and then `entries()` gives the list back:
      kinds, paths, data and times, in order. */
  lemma RoundTrip(es: seq<Entry>)
    requires Fits(es)
    ensures Parsed(ImageOf(es)).Ok? <==> Good(es) && NoStray(es)
    ensures Parsed(ImageOf(es)).Ok? ==>
              var img := Parsed(ImageOf(es)).value; Laid(img) && Readable(img) && Entries(img) == es
  {
    hide EntryAt, Header, Parsed, Good, Fits, ImageOf;
    WrittenHeader(es);
    ParsedIff(ImageOf(es));
    var img := View(es);
    forall i | 0 <= i < |es|
      ensures EntryAt(img, i) == if es[i].data != [] && es[i].kind.Bare() then Err(EntryDataUnexpected(i)) else Ok(es[i])
    {
      WrittenEntry(es, i);
    }
    assert Readable(img) <==> NoStray(es);
    if NoStray(es) {
      assert Entries(img) == es;
    }
  }
}
