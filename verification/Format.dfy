/** The `helios-bootfs` format written out on the bytes of an image, and the
    parser measured against it: which images it accepts, and which of the
    format's conditions each error names. */
module Format {
  import opened Options
  import opened Wire
  import opened Bootfs

  // ---- Fields

  /** Four bytes at `at`, least significant first. */
  function U32(b: Bytes, at: nat): nat {
    if at + 4 > |b| then 0
    else b[at] as int + 0x100 * b[at + 1] as int + 0x1_0000 * b[at + 2] as int + 0x100_0000 * b[at + 3] as int
  }

  function U64(b: Bytes, at: nat): nat {
    U32(b, at) + 0x1_0000_0000 * U32(b, at + 4)
  }

  /** `n` bytes from `at` on. */
  function Cut(b: Bytes, at: nat, n: nat): Bytes {
    if at + n > |b| then [] else b[at..at + n]
  }

  lemma LeStep(b: Bytes, at: nat, n: nat)
    requires 0 < n && at + n <= |b|
    ensures ReadLe(b, at, n) == b[at] + 256 * ReadLe(b, at + 1, n - 1)
  {
    assert b[at..at + n][1..] == b[at + 1..at + n];
  }

  lemma Reads4(b: Bytes, at: nat)
    requires at + 4 <= |b|
    ensures ReadLe(b, at, 4) == U32(b, at)
  {
    LeStep(b, at, 4);
    LeStep(b, at + 1, 3);
    LeStep(b, at + 2, 2);
    LeStep(b, at + 3, 1);
    assert ReadLe(b, at + 4, 0) == 0;
  }

  lemma ReadsMore(b: Bytes, at: nat)
    requires at + 8 <= |b|
    ensures ReadLe(b, at, 8) == ReadLe(b, at, 4) + 0x1_0000_0000 * ReadLe(b, at + 4, 4)
  {
    hide ReadLe;
    LeStep(b, at, 8);
    LeStep(b, at + 1, 7);
    LeStep(b, at + 2, 6);
    LeStep(b, at + 3, 5);
    LeStep(b, at, 4);
    LeStep(b, at + 1, 3);
    LeStep(b, at + 2, 2);
    LeStep(b, at + 3, 1);
    NoBytes(b, at + 4);
  }

  lemma NoBytes(b: Bytes, at: nat)
    requires at <= |b|
    ensures ReadLe(b, at, 0) == 0
  {
  }

  lemma Reads8(b: Bytes, at: nat)
    requires at + 8 <= |b|
    ensures ReadLe(b, at, 8) == U64(b, at)
  {
    hide ReadLe, U32;
    ReadsMore(b, at);
    Reads4(b, at);
    Reads4(b, at + 4);
  }

  // ---- The header

  predicate Magic(b: Bytes)
    requires |b| >= 48
  {
    b[0] == 0x48 && b[1] == 0x4c && b[2] == 0x42 && b[3] == 0x4f && b[4] == 0x4f && b[5] == 0x54 && b[6] == 0x46 && b[7] == 0x53
  }

  predicate Version1(b: Bytes)
    requires |b| >= 48
  {
    b[8] == 1 && b[9] == 0 && b[10] == 0 && b[11] == 0
  }

  function TableEnd(b: Bytes): nat {
    48 + 48 * U32(b, 12)
  }

  predicate SectionAligned(b: Bytes, at: nat) {
    U64(b, at) % 16 == 0
  }

  predicate SectionInside(b: Bytes, at: nat) {
    U64(b, at) + U64(b, at + 8) < 0x1_0000_0000_0000_0000 && U64(b, at) + U64(b, at + 8) <= |b|
  }

  /** Magic, version, and the entry table, string table and data section inside
      the image, aligned, in this order and apart. */
  predicate HeaderOk(b: Bytes) {
    && |b| >= 48 && Magic(b) && Version1(b) && TableEnd(b) <= |b|
    && SectionAligned(b, 16) && SectionInside(b, 16) && SectionAligned(b, 32) && SectionInside(b, 32)
    && TableEnd(b) <= U64(b, 16) && U64(b, 16) + U64(b, 24) <= U64(b, 32)
  }

  lemma HeaderFields(b: Bytes)
    requires |b| >= 48
    ensures ReadLe(b, 8, 4) == U32(b, 8) && ReadLe(b, 12, 4) == U32(b, 12)
    ensures ReadLe(b, 16, 8) == U64(b, 16) && ReadLe(b, 24, 8) == U64(b, 24)
    ensures ReadLe(b, 32, 8) == U64(b, 32) && ReadLe(b, 40, 8) == U64(b, 40)
    ensures U32(b, 8) == 1 <==> Version1(b)
    ensures b[..8] == MAGIC <==> Magic(b)
  {
    hide ReadLe, U64;
    Reads4(b, 8);
    Reads4(b, 12);
    Reads8(b, 16);
    Reads8(b, 24);
    Reads8(b, 32);
    Reads8(b, 40);
    if Magic(b) { assert b[..8] == MAGIC; }
    if b[..8] == MAGIC {
      assert forall i :: 0 <= i < 8 ==> b[i] == MAGIC[i] by { forall i | 0 <= i < 8 ensures b[i] == MAGIC[i] { assert b[..8][i] == MAGIC[i]; } }
    }
  }

  /** The header is accepted exactly when it meets the format, and the image
      then has the recorded layout. */
  lemma HeaderIff(b: Bytes)
    ensures Header(b).Ok? <==> HeaderOk(b)
    ensures HeaderOk(b) ==>
              Header(b).value == Image(b, U32(b, 12), Span(U64(b, 16), U64(b, 16) + U64(b, 24)), Span(U64(b, 32), U64(b, 32) + U64(b, 40)))
  {
    hide ReadLe, U32, U64, Magic, Version1;
    if |b| >= 48 { HeaderFields(b); }
  }

  /** Each error is reported exactly when its condition is the first to fail. */
  lemma HeaderErrors(b: Bytes)
    ensures Header(b) == Err(TruncatedHeader) <==> |b| < 48
    ensures Header(b) == Err(BadMagic) <==> |b| >= 48 && !Magic(b)
    ensures |b| >= 48 ==> (Header(b) == Err(BadVersion(U32(b, 8))) <==> Magic(b) && !Version1(b))
    ensures |b| >= 48 ==> (Header(b) == Err(EntryTableOverrun(U32(b, 12))) <==> Magic(b) && Version1(b) && TableEnd(b) > |b|)
    ensures |b| >= 48 && Magic(b) && Version1(b) && TableEnd(b) <= |b| ==>
              && (Header(b) == Err(SectionMisaligned(StringTable)) <==> !SectionAligned(b, 16))
              && (Header(b) == Err(SectionOverrun(StringTable)) <==> SectionAligned(b, 16) && !SectionInside(b, 16))
              && (SectionAligned(b, 16) && SectionInside(b, 16) ==>
                    && (Header(b) == Err(SectionMisaligned(Data)) <==> !SectionAligned(b, 32))
                    && (Header(b) == Err(SectionOverrun(Data)) <==> SectionAligned(b, 32) && !SectionInside(b, 32))
                    && (SectionAligned(b, 32) && SectionInside(b, 32) ==>
                          && (Header(b) == Err(SectionOrder(EntryTable)) <==> TableEnd(b) > U64(b, 16))
                          && (Header(b) == Err(SectionOrder(StringTable)) <==>
                                TableEnd(b) <= U64(b, 16) && U64(b, 16) + U64(b, 24) > U64(b, 32))))
  {
    hide ReadLe, U32, U64, Magic, Version1;
    if |b| >= 48 { HeaderFields(b); }
  }

  // ---- One record

  /** The seven fields of a record. */
  datatype Fields = Fields(code: nat, reserved: nat, pathAt: nat, pathLen: nat, dataAt: nat, dataLen: nat, modified: nat)

  function FieldsAt(b: Bytes, at: nat): Fields {
    Fields(U32(b, at), U32(b, at + 4), U64(b, at + 8), U64(b, at + 16), U64(b, at + 24), U64(b, at + 32), U64(b, at + 40))
  }

  /** Record `i` of the table. */
  function Record(b: Bytes, i: nat): Fields {
    FieldsAt(b, 48 + 48 * i)
  }

  /** A slice of a section of `len` bytes lies inside it. */
  predicate Fits(at: nat, n: nat, len: nat) {
    at + n < 0x1_0000_0000_0000_0000 && at + n <= len
  }

  /** A known kind, the reserved word zero, both offsets aligned, path and data
      inside their sections, the path text, and no data where the kind has
      none. */
  predicate FieldsOk(f: Fields, path: Bytes, stringsLen: nat, dataLen: nat) {
    && f.code < 4 && f.reserved == 0 && f.pathAt % 16 == 0 && f.dataAt % 16 == 0
    && Fits(f.pathAt, f.pathLen, stringsLen) && Utf8(path) && Fits(f.dataAt, f.dataLen, dataLen)
    && (f.code == 0 || f.code == 3 ==> f.dataLen == 0)
  }

  function KindOf(code: nat): EntryKind {
    if code == 0 then Directory else if code == 1 then File else if code == 2 then InitComponent else InitArgv0
  }

  /** The fields the parser reads for record `i`. */
  ghost predicate ReadsAs(img: Image, i: nat, f: Fields) {
    var b, base := img.bytes, RecordBase(i);
    && base + 48 <= |b| && ReadLe(b, base, 4) == f.code && ReadLe(b, base + 4, 4) == f.reserved
    && ReadLe(b, base + 8, 8) == f.pathAt && ReadLe(b, base + 16, 8) == f.pathLen
    && ReadLe(b, base + 24, 8) == f.dataAt && ReadLe(b, base + 32, 8) == f.dataLen && ReadLe(b, base + 40, 8) == f.modified
  }

  function PathIn(img: Image, f: Fields): Bytes { Cut(img.bytes, img.strings.start + f.pathAt, f.pathLen) }

  function DataIn(img: Image, f: Fields): Bytes { Cut(img.bytes, img.data.start + f.dataAt, f.dataLen) }

  function StringsLen(img: Image): int { img.strings.end - img.strings.start }

  function SectionLen(img: Image): int { img.data.end - img.data.start }

  /** A record reads exactly when it meets the format, and as what it says. */
  lemma EntryIff(img: Image, i: nat, f: Fields)
    requires Laid(img) && i < img.count && ReadsAs(img, i, f)
    ensures EntryAt(img, i).Ok? <==> FieldsOk(f, PathIn(img, f), StringsLen(img), SectionLen(img))
    ensures EntryAt(img, i).Ok? ==> EntryAt(img, i).value == Entry(KindOf(f.code), PathIn(img, f), DataIn(img, f), f.modified)
  {
    hide ReadLe, Utf8;
  }

  /** Each error is reported exactly when its condition is the first to fail. */
  lemma EntryErrors(img: Image, i: nat, f: Fields)
    requires Laid(img) && i < img.count && ReadsAs(img, i, f)
    ensures EntryAt(img, i) == Err(EntryKindUnknown(i)) <==> f.code >= 4
    ensures EntryAt(img, i) == Err(EntryReserved(i)) <==> f.code < 4 && f.reserved != 0
    ensures EntryAt(img, i) == Err(EntryPathMisaligned(i)) <==> f.code < 4 && f.reserved == 0 && f.pathAt % 16 != 0
    ensures EntryAt(img, i) == Err(EntryDataMisaligned(i)) <==> f.code < 4 && f.reserved == 0 && f.pathAt % 16 == 0 && f.dataAt % 16 != 0
    ensures f.code < 4 && f.reserved == 0 && f.pathAt % 16 == 0 && f.dataAt % 16 == 0 ==>
              && (EntryAt(img, i) == Err(EntryPathOverrun(i)) <==> !Fits(f.pathAt, f.pathLen, StringsLen(img)))
              && (EntryAt(img, i) == Err(EntryPathNotUtf8(i)) <==> Fits(f.pathAt, f.pathLen, StringsLen(img)) && !Utf8(PathIn(img, f)))
              && (Fits(f.pathAt, f.pathLen, StringsLen(img)) && Utf8(PathIn(img, f)) ==>
                    && (EntryAt(img, i) == Err(EntryDataOverrun(i)) <==> !Fits(f.dataAt, f.dataLen, SectionLen(img)))
                    && (EntryAt(img, i) == Err(EntryDataUnexpected(i)) <==>
                          Fits(f.dataAt, f.dataLen, SectionLen(img)) && (f.code == 0 || f.code == 3) && f.dataLen > 0))
  {
    hide ReadLe, Utf8;
  }

  // ---- The image

  function View(b: Bytes): Image {
    Image(b, U32(b, 12), Span(U64(b, 16), U64(b, 16) + U64(b, 24)), Span(U64(b, 32), U64(b, 32) + U64(b, 40)))
  }

  lemma RecordReads(b: Bytes, i: nat)
    requires HeaderOk(b) && i < U32(b, 12)
    ensures Laid(View(b)) && ReadsAs(View(b), i, Record(b, i))
  {
    hide ReadLe, HeaderOk, U32, U64, Laid, FieldsAt;
    RecordSpace(b, i);
    FieldsRead(b, RecordBase(i));
  }

  lemma RecordSpace(b: Bytes, i: nat)
    requires HeaderOk(b) && i < U32(b, 12)
    ensures Laid(View(b)) && RecordBase(i) == 48 + 48 * i && RecordBase(i) + 48 <= |b|
  {
  }

  lemma FieldsRead(b: Bytes, at: nat)
    requires at + 48 <= |b|
    ensures var f := FieldsAt(b, at);
            && ReadLe(b, at, 4) == f.code && ReadLe(b, at + 4, 4) == f.reserved
            && ReadLe(b, at + 8, 8) == f.pathAt && ReadLe(b, at + 16, 8) == f.pathLen
            && ReadLe(b, at + 24, 8) == f.dataAt && ReadLe(b, at + 32, 8) == f.dataLen && ReadLe(b, at + 40, 8) == f.modified
  {
    hide ReadLe, U32, U64;
    Reads4(b, at);
    Reads4(b, at + 4);
    Reads8(b, at + 8);
    Reads8(b, at + 16);
    Reads8(b, at + 24);
    Reads8(b, at + 32);
    Reads8(b, at + 40);
  }

  /** The path bytes of record `i`. */
  function PathOf(b: Bytes, i: nat): Bytes {
    Cut(b, U64(b, 16) + Record(b, i).pathAt, Record(b, i).pathLen)
  }

  predicate RecordOk(b: Bytes, i: nat) {
    FieldsOk(Record(b, i), PathOf(b, i), U64(b, 24), U64(b, 40))
  }

  /** Record `i` is the only one of its code. */
  predicate Sole(b: Bytes, i: nat, code: nat) {
    i < U32(b, 12) && Record(b, i).code == code && forall j :: 0 <= j < U32(b, 12) && Record(b, j).code == code ==> j == i
  }

  predicate OneRecord(b: Bytes, code: nat) {
    exists i :: 0 <= i < U32(b, 12) && Sole(b, i, code)
  }

  predicate PathsDiffer(b: Bytes) {
    forall i, j :: 0 <= i < j < U32(b, 12) && Record(b, i).code < 2 && Record(b, j).code < 2 ==> PathOf(b, i) != PathOf(b, j)
  }

  /** The whole format: a good header, good records, one init component, one
      init argument vector, and no two directories or files of one path. */
  predicate WellFormed(b: Bytes) {
    && HeaderOk(b) && (forall i :: 0 <= i < U32(b, 12) ==> RecordOk(b, i))
    && OneRecord(b, 2) && OneRecord(b, 3) && PathsDiffer(b)
  }

  /** Entry `e` is what record `i` says. */
  predicate Says(b: Bytes, i: nat, e: Entry) {
    && e.path == PathOf(b, i) && (e.kind.InitComponent? <==> Record(b, i).code == 2)
    && (e.kind.InitArgv0? <==> Record(b, i).code == 3) && (e.kind.Named() <==> Record(b, i).code < 2)
  }

  lemma RecordIff(b: Bytes, i: nat)
    requires HeaderOk(b) && i < U32(b, 12) && Laid(View(b))
    ensures EntryAt(View(b), i).Ok? <==> RecordOk(b, i)
    ensures RecordOk(b, i) ==> Says(b, i, EntryAt(View(b), i).value)
  {
    hide HeaderOk, EntryAt, U64, Record, Laid, Utf8;
    RecordReads(b, i);
    EntryIff(View(b), i, Record(b, i));
  }

  lemma GoodIff(b: Bytes, es: seq<Entry>)
    requires |es| == U32(b, 12) && forall i :: 0 <= i < |es| ==> Says(b, i, es[i])
    ensures Good(es) <==> OneRecord(b, 2) && OneRecord(b, 3) && PathsDiffer(b)
  {
    hide Record, PathOf, U32;
    forall i | 0 <= i < |es| ensures OnlyAt(es, i, InitComponent) <==> Sole(b, i, 2) { SoleIff(b, es, i, InitComponent, 2); }
    forall i | 0 <= i < |es| ensures OnlyAt(es, i, InitArgv0) <==> Sole(b, i, 3) { SoleIff(b, es, i, InitArgv0, 3); }
    hide Sole, OnlyAt;
    if PathsDiffer(b) {
      forall i, j | 0 <= i < j < |es| && es[i].kind.Named() && es[j].kind.Named() ensures es[i].path != es[j].path {
        assert Says(b, i, es[i]) && Says(b, j, es[j]);
      }
    }
    if NoRepeat(es) {
      forall i, j | 0 <= i < j < |es| && Record(b, i).code < 2 && Record(b, j).code < 2 ensures PathOf(b, i) != PathOf(b, j) {
        assert Says(b, i, es[i]) && Says(b, j, es[j]);
      }
    }
  }

  lemma SoleIff(b: Bytes, es: seq<Entry>, i: nat, kind: EntryKind, code: nat)
    requires |es| == U32(b, 12) && i < |es| && (forall j :: 0 <= j < |es| ==> Says(b, j, es[j]))
    requires (kind == InitComponent && code == 2) || (kind == InitArgv0 && code == 3)
    ensures OnlyAt(es, i, kind) <==> Sole(b, i, code)
  {
    hide Record, PathOf, U32;
    forall j | 0 <= j < |es| ensures es[j].kind == kind <==> Record(b, j).code == code { assert Says(b, j, es[j]); }
  }

  /** The parser accepts exactly the well-formed images, and reads in them what
      their bytes record. */
  lemma AcceptsIff(b: Bytes)
    ensures Parsed(b).Ok? <==> WellFormed(b)
    ensures Parsed(b).Ok? ==> Parsed(b).value == View(b)
  {
    hide HeaderOk, RecordOk, EntryAt, Header, Good, Parsed, U32, U64, OneRecord, PathsDiffer, Says, Laid;
    HeaderIff(b);
    ParsedIff(b);
    if HeaderOk(b) {
      HeaderLaid(b);
      var img := View(b);
      assert Header(b).value == img && Laid(img);
      forall i | 0 <= i < img.count ensures EntryAt(img, i).Ok? <==> RecordOk(b, i)
        ensures RecordOk(b, i) ==> Says(b, i, EntryAt(img, i).value) {
        RecordIff(b, i);
      }
      if Readable(img) { GoodIff(b, Entries(img)); }
    }
  }

  // ---- Text

  /** A Unicode scalar value. */
  predicate Scalar(c: nat) {
    c < 0x11_0000 && !(0xd800 <= c < 0xe000)
  }

  /** The shortest UTF-8 form. */
  function Encode(c: nat): Bytes
    requires Scalar(c)
  {
    if c < 0x80 then [c]
    else if c < 0x800 then [0xc0 + c / 64, 0x80 + c % 64]
    else if c < 0x1_0000 then [0xe0 + c / 4096, 0x80 + c / 64 % 64, 0x80 + c % 64]
    else [0xf0 + c / 0x4_0000, 0x80 + c / 4096 % 64, 0x80 + c / 64 % 64, 0x80 + c % 64]
  }

  predicate Scalars(cs: seq<nat>) {
    forall i :: 0 <= i < |cs| ==> Scalar(cs[i])
  }

  function EncodeAll(cs: seq<nat>): Bytes
    requires Scalars(cs)
  {
    if cs == [] then [] else Encode(cs[0]) + EncodeAll(cs[1..])
  }

  lemma HeadEncoded(c: nat, rest: Bytes)
    requires Scalar(c)
    ensures Utf8Head(Encode(c) + rest) == |Encode(c)| > 0
  {
    var b := Encode(c) + rest;
    if c >= 0x80 {
      if c < 0x800 {
        assert 2 <= c / 64 < 32;
      } else if c < 0x1_0000 {
        assert b[0] == 0xe0 + c / 4096 && b[1] == 0x80 + c / 64 % 64 && b[2] == 0x80 + c % 64;
        ThreeBytes(c);
      } else {
        assert b[0] == 0xf0 + c / 0x4_0000 && b[1] == 0x80 + c / 4096 % 64 && b[2] == 0x80 + c / 64 % 64 && b[3] == 0x80 + c % 64;
        FourBytes(c);
      }
    }
  }

  lemma ThreeBytes(c: nat)
    requires 0x800 <= c < 0x1_0000 && Scalar(c)
    ensures var hi, mid := c / 4096, c / 64 % 64;
            hi < 16 && (hi == 0 ==> mid >= 32) && (hi == 13 ==> mid < 32)
  {
    assert c / 64 == c / 4096 * 64 + c / 64 % 64;
  }

  lemma FourBytes(c: nat)
    requires 0x1_0000 <= c < 0x11_0000
    ensures var hi, mid := c / 0x4_0000, c / 4096 % 64;
            hi <= 4 && (hi == 0 ==> mid >= 16) && (hi == 4 ==> mid < 16)
  {
    assert c / 4096 == c / 0x4_0000 * 64 + c / 4096 % 64;
  }

  lemma Decode2(b: Bytes) returns (c: nat)
    requires |b| == 2 && Utf8Head(b) == 2
    ensures Scalar(c) && Encode(c) == b
  {
    var x: int, y: int := b[0], b[1];
    c := 64 * (x - 0xc0) + (y - 0x80);
  }

  lemma Decode3(b: Bytes) returns (c: nat)
    requires |b| == 3 && Utf8Head(b) == 3
    ensures Scalar(c) && Encode(c) == b
  {
    var x: int, y: int, z: int := b[0], b[1], b[2];
    c := 4096 * (x - 0xe0) + 64 * (y - 0x80) + (z - 0x80);
    assert c / 64 == 64 * (x - 0xe0) + (y - 0x80);
  }

  lemma Decode4(b: Bytes) returns (c: nat)
    requires |b| == 4 && Utf8Head(b) == 4
    ensures Scalar(c) && Encode(c) == b
  {
    var x: int, y: int, z: int, w: int := b[0], b[1], b[2], b[3];
    c := 0x4_0000 * (x - 0xf0) + 4096 * (y - 0x80) + 64 * (z - 0x80) + (w - 0x80);
    assert c / 64 == 4096 * (x - 0xf0) + 64 * (y - 0x80) + (z - 0x80);
    assert c / 4096 == 64 * (x - 0xf0) + (y - 0x80);
  }

  /** The scalar value of the well-formed sequence `b` starts with. */
  lemma DecodeHead(b: Bytes) returns (c: nat)
    requires Utf8Head(b) > 0
    ensures Scalar(c) && Encode(c) == b[..Utf8Head(b)]
  {
    hide Encode, Scalar;
    var n := Utf8Head(b);
    HeadAlone(b);
    if n == 1 {
      c := OneByte(b[..1]);
    } else if n == 2 {
      c := Decode2(b[..2]);
    } else if n == 3 {
      c := Decode3(b[..3]);
    } else {
      c := Decode4(b[..4]);
    }
  }

  lemma OneByte(b: Bytes) returns (c: nat)
    requires |b| == 1 && b[0] < 0x80
    ensures Scalar(c) && Encode(c) == b
  {
    c := b[0];
  }

  lemma HeadAlone(b: Bytes)
    ensures Utf8Head(b[..Utf8Head(b)]) == Utf8Head(b) <= 4
  {
  }

  lemma {:induction false} EncodedIsUtf8(cs: seq<nat>)
    requires Scalars(cs)
    ensures Utf8(EncodeAll(cs))
  {
    if cs != [] {
      hide Encode, Utf8Head;
      EncodedIsUtf8(cs[1..]);
      var b, rest := EncodeAll(cs), EncodeAll(cs[1..]);
      HeadEncoded(cs[0], rest);
      assert b[|Encode(cs[0])|..] == rest;
    }
  }

  lemma {:induction false} DecodeAll(b: Bytes) returns (cs: seq<nat>)
    requires Utf8(b)
    ensures Scalars(cs) && EncodeAll(cs) == b
    decreases |b|
  {
    if b == [] {
      cs := [];
    } else {
      hide Encode, Utf8Head, Scalar, EncodeAll, Utf8, Scalars;
      var n := Utf8Tail(b);
      var c := DecodeHead(b);
      var rest := DecodeAll(b[n..]);
      cs := [c] + rest;
      EncodeCons(c, rest);
      assert b == b[..n] + b[n..];
    }
  }

  lemma Utf8Tail(b: Bytes) returns (n: nat)
    requires Utf8(b) && b != []
    ensures n == Utf8Head(b) > 0 && n <= |b| && Utf8(b[n..])
  {
    hide Utf8Head;
    n := Utf8Head(b);
  }

  lemma EncodeCons(c: nat, rest: seq<nat>)
    requires Scalar(c) && Scalars(rest)
    ensures Scalars([c] + rest) && EncodeAll([c] + rest) == Encode(c) + EncodeAll(rest)
  {
    hide Encode, Scalar;
    assert ([c] + rest)[1..] == rest;
  }

  /** The text test accepts exactly the encodings of scalar values. */
  lemma TextIff(b: Bytes)
    ensures Utf8(b) <==> exists cs: seq<nat> :: Scalars(cs) && EncodeAll(cs) == b
  {
    if Utf8(b) { var cs := DecodeAll(b); }
    if cs: seq<nat> :| Scalars(cs) && EncodeAll(cs) == b { EncodedIsUtf8(cs); }
  }
}
