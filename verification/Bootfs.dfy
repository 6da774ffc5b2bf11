/** The `helios-bootfs` payload image and its parser. */
module Bootfs {
  import opened Options
  import opened Wire

  const HEADER_BYTES := 48
  const ENTRY_BYTES := 48
  const VERSION := 1
  const U32_SPAN := 0x1_0000_0000
  const U64_SPAN := 0x1_0000_0000_0000_0000

  /** "HLBOOTFS" */
  const MAGIC: Bytes := [0x48, 0x4c, 0x42, 0x4f, 0x4f, 0x54, 0x46, 0x53]

  datatype EntryKind = Directory | File | InitComponent | InitArgv0
  {
    function ToWire(): nat {
      match this
      case Directory => 0
      case File => 1
      case InitComponent => 2
      case InitArgv0 => 3
    }

    /** The kinds whose entries never carry data. */
    predicate Bare() { Directory? || InitArgv0? }

    /** The kinds whose paths form one namespace. */
    predicate Named() { Directory? || File? }
  }

  function FromWire(n: nat): Option<EntryKind> {
    match n
    case 0 => Some(Directory)
    case 1 => Some(File)
    case 2 => Some(InitComponent)
    case 3 => Some(InitArgv0)
    case _ => None
  }

  datatype Entry = Entry(kind: EntryKind, path: Bytes, data: Bytes, modifiedNanos: nat)

  datatype Section = EntryTable | StringTable | Data

  datatype BootfsError =
    | TruncatedHeader | BadMagic | BadVersion(found: nat) | EntryTableOverrun(count: nat)
    | SectionMisaligned(section: Section) | SectionOverrun(section: Section) | SectionOrder(section: Section)
    | EntryKindUnknown(index: nat) | EntryReserved(index: nat)
    | EntryPathMisaligned(index: nat) | EntryDataMisaligned(index: nat)
    | EntryPathOverrun(index: nat) | EntryPathNotUtf8(index: nat) | EntryDataOverrun(index: nat)
    | EntryDataUnexpected(index: nat)
    | DuplicatePath(index: nat) | InitComponentCount(found: nat) | InitArgv0Count(found: nat)

  datatype Result<T> = Ok(value: T) | Err(error: BootfsError)

  datatype Span = Span(start: nat, end: nat)

  /** A parsed image: a view over `bytes`. */
  datatype Image = Image(bytes: Bytes, count: nat, strings: Span, data: Span)

  // ---- Parser

  function CheckedSection(offset: nat, len: nat, imageLen: nat, section: Section): Result<Span> {
    if offset % SECTION_ALIGN != 0 then Err(SectionMisaligned(section))
    else if offset + len >= U64_SPAN || offset + len > imageLen then Err(SectionOverrun(section))
    else Ok(Span(offset, offset + len))
  }

  /** Everything `parse` checks before it looks at an entry. */
  function Header(bytes: Bytes): Result<Image> {
    if |bytes| < HEADER_BYTES then Err(TruncatedHeader)
    else if bytes[..8] != MAGIC then Err(BadMagic)
    else if ReadLe(bytes, 8, 4) != VERSION then Err(BadVersion(ReadLe(bytes, 8, 4)))
    else
      var count := ReadLe(bytes, 12, 4);
      var entriesEnd := HEADER_BYTES + count * ENTRY_BYTES;
      if entriesEnd > |bytes| then Err(EntryTableOverrun(count))
      else
        match CheckedSection(ReadLe(bytes, 16, 8), ReadLe(bytes, 24, 8), |bytes|, StringTable)
        case Err(e) => Err(e)
        case Ok(strings) =>
          match CheckedSection(ReadLe(bytes, 32, 8), ReadLe(bytes, 40, 8), |bytes|, Data)
          case Err(e) => Err(e)
          case Ok(data) =>
            if entriesEnd > strings.start then Err(SectionOrder(EntryTable))
            else if strings.end > data.start then Err(SectionOrder(StringTable))
            else Ok(Image(bytes, count, strings, data))
  }

  /** The sections lie inside the image, in order and apart. */
  predicate Laid(img: Image) {
    HEADER_BYTES + img.count * ENTRY_BYTES <= img.strings.start <= img.strings.end
    <= img.data.start <= img.data.end <= |img.bytes|
  }

  lemma HeaderLaid(bytes: Bytes)
    requires Header(bytes).Ok?
    ensures Laid(Header(bytes).value) && Header(bytes).value.bytes == bytes
  {
  }

  /** A slice of a section, by an offset into it. */
  function SliceIn(img: Image, section: Span, offset: nat, len: nat, error: BootfsError): (r: Result<Bytes>)
    requires section.start <= section.end <= |img.bytes|
    ensures r.Ok? <==> offset + len < U64_SPAN && offset + len <= section.end - section.start
    ensures r.Ok? ==> r.value == img.bytes[section.start + offset..section.start + offset + len]
    ensures r.Err? ==> r.error == error
  {
    if offset + len >= U64_SPAN then Err(error)
    else if offset + len > section.end - section.start then Err(error)
    else Ok(img.bytes[section.start + offset..section.start + offset + len])
  }

  function RecordBase(i: nat): nat {
    HEADER_BYTES + i * ENTRY_BYTES
  }

  lemma RecordInside(img: Image, i: nat)
    requires Laid(img) && i < img.count
    ensures RecordBase(i) + ENTRY_BYTES <= img.strings.start <= |img.bytes|
  {
  }

  function EntryAt(img: Image, i: nat): Result<Entry>
    requires Laid(img) && i < img.count
  {
    RecordInside(img, i);
    var base := RecordBase(i);
    match FromWire(ReadLe(img.bytes, base, 4))
    case None => Err(EntryKindUnknown(i))
    case Some(kind) =>
      if ReadLe(img.bytes, base + 4, 4) != 0 then Err(EntryReserved(i))
      else
        var pathOffset, dataOffset := ReadLe(img.bytes, base + 8, 8), ReadLe(img.bytes, base + 24, 8);
        if pathOffset % SECTION_ALIGN != 0 then Err(EntryPathMisaligned(i))
        else if dataOffset % SECTION_ALIGN != 0 then Err(EntryDataMisaligned(i))
        else
          match SliceIn(img, img.strings, pathOffset, ReadLe(img.bytes, base + 16, 8), EntryPathOverrun(i))
          case Err(e) => Err(e)
          case Ok(path) =>
            if !Utf8(path) then Err(EntryPathNotUtf8(i))
            else
              match SliceIn(img, img.data, dataOffset, ReadLe(img.bytes, base + 32, 8), EntryDataOverrun(i))
              case Err(e) => Err(e)
              case Ok(data) =>
                if data != [] && kind.Bare() then Err(EntryDataUnexpected(i))
                else Ok(Entry(kind, path, data, ReadLe(img.bytes, base + 40, 8)))
  }

  /** The loop over the entries from `i` on, with what it carries. */
  function Scan(img: Image, i: nat, components: nat, argv0s: nat, paths: set<Bytes>): Result<Image>
    requires Laid(img) && i <= img.count
    decreases img.count - i
  {
    if i == img.count then
      if components != 1 then Err(InitComponentCount(components))
      else if argv0s != 1 then Err(InitArgv0Count(argv0s))
      else Ok(img)
    else
      match EntryAt(img, i)
      case Err(e) => Err(e)
      case Ok(entry) =>
        if entry.kind.InitComponent? then Scan(img, i + 1, components + 1, argv0s, paths)
        else if entry.kind.InitArgv0? then Scan(img, i + 1, components, argv0s + 1, paths)
        else if entry.path in paths then Err(DuplicatePath(i))
        else Scan(img, i + 1, components, argv0s, paths + {entry.path})
  }

  function Parsed(bytes: Bytes): Result<Image> {
    match Header(bytes)
    case Err(e) => Err(e)
    case Ok(img) => HeaderLaid(bytes); Scan(img, 0, 0, 0, {})
  }

  /** `Image::parse`. */
  method Parse(bytes: Bytes) returns (r: Result<Image>)
    ensures r == Parsed(bytes)
  {
    hide Header, EntryAt;
    var header := Header(bytes);
    if header.Err? { return header; }
    HeaderLaid(bytes);
    var img := header.value;
    var components, argv0s := 0, 0;
    var paths: set<Bytes> := {};
    for index := 0 to img.count
      invariant Parsed(bytes) == Scan(img, index, components, argv0s, paths)
    {
      var entry := EntryAt(img, index);
      if entry.Err? { return Err(entry.error); }
      match entry.value.kind {
        case InitComponent => components := components + 1;
        case InitArgv0 => argv0s := argv0s + 1;
        case _ =>
          if entry.value.path in paths { return Err(DuplicatePath(index)); }
          paths := paths + {entry.value.path};
      }
    }
    if components != 1 { return Err(InitComponentCount(components)); }
    if argv0s != 1 { return Err(InitArgv0Count(argv0s)); }
    return Ok(img);
  }

  // ---- What the parser accepts

  /** Entry `i` is of the kind and no other is. */
  predicate OnlyAt(es: seq<Entry>, i: nat, kind: EntryKind) {
    i < |es| && es[i].kind == kind && forall j :: 0 <= j < |es| && es[j].kind == kind ==> j == i
  }

  predicate OneOf(es: seq<Entry>, kind: EntryKind) {
    exists i :: 0 <= i < |es| && OnlyAt(es, i, kind)
  }

  predicate NoRepeat(es: seq<Entry>) {
    forall i, j :: 0 <= i < j < |es| && es[i].kind.Named() && es[j].kind.Named() ==> es[i].path != es[j].path
  }

  predicate Good(es: seq<Entry>) {
    OneOf(es, InitComponent) && OneOf(es, InitArgv0) && NoRepeat(es)
  }

  predicate Readable(img: Image)
    requires Laid(img)
  {
    forall i :: 0 <= i < img.count ==> EntryAt(img, i).Ok?
  }

  /** `entries()`: it never meets an error on a parsed image. */
  function Entries(img: Image): (es: seq<Entry>)
    requires Laid(img) && Readable(img)
    ensures |es| == img.count && forall i :: 0 <= i < |es| ==> es[i] == EntryAt(img, i).value
  {
    seq(img.count, i requires 0 <= i < img.count => EntryAt(img, i).value)
  }

  function Count(es: seq<Entry>, kind: EntryKind): nat {
    if es == [] then 0 else
      var n := |es| - 1;
      Count(es[..n], kind) + (if es[n].kind == kind then 1 else 0)
  }

  predicate NoneOf(es: seq<Entry>, kind: EntryKind) {
    forall i :: 0 <= i < |es| ==> es[i].kind != kind
  }

  lemma OneOfStep(es: seq<Entry>, e: Entry, kind: EntryKind)
    ensures OneOf(es + [e], kind) <==> if e.kind == kind then NoneOf(es, kind) else OneOf(es, kind)
  {
    var n, all := |es|, es + [e];
    assert all[n] == e && forall i :: 0 <= i < n ==> all[i] == es[i];
    if OneOf(all, kind) {
      var i :| 0 <= i < |all| && OnlyAt(all, i, kind);
      OnlyAtStep(es, e, kind, i);
    }
    if e.kind != kind && OneOf(es, kind) {
      var i :| 0 <= i < n && OnlyAt(es, i, kind);
      OnlyAtStep(es, e, kind, i);
    }
    OnlyAtStep(es, e, kind, n);
  }

  lemma OnlyAtStep(es: seq<Entry>, e: Entry, kind: EntryKind, i: nat)
    requires i <= |es|
    ensures OnlyAt(es + [e], i, kind) <==> if i == |es| then e.kind == kind && NoneOf(es, kind) else e.kind != kind && OnlyAt(es, i, kind)
  {
    var n, all := |es|, es + [e];
    assert all[n] == e;
    forall j | 0 <= j < n ensures all[j] == es[j] {}
    if i == n {
      if OnlyAt(all, n, kind) {
        forall j | 0 <= j < n ensures es[j].kind != kind { assert all[j] == es[j]; }
      }
    } else {
      if OnlyAt(all, i, kind) {
        forall j | 0 <= j < n && es[j].kind == kind ensures j == i { assert all[j].kind == kind; }
      }
    }
  }

  lemma {:induction false} CountNone(es: seq<Entry>, kind: EntryKind)
    ensures Count(es, kind) == 0 <==> NoneOf(es, kind)
  {
    if es != [] {
      var n := |es| - 1;
      CountNone(es[..n], kind);
      assert es == es[..n] + [es[n]];
    }
  }

  lemma {:induction false} CountOne(es: seq<Entry>, kind: EntryKind)
    ensures Count(es, kind) == 1 <==> OneOf(es, kind)
  {
    if es != [] {
      hide OneOf, NoneOf;
      var n := |es| - 1;
      CountOne(es[..n], kind);
      CountNone(es[..n], kind);
      OneOfStep(es[..n], es[n], kind);
      assert es == es[..n] + [es[n]];
    }
  }

  /** Paths of the directories and files among `es`. */
  function NamedPaths(es: seq<Entry>): (s: set<Bytes>)
    ensures forall p :: p in s <==> exists i :: 0 <= i < |es| && es[i].kind.Named() && es[i].path == p
  {
    set i | 0 <= i < |es| && es[i].kind.Named() :: es[i].path
  }

  lemma NoRepeatStep(es: seq<Entry>, e: Entry)
    ensures NoRepeat(es + [e]) <==> NoRepeat(es) && !(e.kind.Named() && e.path in NamedPaths(es))
  {
    var all := es + [e];
    assert all[|es|] == e && forall i :: 0 <= i < |es| ==> all[i] == es[i];
    if NoRepeat(es) && !(e.kind.Named() && e.path in NamedPaths(es)) {
      forall i, j | 0 <= i < j < |all| && all[i].kind.Named() && all[j].kind.Named() ensures all[i].path != all[j].path {
        if j == |es| { assert es[i].path in NamedPaths(es); }
      }
    }
    if e.kind.Named() && e.path in NamedPaths(es) {
      var i :| 0 <= i < |es| && es[i].kind.Named() && es[i].path == e.path;
      assert all[i].path == all[|es|].path;
      assert !NoRepeat(all);
    }
  }

  lemma NamedStep(es: seq<Entry>, e: Entry)
    ensures NamedPaths(es + [e]) == if e.kind.Named() then NamedPaths(es) + {e.path} else NamedPaths(es)
  {
    var all := es + [e];
    assert all[|es|] == e && forall i :: 0 <= i < |es| ==> all[i] == es[i];
    forall p ensures p in NamedPaths(all) <==> p in NamedPaths(es) || (e.kind.Named() && p == e.path) {
      if p in NamedPaths(es) { var i :| 0 <= i < |es| && es[i].kind.Named() && es[i].path == p; assert all[i].path == p; }
      if e.kind.Named() && p == e.path { assert all[|es|].path == p; }
    }
  }

  /** `es` is what the entries of `img` below `i` read as. */
  predicate Seen(img: Image, es: seq<Entry>)
    requires Laid(img)
  {
    |es| <= img.count && forall j :: 0 <= j < |es| ==> EntryAt(img, j) == Ok(es[j])
  }

  function ScanFrom(img: Image, es: seq<Entry>): Result<Image>
    requires Laid(img) && |es| <= img.count
  {
    Scan(img, |es|, Count(es, InitComponent), Count(es, InitArgv0), NamedPaths(es))
  }

  lemma ScanStep(img: Image, es: seq<Entry>, e: Entry)
    requires Laid(img) && |es| < img.count && EntryAt(img, |es|) == Ok(e) && NoRepeat(es)
    ensures if NoRepeat(es + [e]) then ScanFrom(img, es) == ScanFrom(img, es + [e]) else ScanFrom(img, es).Err?
  {
    hide EntryAt, NoRepeat, NamedPaths;
    var all := es + [e];
    NoRepeatStep(es, e);
    NamedStep(es, e);
    assert all[..|es|] == es && all[|es|] == e;
    assert Count(all, InitComponent) == Count(es, InitComponent) + if e.kind.InitComponent? then 1 else 0;
    assert Count(all, InitArgv0) == Count(es, InitArgv0) + if e.kind.InitArgv0? then 1 else 0;
  }

  lemma {:induction false} ScanIff(img: Image, es: seq<Entry>)
    requires Laid(img) && Seen(img, es) && NoRepeat(es)
    ensures ScanFrom(img, es).Ok? <==> Readable(img) && Good(Entries(img))
    ensures ScanFrom(img, es).Ok? ==> ScanFrom(img, es).value == img
    decreases img.count - |es|
  {
    hide EntryAt, NoRepeat, OneOf, NamedPaths;
    var i := |es|;
    if i == img.count {
      assert Readable(img) && Entries(img) == es;
      CountOne(es, InitComponent);
      CountOne(es, InitArgv0);
    } else if EntryAt(img, i).Ok? {
      var all := es + [EntryAt(img, i).value];
      ScanStep(img, es, EntryAt(img, i).value);
      if NoRepeat(all) {
        ScanIff(img, all);
      } else if Readable(img) {
        assert forall j :: 0 <= j < |all| ==> Entries(img)[j] == all[j];
        RepeatStays(all, Entries(img));
      }
    }
  }

  lemma RepeatStays(es: seq<Entry>, all: seq<Entry>)
    requires !NoRepeat(es) && |es| <= |all| && forall i :: 0 <= i < |es| ==> all[i] == es[i]
    ensures !NoRepeat(all)
  {
  }

  /** What parsing establishes, for every byte string: it succeeds exactly when
      the layout is right, every entry reads, and the entries make one image. */
  lemma ParsedIff(bytes: Bytes)
    ensures Parsed(bytes).Ok? <==>
              Header(bytes).Ok? && Laid(Header(bytes).value) && Readable(Header(bytes).value) && Good(Entries(Header(bytes).value))
    ensures Parsed(bytes).Ok? ==> Parsed(bytes).value == Header(bytes).value
  {
    if Header(bytes).Ok? {
      HeaderLaid(bytes);
      var img := Header(bytes).value;
      ScanIff(img, []);
      assert NamedPaths([]) == {};
    }
  }

  /** After entries that read and repeat no path, the scan stands where it
      would have started with them counted. */
  lemma {:induction false} ParsedPrefix(bytes: Bytes, es: seq<Entry>)
    requires Header(bytes).Ok? && Laid(Header(bytes).value) && Seen(Header(bytes).value, es) && NoRepeat(es)
    ensures Parsed(bytes) == ScanFrom(Header(bytes).value, es)
  {
    hide EntryAt, Header, NoRepeat, Scan;
    if es == [] {
      NothingNamed();
    } else {
      var n := |es| - 1;
      var head, last := es[..n], es[n];
      assert es == head + [last];
      NoRepeatStep(head, last);
      ParsedPrefix(bytes, head);
      ScanStep(Header(bytes).value, head, last);
    }
  }

  lemma NothingNamed()
    ensures NamedPaths([]) == {} && Count([], InitComponent) == 0 == Count([], InitArgv0)
  {
  }

  /** What parsing reports once the header is good: the error of the first entry
      that does not read or repeats a path, and then the counts. */
  lemma ParsedErrors(bytes: Bytes, es: seq<Entry>)
    requires Header(bytes).Ok? && Laid(Header(bytes).value) && Seen(Header(bytes).value, es) && NoRepeat(es)
    ensures var img, i := Header(bytes).value, |es|;
            && (i < img.count && EntryAt(img, i).Err? ==> Parsed(bytes) == Err(EntryAt(img, i).error))
            && (i < img.count && EntryAt(img, i).Ok? && !NoRepeat(es + [EntryAt(img, i).value]) ==> Parsed(bytes) == Err(DuplicatePath(i)))
            && (i == img.count ==>
                  Parsed(bytes) == if Count(es, InitComponent) != 1 then Err(InitComponentCount(Count(es, InitComponent)))
                                   else if Count(es, InitArgv0) != 1 then Err(InitArgv0Count(Count(es, InitArgv0)))
                                   else Ok(img))
  {
    hide EntryAt, Header, NoRepeat, NamedPaths, Parsed;
    ParsedPrefix(bytes, es);
    var img := Header(bytes).value;
    if |es| < img.count && EntryAt(img, |es|).Ok? { NoRepeatStep(es, EntryAt(img, |es|).value); }
  }

  predicate HasAt(bytes: Bytes, a: nat, part: Bytes) {
    a + |part| <= |bytes| && bytes[a..a + |part|] == part
  }

  predicate LiesIn(bytes: Bytes, section: Span, part: Bytes) {
    exists a :: section.start <= a && a + |part| <= section.end && HasAt(bytes, a, part)
  }

  lemma EntrySlices(img: Image, i: nat)
    requires Laid(img) && i < img.count && EntryAt(img, i).Ok?
    ensures Utf8(EntryAt(img, i).value.path) && (EntryAt(img, i).value.kind.Bare() ==> EntryAt(img, i).value.data == [])
    ensures LiesIn(img.bytes, img.strings, EntryAt(img, i).value.path)
    ensures LiesIn(img.bytes, img.data, EntryAt(img, i).value.data)
  {
    hide ReadLe, Utf8, FromWire;
    RecordInside(img, i);
    var base, e := RecordBase(i), EntryAt(img, i).value;
    assert HasAt(img.bytes, img.strings.start + ReadLe(img.bytes, base + 8, 8), e.path);
    assert HasAt(img.bytes, img.data.start + ReadLe(img.bytes, base + 24, 8), e.data);
  }

  /** A parsed image: sections in order, inside the slice and apart; every
      entry readable, its path in the string table and its data in the data
      section. */
  lemma ParsedSafe(bytes: Bytes)
    requires Parsed(bytes).Ok?
    ensures Parsed(bytes).value.bytes == bytes && Laid(Parsed(bytes).value) && Readable(Parsed(bytes).value)
    ensures forall i :: 0 <= i < Parsed(bytes).value.count ==>
              && Utf8(EntryAt(Parsed(bytes).value, i).value.path)
              && LiesIn(bytes, Parsed(bytes).value.strings, EntryAt(Parsed(bytes).value, i).value.path)
              && LiesIn(bytes, Parsed(bytes).value.data, EntryAt(Parsed(bytes).value, i).value.data)
  {
    hide EntryAt, Header, Parsed, Good, LiesIn, Utf8;
    ParsedIff(bytes);
    HeaderLaid(bytes);
    var img := Parsed(bytes).value;
    forall i | 0 <= i < img.count
      ensures Utf8(EntryAt(img, i).value.path)
      ensures LiesIn(bytes, img.strings, EntryAt(img, i).value.path) && LiesIn(bytes, img.data, EntryAt(img, i).value.data)
    {
      EntrySlices(img, i);
    }
  }
}
