/** The 64-bit words behind `PageWalk.Descriptor`: VMSAv8-64 level-3 page
    descriptors, and the invalid words that carry a swap token. */
module Descriptors {
  import opened Options
  import opened PageWalk
  import opened Regions

  const VALID: bv64 := 1
  const PAGE_DESCRIPTOR: bv64 := 3
  const AF: bv64 := 0x400
  const SH_INNER: bv64 := 0x300
  const PXN: bv64 := 0x0020_0000_0000_0000
  const UXN: bv64 := 0x0040_0000_0000_0000
  const AP_KERNEL_RO: bv64 := 0x80
  const DEVICE_INDEX: bv64 := 0x1c
  const PT_ADDR_MASK: bv64 := 0x0000_ffff_ffff_f000
  const SWAP_MARKER: bv64 := 2

  datatype Leaf = Empty | Swapped(token: bv32) | Mapped(phys: bv64, attrs: Attrs)
  {
    /** Tokens are nonzero; an output address has only address bits. */
    predicate Proper() {
      match this
      case Empty => true
      case Swapped(token) => token != 0
      case Mapped(phys, _) => phys & !PT_ADDR_MASK == 0
    }
  }

  /** `page_flags_to_pte` and `device_pte`: attribute bits alone. */
  function AttrBits(a: Attrs): bv64 {
    (if a.device then DEVICE_INDEX else 0) | UXN
    | (if a.executable then 0 else PXN) | (if a.writable then 0 else AP_KERNEL_RO)
  }

  /** A page descriptor's bits apart from the output address. */
  function Low(bits: bv64): bv64 {
    bits | PAGE_DESCRIPTOR | AF | SH_INNER
  }

  function PageWord(phys: bv64, bits: bv64): bv64 {
    phys | Low(bits)
  }

  function SwapWord(token: bv32): bv64 {
    SWAP_MARKER | ((token as bv64) << 2)
  }

  function Encode(d: Leaf): bv64 {
    match d
    case Empty => 0
    case Swapped(token) => SwapWord(token)
    case Mapped(phys, attrs) => PageWord(phys, AttrBits(attrs))
  }

  function SwapToken(word: bv64): Option<bv32> {
    if word & VALID != 0 || word & SWAP_MARKER == 0 then None
    else
      var token := ((word >> 2) & 0xffff_ffff) as bv32;
      if token == 0 then None else Some(token)
  }

  function AttrsIn(word: bv64): Attrs {
    Attrs(word & AP_KERNEL_RO == 0, word & PXN == 0, word & DEVICE_INDEX == DEVICE_INDEX)
  }

  function Decode(word: bv64): Leaf {
    if word & VALID != 0 then Mapped(word & PT_ADDR_MASK, AttrsIn(word))
    else match SwapToken(word)
      case None => Empty
      case Some(token) => Swapped(token)
  }

  lemma SwapWordBack(token: bv32)
    ensures SwapWord(token) & VALID == 0 && SwapWord(token) & SWAP_MARKER != 0
    ensures (SwapWord(token) >> 2) & 0xffff_ffff == token as bv64
  {
  }

  lemma PageWordBack(phys: bv64, a: Attrs)
    requires phys & !PT_ADDR_MASK == 0
    ensures PageWord(phys, AttrBits(a)) & VALID != 0
    ensures PageWord(phys, AttrBits(a)) & PT_ADDR_MASK == phys
    ensures AttrsIn(PageWord(phys, AttrBits(a))) == a
  {
  }

  /** The words are decoded to what they were encoded from, so the fault path
      reads the token of a swapped page out of the leaf itself. */
  lemma DecodeEncode(d: Leaf)
    requires d.Proper()
    ensures Decode(Encode(d)) == d
    ensures SwapToken(Encode(d)) == if d.Swapped? then Some(d.token) else None
  {
    hide SwapWord, PageWord, AttrBits, AttrsIn;
    match d
    case Empty =>
    case Swapped(token) => SwapWordBack(token);
    case Mapped(phys, attrs) => PageWordBack(phys, attrs);
  }

  /** `protect_4k_no_flush` rewrites the attributes and keeps the frame. */
  lemma ProtectWord(phys: bv64, a: Attrs, b: Attrs)
    requires phys & !PT_ADDR_MASK == 0
    ensures PageWord(Encode(Mapped(phys, a)) & PT_ADDR_MASK, AttrBits(b)) == Encode(Mapped(phys, b))
  {
  }

  lemma LowBits(a: Attrs)
    ensures Low(AttrBits(a)) & PT_ADDR_MASK == 0
  {
  }

  lemma MaskedOut(phys: bv64, low: bv64)
    requires phys & !PT_ADDR_MASK == 0 && low & PT_ADDR_MASK == 0
    ensures (phys | low) & !PT_ADDR_MASK == low
  {
  }

  /** `relocate` swaps the frame and keeps every other bit. */
  lemma RelocateWord(phys: bv64, to: bv64, a: Attrs)
    requires phys & !PT_ADDR_MASK == 0 && to & !PT_ADDR_MASK == 0
    ensures to | (Encode(Mapped(phys, a)) & !PT_ADDR_MASK) == Encode(Mapped(to, a))
  {
    hide Low, AttrBits;
    LowBits(a);
    MaskedOut(phys, Low(AttrBits(a)));
  }

  // ---- The words and the page table's own descriptors

  function FrameOf(phys: bv64): Frame {
    (phys >> 12) as nat
  }

  /** What `PageTables.PageTable` reads in a leaf slot that holds `word`. */
  function Read(word: bv64): Descriptor {
    match Decode(word)
    case Empty => Absent
    case Swapped(token) => Swap(token as nat)
    case Mapped(phys, attrs) => Page(FrameOf(phys), attrs)
  }

  lemma ReadPage(phys: bv64, a: Attrs)
    requires phys & !PT_ADDR_MASK == 0
    ensures Read(PageWord(phys, AttrBits(a))) == Page(FrameOf(phys), a)
  {
    hide PageWord, AttrBits, AttrsIn, FrameOf;
    PageWordBack(phys, a);
  }

  lemma MaskedProper(word: bv64)
    ensures (word & PT_ADDR_MASK) & !PT_ADDR_MASK == 0
  {
  }

  lemma RetargetBits(word: bv64, to: bv64)
    requires word & VALID != 0 && to & !PT_ADDR_MASK == 0
    ensures var w := to | (word & !PT_ADDR_MASK);
            w & VALID != 0 && w & PT_ADDR_MASK == to && AttrsIn(w) == AttrsIn(word)
  {
  }

  /** The valid bit is all `map_4k`, `unmap_4k`, `protect_4k` and
      `translate_4k` look at, and they see a page exactly when it is set. */
  lemma ValidIsPage(word: bv64)
    ensures word & VALID != 0 <==> Read(word).Page?
  {
  }

  lemma ReadSwap(token: bv32)
    requires token != 0
    ensures Read(SwapWord(token)) == Swap(token as nat)
  {
    DecodeEncode(Swapped(token));
  }

  lemma ReadNothing()
    ensures Read(0) == Absent
  {
  }

  lemma ReadProtect(word: bv64, a: Attrs)
    requires Read(word).Page?
    ensures Read(PageWord(word & PT_ADDR_MASK, AttrBits(a))) == Page(Read(word).frame, a)
  {
    hide PageWord, AttrBits, AttrsIn, FrameOf;
    MaskedProper(word);
    ReadPage(word & PT_ADDR_MASK, a);
  }

  lemma ReadRetarget(word: bv64, to: bv64)
    requires Read(word).Page? && to & !PT_ADDR_MASK == 0
    ensures Read(to | (word & !PT_ADDR_MASK)) == Page(FrameOf(to), Read(word).attrs)
  {
    hide AttrsIn, FrameOf;
    RetargetBits(word, to);
  }

  /** Each word the code stores into a leaf slot reads as the descriptor that
      the page table's operation stores there: a page, new attributes on the
      old frame, a new frame under the old attributes, a swap token, nothing. */
  lemma StoreReads(word: bv64, phys: bv64, a: Attrs, token: bv32)
    requires phys & !PT_ADDR_MASK == 0 && token != 0
    ensures Read(PageWord(phys, AttrBits(a))) == Page(FrameOf(phys), a)
    ensures Read(word).Page? ==> Read(PageWord(word & PT_ADDR_MASK, AttrBits(a))) == Page(Read(word).frame, a)
    ensures Read(word).Page? ==> Read(phys | (word & !PT_ADDR_MASK)) == Page(FrameOf(phys), Read(word).attrs)
    ensures Read(SwapWord(token)) == Swap(token as nat) && Read(0) == Absent
  {
    hide *;
    ReadPage(phys, a);
    ReadSwap(token);
    ReadNothing();
    if Read(word).Page? {
      ReadProtect(word, a);
      ReadRetarget(word, phys);
    }
  }

  // ---- Bit by bit

  /** The word stored for a committed page. */
  function FlagWord(phys: bv64, flags: PageFlags): bv64 {
    PageWord(phys, AttrBits(AttrsOf(flags)))
  }

  /** The word stored for a device page. */
  function DeviceWord(phys: bv64, writable: bool, device: bool): bv64 {
    PageWord(phys, AttrBits(DeviceAttrs(writable, device)))
  }

  /** A page descriptor with output address `phys`, access flag set, inner
      shareable, never executable below the kernel, and nothing unnamed. */
  predicate PageBits(w: bv64, phys: bv64, index: bv64, readOnly: bv64, noExecute: bv64) {
    && w & 3 == 3 && (w >> 2) & 7 == index && (w >> 5) & 3 == 0 && (w >> 7) & 1 == readOnly && (w >> 8) & 7 == 7
    && (w >> 11) & 1 == 0 && w & 0x0000_ffff_ffff_f000 == phys && (w >> 48) & 31 == 0
    && (w >> 53) & 1 == noExecute && (w >> 54) & 1 == 1 && w >> 55 == 0
  }

  /** Every bit of a committed page's word: bit 7 is set unless the page may be
      written, bit 53 unless it may be executed. */
  lemma FlagWordBits(phys: bv64, flags: PageFlags)
    requires phys & !0x0000_ffff_ffff_f000 == 0
    ensures PageBits(FlagWord(phys, flags), phys, 0, if flags.write then 0 else 1, if flags.execute then 0 else 1)
  {
    hide Low, AttrBits, AttrsOf, PageBits;
    LowFlags(flags);
    if flags.write {
      if flags.execute { JoinBits(phys, 0, 0, 0); } else { JoinBits(phys, 0, 0, 1); }
    } else {
      if flags.execute { JoinBits(phys, 0, 1, 0); } else { JoinBits(phys, 0, 1, 1); }
    }
  }

  lemma LowFlags(flags: PageFlags)
    ensures Low(AttrBits(AttrsOf(flags))) == LowBitsOf(0, if flags.write then 0 else 1, if flags.execute then 0 else 1)
  {
  }

  function LowBitsOf(index: bv64, readOnly: bv64, noExecute: bv64): bv64 {
    0x0040_0000_0000_0703 | (index << 2) | (readOnly << 7) | (noExecute << 53)
  }

  lemma JoinBits(phys: bv64, index: bv64, readOnly: bv64, noExecute: bv64)
    requires phys & !0x0000_ffff_ffff_f000 == 0 && index <= 7 && readOnly <= 1 && noExecute <= 1
    ensures PageBits(phys | LowBitsOf(index, readOnly, noExecute), phys, index, readOnly, noExecute)
  {
  }

  /** Every bit of a device page's word: memory attribute index 7 for registers
      and 0 for memory behind a bus window, never executable. */
  lemma DeviceWordBits(phys: bv64, writable: bool, device: bool)
    requires phys & !0x0000_ffff_ffff_f000 == 0
    ensures PageBits(DeviceWord(phys, writable, device), phys, if device then 7 else 0, if writable then 0 else 1, 1)
  {
  }

  /** Every bit of a swap word. */
  lemma SwapWordBits(token: bv32)
    ensures SwapWord(token) & 3 == 2 && SwapWord(token) >> 2 == token as bv64
  {
  }

  /** What the descriptor read in a slot says about the bits there. */
  lemma ReadBits(w: bv64)
    ensures Read(w).Page? <==> w & 1 == 1
    ensures Read(w).Page? ==>
              && (Read(w).attrs.writable <==> (w >> 7) & 1 == 0) && (Read(w).attrs.executable <==> (w >> 53) & 1 == 0)
              && (Read(w).attrs.device <==> (w >> 2) & 7 == 7)
              && Read(w).frame == ((w & 0x0000_ffff_ffff_f000) >> 12) as nat
    ensures Read(w).Swap? <==> w & 3 == 2 && (w >> 2) & 0xffff_ffff != 0
    ensures Read(w).Swap? ==> Read(w).token == ((w >> 2) & 0xffff_ffff) as bv32 as nat
  {
  }

  /** Every page of the range reads as the word with these flags would, on the
      frame it has. */
  ghost predicate SlotsHold(leaf: map<PageNo, Descriptor>, range: Range, flags: PageFlags) {
    forall p: PageNo, phys: bv64 {:trigger range.Has(p), FrameOf(phys)} ::
      range.Has(p) && phys & !0x0000_ffff_ffff_f000 == 0 ==> SlotHolds(leaf, p, phys, flags)
  }

  ghost predicate SlotHolds(leaf: map<PageNo, Descriptor>, p: PageNo, phys: bv64, flags: PageFlags) {
    && p in leaf && leaf[p].Page?
    && (leaf[p].frame == FrameOf(phys) ==> leaf[p] == Read(FlagWord(phys, flags)))
  }

  lemma SlotsRead(leaf: map<PageNo, Descriptor>, range: Range, flags: PageFlags)
    requires forall p: PageNo :: range.Has(p) ==> p in leaf && leaf[p].Page? && leaf[p].attrs == AttrsOf(flags)
    ensures SlotsHold(leaf, range, flags)
  {
    hide Read, FlagWord, FrameOf, AttrsOf;
    forall p: PageNo, phys: bv64 | range.Has(p) && phys & !0x0000_ffff_ffff_f000 == 0 ensures SlotHolds(leaf, p, phys, flags) {
      FlagWordReads(phys, flags);
    }
  }

  lemma FlagWordReads(phys: bv64, flags: PageFlags)
    requires phys & !0x0000_ffff_ffff_f000 == 0
    ensures Read(FlagWord(phys, flags)) == Page(FrameOf(phys), AttrsOf(flags))
  {
    hide Read, PageWord, AttrBits, FrameOf, AttrsOf;
    ReadPage(phys, AttrsOf(flags));
  }

  /** Four nine-bit indices of a virtual address, root first. */
  function TableIndex(virt: bv64, level: nat): bv64
    requires level < 4
  {
    match level
    case 0 => (virt >> 39) & 0x1ff
    case 1 => (virt >> 30) & 0x1ff
    case 2 => (virt >> 21) & 0x1ff
    case _ => (virt >> 12) & 0x1ff
  }

  function PageOf(virt: bv64): bv64 {
    virt & PT_ADDR_MASK
  }

  function Joined(i0: bv64, i1: bv64, i2: bv64, i3: bv64): bv64 {
    (i0 << 39) | (i1 << 30) | (i2 << 21) | (i3 << 12)
  }

  lemma SplitAddress(v: bv64)
    ensures PageOf(v) == Joined(TableIndex(v, 0), TableIndex(v, 1), TableIndex(v, 2), TableIndex(v, 3))
  {
  }

  lemma IndexOfPage(v: bv64, level: nat)
    requires level < 4
    ensures TableIndex(v, level) == TableIndex(PageOf(v), level)
  {
  }

  /** Two addresses walk to the same slot exactly when they share a page of
      the 48-bit space. */
  lemma SameSlot(v: bv64, w: bv64)
    ensures (forall level :: 0 <= level < 4 ==> TableIndex(v, level) == TableIndex(w, level)) <==> PageOf(v) == PageOf(w)
  {
    hide TableIndex, PageOf, Joined;
    SplitAddress(v);
    SplitAddress(w);
    forall level | 0 <= level < 4
      ensures TableIndex(v, level) == TableIndex(PageOf(v), level) && TableIndex(w, level) == TableIndex(PageOf(w), level)
    {
      IndexOfPage(v, level);
      IndexOfPage(w, level);
    }
  }
}
