/** What the address space promises about a state before and after an
    operation, and the value-level steps from the machine's own loops to those
    promises. */
module Outcomes {
  import opened Arithmetic
  import opened PageWalk
  import opened PageTables
  import opened Machine
  import opened Runs
  import opened DemandRuns
  import opened DeviceRuns
  import opened Regions
  import opened Tracker
  import opened Books
  import Descriptors

  /** A byte range in the low 48 bits of the TTBR1 half. */
  datatype VirtRange = VirtRange(start: nat, byteLen: nat)
  {
    predicate Aligned() { start % PAGE == 0 && byteLen % PAGE == 0 }
    function Paged(): Range { Range(start / PAGE, byteLen / PAGE) }

    /** The pages a loop in steps of a page from `start` meets. */
    function Stepped(): Range { Range(start / PAGE, (byteLen + PAGE - 1) / PAGE) }

    predicate Encloses(that: VirtRange) { that.start >= start && that.start + that.byteLen <= start + byteLen }
  }

  lemma SteppedInside(outer: VirtRange, inner: VirtRange)
    requires outer.Aligned() && outer.Encloses(inner)
    ensures outer.Paged().Encloses(inner.Stepped())
  {
    var n := (inner.byteLen + PAGE - 1) / PAGE;
    assert inner.byteLen > 0 ==> (n - 1) * PAGE < inner.byteLen;
  }

  function Validate(virt: VirtRange): Result<Unit> {
    if virt.byteLen == 0 then Err(EmptyRange)
    else if !virt.Aligned() then Err(Misaligned)
    else Ok(Unit)
  }

  /** A range passes exactly when it is a whole, positive number of pages from a
      page boundary on; an empty one is reported as such before alignment. */
  lemma ValidateExact(virt: VirtRange)
    ensures Validate(virt).Ok? <==> exists first: nat, n: nat :: n > 0 && virt.start == first * 4096 && virt.byteLen == n * 4096
    ensures Validate(virt) == Err(EmptyRange) <==> virt.byteLen == 0
    ensures Validate(virt).Err? && virt.byteLen > 0 ==> Validate(virt) == Err(Misaligned)
    ensures Validate(virt).Ok? ==> virt.start == virt.Paged().first * 4096 && virt.byteLen == virt.Paged().count * 4096 && virt.Paged().count > 0
  {
    if Validate(virt).Ok? {
      assert virt.start == virt.start / PAGE * 4096 && virt.byteLen == virt.byteLen / PAGE * 4096;
    }
  }

  /** The pages met in steps of a page are those of the bytes at whole pages
      from the start. */
  lemma SteppedExact(virt: VirtRange, p: PageNo)
    ensures virt.Stepped().Has(p) <==> exists k: nat :: k * 4096 < virt.byteLen && p == (virt.start + k * 4096) / 4096
  {
    var n := (virt.byteLen + PAGE - 1) / PAGE;
    if virt.Stepped().Has(p) {
      var k: nat := p - virt.start / PAGE;
      DivSplit(k, virt.start, 4096);
      assert k * 4096 < virt.byteLen;
    }
    if k: nat :| k * 4096 < virt.byteLen && p == (virt.start + k * 4096) / 4096 {
      DivSplit(k, virt.start, 4096);
      assert k < n;
    }
  }

  ghost predicate ByteOf(virt: VirtRange, b: nat) { virt.start <= b < virt.start + virt.byteLen }

  /** One byte range lies in another exactly when all its bytes do. */
  lemma EnclosesExact(outer: VirtRange, inner: VirtRange)
    requires inner.byteLen > 0
    ensures outer.Encloses(inner) <==> forall b: nat :: ByteOf(inner, b) ==> ByteOf(outer, b)
  {
    if forall b: nat :: ByteOf(inner, b) ==> ByteOf(outer, b) {
      assert ByteOf(inner, inner.start) && ByteOf(inner, inner.start + inner.byteLen - 1);
    }
  }

  /** At rest: nothing in hand, no stale translation, and no frame was ever
      given back while a translation to it survived. */
  ghost predicate Quiet(s: State) {
    Settled(s) && !s.tainted
  }

  ghost predicate Settled(s: State) {
    s.limbo == {} && Fresh(s)
  }

  ghost predicate Below(ranges: seq<Range>, limit: PageNo) {
    forall i :: 0 <= i < |ranges| ==> ranges[i].End() <= limit
  }

  /** The window up to the carving cursor is reservations and released ranges,
      and nothing else. */
  ghost predicate Accounted(ranges: seq<Range>, free: seq<Range>, cursor: PageNo) {
    && USER_FIRST <= cursor <= USER_END && Below(ranges, cursor) && Below(free, cursor)
    && forall p: PageNo :: USER_FIRST <= p < cursor ==> InSome(ranges, p) || InSome(free, p)
  }

  lemma InSomeAppend(rs: seq<Range>, x: Range)
    ensures forall p :: InSome(rs + [x], p) <==> InSome(rs, p) || x.Has(p)
  {
    var all := rs + [x];
    forall p ensures InSome(all, p) <==> InSome(rs, p) || x.Has(p) {
      if InSome(rs, p) { var i :| 0 <= i < |rs| && rs[i].Has(p); assert all[i].Has(p); }
      if x.Has(p) { assert all[|rs|].Has(p); }
    }
  }

  lemma BelowAppend(rs: seq<Range>, x: Range, limit: PageNo)
    requires Below(rs, limit) && x.End() <= limit
    ensures Below(rs + [x], limit)
  {
  }

  lemma AccountedCarve(ranges: seq<Range>, free: seq<Range>, cursor: PageNo, n: nat)
    requires Accounted(ranges, free, cursor) && cursor + n <= USER_END
    ensures Accounted(ranges + [Range(cursor, n)], free, cursor + n)
  {
    InSomeAppend(ranges, Range(cursor, n));
    BelowAppend(ranges, Range(cursor, n), cursor + n);
  }

  lemma AccountedReuse(ranges: seq<Range>, free: seq<Range>, rest: seq<Range>, taken: Range, cursor: PageNo)
    requires Accounted(ranges, free, cursor) && CarvedFrom(free, rest + [taken])
    requires forall p :: InSome(free, p) ==> InSome(rest + [taken], p)
    ensures Accounted(ranges + [taken], rest, cursor)
  {
    ReusedBelow(free, rest, taken, cursor);
    InSomeAppend(ranges, taken);
    InSomeAppend(rest, taken);
    BelowAppend(ranges, taken, cursor);
  }

  lemma AccountedRelease(ranges: seq<Range>, free: seq<Range>, cursor: PageNo, i: nat)
    requires Accounted(ranges, free, cursor) && i < |ranges|
    ensures Accounted(SwapRemove(ranges, i), free + [ranges[i]], cursor)
  {
    var rest := SwapRemove(ranges, i);
    InSomeAppend(free, ranges[i]);
    forall p: PageNo | USER_FIRST <= p < cursor ensures InSome(rest, p) || InSome(free + [ranges[i]], p) {
      if InSome(ranges, p) && !ranges[i].Has(p) {
        var k :| 0 <= k < |ranges| && ranges[k].Has(p);
        assert rest[if k == |ranges| - 1 then i else k].Has(p);
      }
    }
  }

  /** The same pages are valid with the same descriptors, the same frames are
      free, and every frame in use holds the same bytes. */
  ghost predicate SameValid(s0: State, s: State) {
    && (forall p: PageNo :: Mapped(s0.leaf, p) || Mapped(s.leaf, p) ==> At(s.leaf, p) == At(s0.leaf, p))
    && s.free == s0.free && s.home == s0.home && s.dev == s0.dev && s.pinned == s0.pinned && s.lent == s0.lent
    && KeepsBytes(s0, s)
  }

  /** A mapping loop fails for want of a frame, or because a page is taken. */
  ghost predicate MapRefused(s: State, range: Range, error: Error) {
    error == OutOfFrames || (error == Overlap && exists p :: range.Has(p) && At(s.leaf, p).Page?)
  }

  /** What `commit` checks before it touches anything. */
  ghost predicate Admitted(ranges: seq<Range>, c: Grants, range: Range, flags: PageFlags) {
    !flags.IsEmpty() && Encloses(ranges, range) && forall p :: range.Has(p) ==> p !in c
  }

  /** What a commit reports, in the order it looks. */
  ghost predicate CommitRefused(s: State, c: Grants, ranges: seq<Range>, range: Range, flags: PageFlags, error: Error) {
    if flags.IsEmpty() then error == InvalidFlags
    else if !Encloses(ranges, range) then error == NotReserved
    else if exists p :: p in c && range.Has(p) then error == Overlap
    else MapRefused(s, range, error)
  }

  /** A relocation fails for want of a frame or of a commit; a committed page
      without a frame belongs to a demand-commit region. */
  ghost predicate RelocateRefused(s: State, c: Grants, demand: set<PageNo>, ranges: seq<Range>, range: Range, error: Error) {
    if !Encloses(ranges, range) then error == NotReserved
    else if exists p: PageNo :: range.Has(p) && p !in c then error == NotCommitted
    else error == OutOfFrames || (error == NotCommitted && exists p :: range.Has(p) && p in demand && !Mapped(s.leaf, p))
  }

  /** After a commit, every slot of the range holds the word of the flags. */
  lemma CommitWords(s0: State, s: State, range: Range, flags: PageFlags)
    requires FreshPages(s0, s, range, AttrsOf(flags))
    ensures Descriptors.SlotsHold(s.leaf, range, flags)
  {
    hide Descriptors.SlotsHold, AttrsOf;
    forall p: PageNo | range.Has(p) ensures p in s.leaf && s.leaf[p].Page? && s.leaf[p].attrs == AttrsOf(flags) {
      assert At(s.leaf, p).Page?;
    }
    Descriptors.SlotsRead(s.leaf, range, flags);
  }

  /** And after a protect. */
  lemma ProtectWords(leaf: Flat, range: Range, flags: PageFlags)
    requires forall p: PageNo :: range.Has(p) ==> Mapped(leaf, p)
    ensures Descriptors.SlotsHold(Repainted(leaf, range.first, range.count, AttrsOf(flags)), range, flags)
  {
    hide Descriptors.SlotsHold, AttrsOf;
    Descriptors.SlotsRead(Repainted(leaf, range.first, range.count, AttrsOf(flags)), range, flags);
  }

  /** And after a shared mapping or a pinned commit. */
  lemma RunWords(s0: State, s: State, range: Range, frame: Frame, flags: PageFlags)
    requires RunMapped(s0, s, range, frame, AttrsOf(flags))
    ensures Descriptors.SlotsHold(s.leaf, range, flags)
  {
    hide Descriptors.SlotsHold, AttrsOf;
    forall p: PageNo | range.Has(p) ensures p in s.leaf && s.leaf[p].Page? && s.leaf[p].attrs == AttrsOf(flags) {
      assert At(s.leaf, p).Page?;
    }
    Descriptors.SlotsRead(s.leaf, range, flags);
  }

  /** A refusal for anything but frames names something a caller could see. */
  lemma RefusedFor(s: State, c: Grants, ranges: seq<Range>, range: Range, flags: PageFlags, error: Error)
    requires CommitRefused(s, c, ranges, range, flags, error)
    ensures error == OutOfFrames || !Admitted(ranges, c, range, flags) || exists p: PageNo :: range.Has(p) && Mapped(s.leaf, p)
  {
  }

  lemma FreshWere(s0: State, s: State, range: Range, attrs: Attrs)
    requires FreshPages(s0, s, range, attrs)
    ensures forall p: PageNo :: range.Has(p) ==> !Mapped(s0.leaf, p)
  {
  }

  /** The pool gave a free, aligned run of `n` frames, and the placement does
      not accept it. */
  ghost predicate TurnedDown(before: seq<Frame>, after: seq<Frame>, placement: DmaPlacement, n: nat, free: set<Frame>) {
    && placement.align > 0 && |after| == |before| + 1 && after[..|before|] == before
    && Run(after[|before|], n) <= free && after[|before|] * PAGE % placement.align == 0
    && !placement.Accepts(after[|before|] * PAGE, n * PAGE)
  }

  lemma StillRefused(s0: State, s1: State, pages: set<PageNo>, range: Range, error: Error)
    requires s1 == s0.(leaf := Cleared(s0.leaf, pages)) && MapRefused(s1, range, error)
    ensures MapRefused(s0, range, error)
  {
  }

  /** Leaf tables are never given back. */
  ghost predicate Grows(s0: State, s: State) {
    s0.leaf.Keys <= s.leaf.Keys
  }

  /** Every page of `range` has a zeroed frame that was free, with `attrs`. */
  ghost predicate FreshPages(s0: State, s: State, range: Range, attrs: Attrs) {
    forall p: PageNo :: range.Has(p) ==>
      !Mapped(s0.leaf, p) && At(s.leaf, p).Page? && At(s.leaf, p).attrs == attrs
      && At(s.leaf, p).frame in s0.free && At(s.leaf, p).frame !in s.free
      && At(s.leaf, p).frame in s.mem && s.mem[At(s.leaf, p).frame] == Zeroed()
  }

  ghost predicate SameOutside(s0: State, s: State, range: Range) {
    forall p: PageNo :: !range.Has(p) ==> At(s.leaf, p) == At(s0.leaf, p)
  }

  lemma CommitOutcome(s0: State, s1: State, s2: State, pool: set<Frame>, range: Range, attrs: Attrs)
    requires s1 == s0.(leaf := Cleared(s0.leaf, Pages(range.first, range.count))) && !s0.tainted
    requires Committing(s1, s2, pool, range.first, range.count, attrs)
    ensures FreshPages(s0, s2, range, attrs) && SameOutside(s0, s2, range) && Grows(s0, s2) && KeepsBytes(s0, s2)
    ensures s2.free <= s0.free
  {
  }

  lemma CommitFailure(s0: State, s1: State, s2: State, pages: set<PageNo>)
    requires s1 == s0.(leaf := Cleared(s0.leaf, pages)) && Untouched(s1, s2)
    ensures SameValid(s0, s2) && Grows(s0, s2)
  {
  }

  lemma DeviceClear(ds: seq<DeviceMapping>, s0: State, s: State, pool: set<Frame>, pages: set<PageNo>)
    requires Core(s0, pool) && DeviceOk(ds, s0, pool) && s == s0.(leaf := Cleared(s0.leaf, pages))
    ensures DeviceOk(ds, s, pool)
  {
    forall p: PageNo | p in s.dev ensures At(s.leaf, p) == At(s0.leaf, p) {
      ClearedAt(s0.leaf, pages, p);
      assert Mapped(s0.leaf, p);
    }
    DeviceSame(ds, s0, s, pool);
  }

  lemma DeviceUntouched(ds: seq<DeviceMapping>, s0: State, s: State, pool: set<Frame>)
    requires DeviceOk(ds, s0, pool) && Untouched(s0, s)
    ensures DeviceOk(ds, s, pool)
  {
  }

  lemma DeviceCommit(ds: seq<DeviceMapping>, s0: State, s: State, pool: set<Frame>, first: PageNo, n: nat, attrs: Attrs)
    requires Core(s0, pool) && DeviceOk(ds, s0, pool) && Committing(s0, s, pool, first, n, attrs)
    ensures DeviceOk(ds, s, pool)
  {
    forall p: PageNo | p in s.dev ensures At(s.leaf, p) == At(s0.leaf, p) {
      assert Mapped(s0.leaf, p);
      assert CommitAt(s0, s, first, n, attrs, p) by { assert At(s.leaf, p) == At(s.leaf, p); }
    }
    DeviceSame(ds, s0, s, pool);
  }

  lemma AgreeUntouched(s0: State, s: State, c: Grants, sw: Swaps, demand: set<PageNo>)
    requires Agree(s0, c, sw, demand) && Untouched(s0, s)
    ensures Agree(s, c, sw, demand)
  {
  }

  lemma UntouchedQuiet(s0: State, s: State)
    requires Untouched(s0, s) && Quiet(s0)
    ensures Quiet(s)
  {
  }

  /** Pages mapped and not yet on record disturb nothing on record. */
  lemma AgreeMapped(s0: State, s: State, pool: set<Frame>, c: Grants, sw: Swaps, demand: set<PageNo>, range: Range, attrs: Attrs)
    requires Agree(s0, c, sw, demand) && Core(s0, pool)
    requires Committing(s0, s, pool, range.first, range.count, attrs)
    ensures Agree(s, c, sw, demand)
  {
  }

  lemma AgreeRecord(s: State, c: Grants, sw: Swaps, demand: set<PageNo>, range: Range, grant: Grant)
    requires Agree(s, c, sw, demand) && !grant.flags.IsEmpty()
    requires forall p: PageNo :: range.Has(p) ==> p !in s.dev && At(s.leaf, p).Page? && At(s.leaf, p).attrs == AttrsOf(grant.flags)
    ensures Agree(s, Plus(c, range, grant), sw, demand - Pages(range.first, range.count))
  {
  }

  lemma SomethingTaken(taken: seq<SwapEntry>, range: Range, sw: Swaps)
    requires Records(taken, range, sw)
    ensures taken != [] ==> exists p :: range.Has(p) && p in sw
  {
    if taken != [] { assert range.Has(taken[0].page) && taken[0].page in sw; }
  }

  lemma NothingTaken(taken: seq<SwapEntry>, range: Range, sw: Swaps)
    requires Records(taken, range, sw) && forall p :: range.Has(p) ==> p !in sw
    ensures Tokens(taken) == []
  {
    SomethingTaken(taken, range, sw);
  }

  lemma CommitReady(s0: State, s: State, pool: set<Frame>, range: Range, attrs: Attrs)
    requires Core(s0, pool) && Committing(s0, s, pool, range.first, range.count, attrs)
    ensures forall p: PageNo :: range.Has(p) ==> p !in s.dev && At(s.leaf, p).Page? && At(s.leaf, p).attrs == attrs
  {
    forall p: PageNo | range.Has(p) ensures p !in s.dev && At(s.leaf, p).Page? && At(s.leaf, p).attrs == attrs {
      assert CommitAt(s0, s, range.first, range.count, attrs, p) by { assert At(s.leaf, p) == At(s.leaf, p); }
      assert p in s0.dev ==> Mapped(s0.leaf, p);
    }
  }

  lemma NoSwapLeft(s0: State, s1: State, pages: set<PageNo>, range: Range)
    requires s1 == s0.(leaf := Cleared(s0.leaf, pages)) && pages == Pages(range.first, range.count)
    ensures forall p :: In(p, range.first, range.count) ==> !At(s1.leaf, p).Swap?
  {
  }

  lemma CommitQuiet(s0: State, s: State, pool: set<Frame>, first: PageNo, n: nat, attrs: Attrs)
    requires Committing(s0, s, pool, first, n, attrs) && Quiet(s0)
    ensures Quiet(s)
  {
  }

  lemma ReusedBelow(whole: seq<Range>, rest: seq<Range>, taken: Range, limit: PageNo)
    requires CarvedFrom(whole, rest + [taken]) && Below(whole, limit)
    ensures Below(rest, limit) && taken.End() <= limit
  {
    var all := rest + [taken];
    forall i | 0 <= i < |all| ensures all[i].End() <= limit {
      assert Encloses(whole, all[i]);
      var k :| 0 <= k < |whole| && whole[k].Encloses(all[i]);
    }
    assert all[|rest|] == taken;
    assert forall i :: 0 <= i < |rest| ==> rest[i] == all[i];
  }

  lemma AgreeReflag(s0: State, s: State, c: Grants, c': Grants, sw: Swaps, demand: set<PageNo>, range: Range, flags: PageFlags, parts: seq<Range>)
    requires Agree(s0, c, sw, demand) && !flags.IsEmpty() && Reflagged(c, c', range, flags, parts)
    requires forall p: PageNo :: range.Has(p) ==> p in c && Mapped(s0.leaf, p)
    requires s == s0.(leaf := Repainted(s0.leaf, range.first, range.count, AttrsOf(flags)), tlb := s.tlb)
    ensures Agree(s, c', sw, demand)
  {
  }

  lemma UntouchedSame(s0: State, s: State)
    requires Untouched(s0, s) && Quiet(s0)
    ensures SameValid(s0, s) && Grows(s0, s) && Quiet(s)
  {
  }

  lemma RelocatedWere(s0: State, s: State, range: Range)
    requires Relocated(s0, s, range.first, range.count)
    ensures forall p: PageNo :: range.Has(p) ==> Mapped(s0.leaf, p)
  {
    forall p: PageNo | range.Has(p) ensures Mapped(s0.leaf, p) { assert At(s.leaf, p) == At(s.leaf, p); }
  }

  lemma RelocatedQuiet(s0: State, s: State, range: Range)
    requires Relocated(s0, s, range.first, range.count) && Quiet(s0)
    ensures Grows(s0, s) && Quiet(s)
  {
  }

  lemma GrantedPage(s: State, c: Grants, sw: Swaps, demand: set<PageNo>, p: PageNo)
    requires Agree(s, c, sw, demand) && p in c
    ensures p !in s.dev
  {
  }

  lemma SwappedPage(s: State, pool: set<Frame>, c: Grants, sw: Swaps, demand: set<PageNo>, p: PageNo)
    requires Agree(s, c, sw, demand) && Core(s, pool) && p in sw
    ensures p !in s.dev && p in s.leaf && s.leaf[p] == Swap(sw[p].token) && sw[p].page == p && !sw[p].grant.flags.IsEmpty()
  {
  }

  /** The page reads the same: same attributes over the same bytes. */
  ghost predicate SameContent(s0: State, s: State, p: PageNo) {
    && Mapped(s0.leaf, p) && Mapped(s.leaf, p)
    && s0.leaf[p].frame in s0.mem && s.leaf[p].frame in s.mem && s.mem[s.leaf[p].frame] == s0.mem[s0.leaf[p].frame]
  }

  /** The page's frame is free again, its bytes are in `bytes`, and its leaf
      reads the token. */
  ghost predicate SwappedOut(s0: State, s: State, p: PageNo, token: Token, bytes: Bytes) {
    && Mapped(s0.leaf, p) && s0.leaf[p].frame in s0.mem && bytes == s0.mem[s0.leaf[p].frame]
    && s.free == s0.free + {s0.leaf[p].frame}
    && s == s0.(leaf := s0.leaf[p := Swap(token)], free := s.free, home := s.home, tlb := s.tlb)
  }

  lemma SwapBack(s0: State, s1: State, s2: State, p: PageNo, token: Token, attrs: Attrs, bytes: Bytes)
    requires SwappedOut(s0, s1, p, token, bytes) && SwappedIn(s1, s2, p, attrs, bytes)
    ensures SameContent(s0, s2, p) && Mapped(s2.leaf, p) && s2.leaf[p].attrs == attrs
  {
  }

  lemma SwapStays(s0: State, s1: State, s2: State, p: PageNo, token: Token, bytes: Bytes)
    requires SwappedOut(s0, s1, p, token, bytes) && Untouched(s1, s2)
    ensures At(s2.leaf, p) == Swap(token)
  {
  }

  lemma SwapOutOutcome(s0: State, s: State, p: PageNo, token: Token, bytes: Bytes)
    requires Mapped(s0.leaf, p) && s0.leaf[p].frame in s0.mem && bytes == s0.mem[s0.leaf[p].frame]
    requires s.free == s0.free + {s0.leaf[p].frame}
    requires s == s0.(leaf := s0.leaf[p := Swap(token)], free := s.free, home := s.home, tlb := s.tlb)
    ensures SwappedOut(s0, s, p, token, bytes)
  {
  }

  lemma SwapInOutcome(ds: seq<DeviceMapping>, s0: State, s: State, pool: set<Frame>, p: PageNo, attrs: Attrs, bytes: Bytes)
    requires DeviceOk(ds, s0, pool) && SwappedIn(s0, s, p, attrs, bytes) && Quiet(s0) && Fresh(s) && p !in s0.dev
    ensures DeviceOk(ds, s, pool) && Quiet(s)
  {
    DevicePageOnly(ds, s0, s, pool, p);
  }

  lemma SameBytesSelf(s: State)
    ensures KeepsBytes(s, s)
  {
  }

  lemma UntouchedSelf(s: State)
    requires Quiet(s)
    ensures Untouched(s, s)
  {
  }

  /** An operation on one ordinary page leaves the device list alone. */
  lemma DevicePageOnly(ds: seq<DeviceMapping>, s0: State, s: State, pool: set<Frame>, p: PageNo)
    requires DeviceOk(ds, s0, pool) && s.dev == s0.dev && s.pinned == s0.pinned && s.tainted == s0.tainted && p !in s0.dev
    requires p in s.leaf && s.leaf == s0.leaf[p := s.leaf[p]]
    ensures DeviceOk(ds, s, pool)
  {
    forall q: PageNo | q in s.dev ensures At(s.leaf, q) == At(s0.leaf, q) {}
    DeviceSame(ds, s0, s, pool);
  }

  lemma LastVacated(rest: seq<Range>, x: Range)
    requires Spans(rest + [x])
    ensures Vacated(rest, x) && x.count > 0 && USER_FIRST <= x.first && x.End() <= USER_END
  {
    var all := rest + [x];
    assert all[|rest|] == x;
    forall i | 0 <= i < |rest| ensures !rest[i].Overlaps(x) {
      assert all[i] == rest[i] && !all[i].Overlaps(all[|rest|]);
    }
  }

  /** What the record says about a committed range. */
  lemma GrantedRange(s: State, c: Grants, sw: Swaps, demand: set<PageNo>, range: Range)
    requires Agree(s, c, sw, demand) && forall p: PageNo :: range.Has(p) ==> p in c
    ensures forall p: PageNo :: range.Has(p) ==> p !in s.dev && (p in demand || Mapped(s.leaf, p))
  {
  }

  lemma DecommitOutcome(s0: State, s: State, range: Range, done: nat)
    requires s == s0.(leaf := Blanked(s0.leaf, range.first, done), free := s.free, home := s.home, tlb := s.tlb)
    ensures s.leaf.Keys == s0.leaf.Keys && KeepsBytes(s0, s)
    ensures AllMapped(s0.leaf, range.first, done) && done <= range.count && (done < range.count ==> !Mapped(s0.leaf, range.first + done)) ==>
              StoppedAtHole(s0.leaf, s.leaf, range)
  {
    if AllMapped(s0.leaf, range.first, done) && done <= range.count && (done < range.count ==> !Mapped(s0.leaf, range.first + done)) {
      AllMappedMeans(s0.leaf, range.first, done);
      forall p: PageNo ensures At(s.leaf, p) == if range.Has(p) && MappedUpTo(s0.leaf, range, p) then Absent else At(s0.leaf, p) {
        if range.first + done <= p < range.End() {
          assert !Mapped(s0.leaf, range.first + done);
          assert !MappedUpTo(s0.leaf, range, p);
        }
      }
    }
  }

  /** The pages of the range before its first hole are out. */
  ghost predicate StoppedAtHole(leaf: Flat, leaf': Flat, range: Range) {
    forall p: PageNo :: At(leaf', p) == if range.Has(p) && MappedUpTo(leaf, range, p) then Absent else At(leaf, p)
  }

  /** Every page of the range up to and including `p` is mapped. */
  ghost predicate MappedUpTo(leaf: Flat, range: Range, p: PageNo) {
    forall q: PageNo :: range.first <= q <= p ==> Mapped(leaf, q)
  }

  /** Page `p` is listed, and so far everything listed is mapped: the ranges
      before its own, and its own up to `p`. */
  ghost predicate Reached(leaf: Flat, rs: seq<Range>, p: PageNo) {
    exists i :: 0 <= i < |rs| && ReachedIn(leaf, rs, i, p)
  }

  ghost predicate ReachedIn(leaf: Flat, rs: seq<Range>, i: nat, p: PageNo)
    requires i < |rs|
  {
    && rs[i].Has(p) && MappedUpTo(leaf, rs[i], p)
    && forall j, q: PageNo {:trigger rs[j].Has(q)} :: 0 <= j < i && rs[j].Has(q) ==> Mapped(leaf, q)
  }

  /** Exactly the pages reached are out of the table. */
  ghost predicate OutUpTo(leaf: Flat, leaf': Flat, rs: seq<Range>) {
    forall p: PageNo {:trigger At(leaf', p)} {:trigger Reached(leaf, rs, p)} :: At(leaf', p) == if Reached(leaf, rs, p) then Absent else At(leaf, p)
  }

  lemma AllReached(s0: State, s: State, rs: seq<Range>, pages: set<PageNo>)
    requires TakenOut(s0, s, pages) && Lists(rs, pages) && forall p :: p in pages ==> Mapped(s0.leaf, p)
    ensures OutUpTo(s0.leaf, s.leaf, rs)
  {
    forall p: PageNo ensures Reached(s0.leaf, rs, p) <==> p in pages {
      if p in pages {
        var i :| 0 <= i < |rs| && rs[i].Has(p);
        forall q: PageNo | rs[i].first <= q <= p ensures Mapped(s0.leaf, q) { assert rs[i].Has(q); }
        assert ReachedIn(s0.leaf, rs, i, p);
      }
    }
  }

  /** Stopped inside range `k` after `done` of its pages. */
  lemma ReachedStop(s0: State, s: State, t: State, rs: seq<Range>, pages: set<PageNo>, k: nat, done: nat)
    requires Lists(rs, pages) && k < |rs| && done < rs[k].count && TakenOut(s0, s, RangePages(rs[..k]))
    requires forall p :: p in RangePages(rs[..k]) ==> Mapped(s0.leaf, p)
    requires forall p :: p in Pages(rs[k].first, done) ==> Mapped(s0.leaf, p)
    requires !Mapped(s0.leaf, rs[k].first + done)
    requires t == s.(leaf := Blanked(s.leaf, rs[k].first, done), free := t.free, home := t.home, tlb := t.tlb)
    ensures OutUpTo(s0.leaf, t.leaf, rs)
  {
    forall p: PageNo ensures At(t.leaf, p) == if Reached(s0.leaf, rs, p) then Absent else At(s0.leaf, p) {
      ReachedBefore(s0.leaf, rs, pages, k, done, p);
      assert At(s.leaf, p) == if p in RangePages(rs[..k]) then Absent else At(s0.leaf, p);
    }
  }

  lemma ReachedBefore(leaf: Flat, rs: seq<Range>, pages: set<PageNo>, k: nat, done: nat, p: PageNo)
    requires Lists(rs, pages) && k < |rs| && done < rs[k].count
    requires forall q :: q in RangePages(rs[..k]) ==> Mapped(leaf, q)
    requires forall q :: q in Pages(rs[k].first, done) ==> Mapped(leaf, q)
    requires !Mapped(leaf, rs[k].first + done)
    ensures Reached(leaf, rs, p) <==> p in RangePages(rs[..k]) || In(p, rs[k].first, done)
  {
    hide Lists;
    forall j, q: PageNo | 0 <= j < k && rs[j].Has(q) ensures Mapped(leaf, q) {
      assert rs[..k][j].Has(q);
      assert InSome(rs[..k], q);
    }
    var hole := rs[k].first + done;
    assert rs[k].Has(hole);
    if In(p, rs[k].first, done) {
      assert ReachedIn(leaf, rs, k, p);
    } else if p in RangePages(rs[..k]) {
      var i :| 0 <= i < k && rs[..k][i].Has(p);
      assert rs[i].Has(p);
      forall q: PageNo | rs[i].first <= q <= p ensures Mapped(leaf, q) { assert rs[i].Has(q); }
      assert ReachedIn(leaf, rs, i, p);
    } else {
      forall i | 0 <= i < |rs| ensures !ReachedIn(leaf, rs, i, p) {
        if i < k { assert !rs[..k][i].Has(p); }
      }
    }
  }

  lemma BelowClear(ranges: seq<Range>, range: Range, limit: PageNo)
    requires Below(ranges, limit) && range.first >= limit
    ensures Vacated(ranges, range)
  {
  }

  lemma AgreeFewer(s: State, c: Grants, sw: Swaps, demand: set<PageNo>, range: Range)
    requires Agree(s, c, sw, demand)
    ensures Agree(s, Minus(c, range), sw, demand)
  {
  }

  lemma DeviceBlanked(ds: seq<DeviceMapping>, s0: State, s: State, pool: set<Frame>, range: Range, done: nat)
    requires DeviceOk(ds, s0, pool) && s.dev == s0.dev && s.pinned == s0.pinned && s.tainted == s0.tainted && done <= range.count
    requires s.leaf == Blanked(s0.leaf, range.first, done) && forall p :: range.Has(p) ==> p !in s0.dev
    ensures DeviceOk(ds, s, pool)
  {
  }

  lemma DeviceRepainted(ds: seq<DeviceMapping>, s0: State, s: State, pool: set<Frame>, c: Grants, sw: Swaps, demand: set<PageNo>, range: Range, attrs: Attrs)
    requires DeviceOk(ds, s0, pool) && Agree(s0, c, sw, demand)
    requires s == s0.(leaf := Repainted(s0.leaf, range.first, range.count, attrs), tlb := s.tlb)
    requires forall p: PageNo :: range.Has(p) ==> p in c
    ensures DeviceOk(ds, s, pool)
  {
    forall p: PageNo | p in s.dev ensures At(s.leaf, p) == At(s0.leaf, p) {
      if range.Has(p) { assert GrantOk(s0, demand, p, c[p]); }
    }
    DeviceSame(ds, s0, s, pool);
  }

  lemma DeviceRelocated(ds: seq<DeviceMapping>, s0: State, s: State, pool: set<Frame>, range: Range)
    requires DeviceOk(ds, s0, pool) && Relocated(s0, s, range.first, range.count)
    requires forall p :: In(p, range.first, range.count) ==> p !in s0.dev
    ensures DeviceOk(ds, s, pool)
  {
  }

  // ---- Device mappings

  const U64_SPAN := 0x1_0000_0000_0000_0000

  /** What a device needs of a contiguous run: alignment, and its highest
      reachable byte. */
  datatype DmaPlacement = DmaPlacement(align: nat, limit: nat)
  {
    predicate Accepts(physical: nat, bytes: nat)
      requires align > 0
    {
      physical % align == 0 && 0 < physical + bytes < U64_SPAN && physical + bytes - 1 <= limit
    }
  }

  /** A run is accepted exactly when it starts at the alignment, its end is a
      64-bit address, and no byte of it lies above the limit. */
  lemma AcceptsExact(placement: DmaPlacement, physical: nat, bytes: nat)
    requires placement.align > 0 && bytes > 0
    ensures placement.Accepts(physical, bytes) <==>
              && (exists k: nat :: physical == k * placement.align) && physical + bytes < 0x1_0000_0000_0000_0000
              && forall b: nat :: ByteOf(VirtRange(physical, bytes), b) ==> b <= placement.limit
  {
    var a, run := placement.align, VirtRange(physical, bytes);
    if physical % a == 0 { assert physical == physical / a * a; }
    if k: nat :| physical == k * a { NoRemainder(physical, a, k); }
    if forall b: nat :: ByteOf(run, b) ==> b <= placement.limit {
      assert ByteOf(run, physical + bytes - 1);
    }
  }

  lemma NoSwapInside(s: State, c: Grants, sw: Swaps, demand: set<PageNo>, range: Range)
    requires Agree(s, c, sw, demand) && forall p: PageNo :: range.Has(p) ==> p !in sw
    ensures forall p :: In(p, range.first, range.count) ==> !At(s.leaf, p).Swap?
  {
  }

  lemma AgreeDevice(s0: State, s: State, pool: set<Frame>, c: Grants, sw: Swaps, demand: set<PageNo>, range: Range, frame: Frame, attrs: Attrs)
    requires Agree(s0, c, sw, demand) && Devicing(s0, s, pool, range.first, range.count, frame, attrs)
    requires forall p: PageNo :: range.Has(p) ==> p !in c && p !in sw
    ensures Agree(s, c, sw, demand)
  {
  }

  lemma DeviceQuiet(s0: State, s: State, pool: set<Frame>, range: Range, frame: Frame, attrs: Attrs)
    requires Devicing(s0, s, pool, range.first, range.count, frame, attrs) && Quiet(s0)
    ensures Quiet(s) && RunMapped(s0, s, range, frame, attrs)
  {
  }

  /** Page `i` of the range reads frame `frame + i`; nothing else moved. */
  ghost predicate RunMapped(s0: State, s: State, range: Range, frame: Frame, attrs: Attrs) {
    && s == s0.(leaf := s.leaf, dev := s0.dev + Pages(range.first, range.count), tlb := s.tlb)
    && s0.leaf.Keys <= s.leaf.Keys
    && forall p: PageNo :: At(s.leaf, p) == if range.Has(p) then Page(frame + (p - range.first), attrs) else At(s0.leaf, p)
  }

  /** The mapping is out of the table and its own run, if any, is free. */
  ghost predicate DeviceGone(s0: State, s: State, m: DeviceMapping) {
    s == Unpin(s0.(leaf := Blanked(s0.leaf, m.range.first, m.range.count),
                   dev := s0.dev - Pages(m.range.first, m.range.count), tlb := s.tlb), RunOf(m))
  }

  lemma AgreeGone(ds: seq<DeviceMapping>, i: nat, s0: State, s: State, pool: set<Frame>, c: Grants, sw: Swaps, demand: set<PageNo>)
    requires Agree(s0, c, sw, demand) && DeviceOk(ds, s0, pool) && i < |ds| && DeviceGone(s0, s, ds[i])
    ensures Agree(s, c, sw, demand)
  {
  }

  lemma DevicePages(ds: seq<DeviceMapping>, i: nat, s: State, pool: set<Frame>)
    requires Core(s, pool) && DeviceOk(ds, s, pool) && i < |ds|
    ensures UserRange(ds[i].range.first, ds[i].range.count) && ds[i].range.count > 0
    ensures Pages(ds[i].range.first, ds[i].range.count) <= s.dev && RunOf(ds[i]) <= s.pinned <= pool
  {
  }

  /** The machine between the two halves of a drop. */
  lemma TornCore(s0: State, t: State, s: State, pool: set<Frame>, m: DeviceMapping)
    requires Core(s0, pool) && Core(s, pool) && TornDown(s0, t, m) && s == Unpin(t, RunOf(m))
    ensures Core(t, pool)
  {
    forall p | p in t.dev && t.leaf[p].frame in pool && !t.tainted ensures t.leaf[p].frame in t.pinned {
      assert p in s0.dev && s0.leaf[p] == t.leaf[p];
    }
  }

  /** Dropping a pinned run is clean exactly when no second view of it is
      left. Every page of a view left behind is a live translation to a frame
      that is free. */
  lemma DropNeedsNoViews(ds: seq<DeviceMapping>, i: nat, s0: State, s: State, pool: set<Frame>)
    requires Core(s0, pool) && DeviceOk(ds, s0, pool) && i < |ds| && DeviceGone(s0, s, ds[i]) && Core(s, pool) && Fresh(s)
    ensures s.tainted <==> s0.tainted || !NoViews(ds, i, s0)
    ensures DeviceOk(SwapRemove(ds, i), s, pool)
    ensures forall j, p: PageNo {:trigger Views(ds, i, s0, j, p)} :: Views(ds, i, s0, j, p) ==>
              Mapped(s.leaf, p) && s.leaf[p].frame in s.free && (p, s.leaf[p]) in s.tlb
  {
    hide DeviceOk, Core, NoViews, Fresh, Views;
    DevicePages(ds, i, s0, pool);
    var t := s0.(leaf := s.leaf, dev := s.dev, tlb := s.tlb);
    TornCore(s0, t, s, pool, ds[i]);
    assert Fresh(t) by { FreshLike(s, t); }
    UnpinKeeps(t, pool, RunOf(ds[i]));
    DropViews(ds, i, s0, t, pool);
    DropMapping(ds, i, s0, t, s, pool);
    forall j, p: PageNo | Views(ds, i, s0, j, p)
      ensures Mapped(s.leaf, p) && s.leaf[p].frame in s.free && (p, s.leaf[p]) in s.tlb {
      assert Tlb(s) by { CoreTlb(s, pool); }
      ViewLeftBehind(ds, i, j, p, s0, s, pool);
    }
  }

  lemma UnpinNothing(s: State)
    ensures Unpin(s, {}) == s
  {
    assert s.pinned - {} == s.pinned && s.free + {} == s.free;
  }

  lemma CoreTlb(s: State, pool: set<Frame>)
    requires Core(s, pool)
    ensures Tlb(s)
  {
  }

  lemma FreshLike(s: State, t: State)
    requires Fresh(s) && t.leaf == s.leaf && t.tlb == s.tlb
    ensures Fresh(t)
  {
    forall p, d | (p, d) in t.tlb ensures Current(t, p, d) { assert Current(s, p, d); }
  }

  lemma ViewLeftBehind(ds: seq<DeviceMapping>, i: nat, j: int, p: PageNo, s0: State, s: State, pool: set<Frame>)
    requires DeviceOk(ds, s0, pool) && i < |ds| && DeviceGone(s0, s, ds[i]) && Tlb(s)
    requires Views(ds, i, s0, j, p)
    ensures Mapped(s.leaf, p) && s.leaf[p].frame in s.free && (p, s.leaf[p]) in s.tlb
  {
    hide MappingOk, Listed, Held;
    if i < j { assert Separate(ds[i], ds[j]); } else if j < i { assert Separate(ds[j], ds[i]); }
    assert At(s.leaf, p) == At(s0.leaf, p);
  }

  /** Allocating a run for a device, before anything maps it. */
  lemma PinQuiet(ds: seq<DeviceMapping>, s0: State, s: State, pool: set<Frame>, frame: Frame, n: nat)
    requires Core(s0, pool) && Quiet(s0) && DeviceOk(ds, s0, pool) && Run(frame, n) <= s0.free && s == Pin(s0, Run(frame, n))
    ensures Fresh(s) && Quiet(s) && Nameable(s, pool, frame, n) && Run(frame, n) <= s.pinned
    ensures DeviceOk(ds, s.(pinned := s.pinned - Run(frame, n)), pool)
    ensures !Named(s, Run(frame, n))
  {
    assert forall p :: p in s.dev ==> Mapped(s.leaf, p) && s.leaf[p].frame !in Run(frame, n);
  }

  lemma UnpinUndone(s0: State, s1: State, s2: State, s3: State, pool: set<Frame>, run: set<Frame>)
    requires Core(s0, pool) && Quiet(s0) && run <= s0.free && s1 == Pin(s0, run) && Untouched(s1, s2) && s3 == Unpin(s2, run)
    requires Fresh(s3) && s3.tainted == s2.tainted
    ensures Untouched(s0, s3)
  {
  }

  lemma StillApart(s1: State, s2: State, run: set<Frame>)
    requires Untouched(s1, s2) && !Named(s1, run)
    ensures !Named(s2, run)
  {
    forall p | p in s2.dev && Mapped(s2.leaf, p) ensures s2.leaf[p].frame !in run {
      assert At(s2.leaf, p) == At(s1.leaf, p);
      assert p in s1.dev && Mapped(s1.leaf, p);
    }
  }

  // ---- Release

  /** The byte range covers a mapping whole. */
  predicate Covers(virt: VirtRange, range: Range) {
    virt.start <= range.first * PAGE && range.End() * PAGE <= virt.start + virt.byteLen
  }

  /** Covered whole means every byte of every page. */
  lemma CoversExact(virt: VirtRange, range: Range)
    requires range.count > 0
    ensures Covers(virt, range) <==> forall b: nat :: range.Has(b / 4096) ==> ByteOf(virt, b)
  {
    if forall b: nat :: range.Has(b / 4096) ==> ByteOf(virt, b) {
      var low, high := range.first * 4096, range.End() * 4096 - 1;
      assert low / 4096 == range.first && high / 4096 == range.End() - 1;
      assert ByteOf(virt, low) && ByteOf(virt, high);
    }
  }

  /** Device pages may be gone, then their slots are empty and the pinned
      frames that went with them are free; nothing else moved. */
  ghost predicate Swept(s0: State, s: State) {
    && s == s0.(leaf := s.leaf, dev := s.dev, pinned := s.pinned, free := s.free, tlb := s.tlb, tainted := s.tainted)
    && s.leaf.Keys == s0.leaf.Keys && s.dev <= s0.dev && s.pinned <= s0.pinned
    && s.free == s0.free + (s0.pinned - s.pinned)
    && forall p: PageNo :: At(s.leaf, p) == if p in s0.dev && p !in s.dev then Absent else At(s0.leaf, p)
  }

  lemma SweptStep(s0: State, s: State, t: State, ds: seq<DeviceMapping>, i: nat, pool: set<Frame>)
    requires Swept(s0, s) && Core(s, pool) && DeviceOk(ds, s, pool) && i < |ds| && DeviceGone(s, t, ds[i])
    ensures Swept(s0, t)
  {
  }

  /** The sweep of `virt` from `index` on, in its own order, frees no run while
      a view of it is still listed. */
  ghost predicate SweepClean(ds: seq<DeviceMapping>, index: nat, s: State, virt: VirtRange)
    requires index <= |ds|
    decreases |ds| - index
  {
    if index == |ds| then true
    else if !Covers(virt, ds[index].range) then SweepClean(ds, index + 1, s, virt)
    else NoViews(ds, index, s) && SweepClean(SwapRemove(ds, index), index, s, virt)
  }

  ghost predicate SameListed(ds: seq<DeviceMapping>, s: State, t: State) {
    forall j, p: PageNo {:trigger ds[j].range.Has(p)} :: 0 <= j < |ds| && ds[j].range.Has(p) ==> At(t.leaf, p) == At(s.leaf, p)
  }

  lemma SameViews(ds: seq<DeviceMapping>, i: nat, s: State, t: State)
    requires SameListed(ds, s, t) && i < |ds|
    ensures NoViews(ds, i, s) <==> NoViews(ds, i, t)
  {
    forall j, p: PageNo ensures Views(ds, i, s, j, p) <==> Views(ds, i, t, j, p) {}
  }

  lemma SameListedRest(ds: seq<DeviceMapping>, i: nat, s: State, t: State)
    requires SameListed(ds, s, t) && i < |ds|
    ensures SameListed(SwapRemove(ds, i), s, t)
  {
  }

  /** Whether a sweep is clean depends only on the pages of the mappings still
      listed. */
  lemma {:induction false} SweepSame(ds: seq<DeviceMapping>, index: nat, s: State, t: State, virt: VirtRange)
    requires index <= |ds| && SameListed(ds, s, t)
    ensures SweepClean(ds, index, s, virt) <==> SweepClean(ds, index, t, virt)
    decreases |ds| - index
  {
    hide SameListed, NoViews, Covers;
    if index < |ds| {
      if !Covers(virt, ds[index].range) {
        SweepSame(ds, index + 1, s, t, virt);
      } else {
        SameViews(ds, index, s, t);
        SameListedRest(ds, index, s, t);
        SweepSame(SwapRemove(ds, index), index, s, t, virt);
      }
    }
  }

  /** Dropping one mapping leaves the pages of the others as they were. */
  lemma GoneElsewhere(ds: seq<DeviceMapping>, i: nat, s: State, t: State, pool: set<Frame>)
    requires DeviceOk(ds, s, pool) && i < |ds| && DeviceGone(s, t, ds[i])
    ensures SameListed(SwapRemove(ds, i), s, t)
  {
    var rest := SwapRemove(ds, i);
    forall j, p: PageNo | 0 <= j < |rest| && rest[j].range.Has(p) ensures At(t.leaf, p) == At(s.leaf, p) {
      var k := if j == i then |ds| - 1 else j;
      assert rest[j] == ds[k] && k != i;
      if k < i { assert Separate(ds[k], ds[i]); } else { assert Separate(ds[i], ds[k]); }
    }
  }

  /** No pinned run inside `virt` has a second view anywhere. */
  ghost predicate Unviewed(ds: seq<DeviceMapping>, s: State, virt: VirtRange) {
    forall i :: 0 <= i < |ds| && Covers(virt, ds[i].range) ==> NoViews(ds, i, s)
  }

  lemma UnviewedStep(ds: seq<DeviceMapping>, i: nat, s: State, virt: VirtRange)
    requires Unviewed(ds, s, virt) && i < |ds|
    ensures Unviewed(SwapRemove(ds, i), s, virt)
  {
    var rest := SwapRemove(ds, i);
    forall j | 0 <= j < |rest| && Covers(virt, rest[j].range) ensures NoViews(rest, j, s) {
      var k := if j == i then |ds| - 1 else j;
      assert NoViews(ds, k, s);
      forall l, p: PageNo ensures !Views(rest, j, s, l, p) {
        var n := if l == i then |ds| - 1 else l;
        assert !Views(ds, k, s, n, p);
      }
    }
  }

  /** A sweep that meets no viewed run is clean, in whatever order. */
  lemma {:induction false} UnviewedIsClean(ds: seq<DeviceMapping>, index: nat, s: State, virt: VirtRange)
    requires index <= |ds| && Unviewed(ds, s, virt)
    ensures SweepClean(ds, index, s, virt)
    decreases |ds| - index
  {
    hide NoViews, Covers;
    if index < |ds| {
      if !Covers(virt, ds[index].range) {
        UnviewedIsClean(ds, index + 1, s, virt);
      } else {
        UnviewedStep(ds, index, s, virt);
        UnviewedIsClean(SwapRemove(ds, index), index, s, virt);
      }
    }
  }

  /** A clean sweep leaves no view of a swept run outside the range. */
  lemma {:induction false} CleanNeeds(ds: seq<DeviceMapping>, index: nat, s: State, virt: VirtRange, i: nat, j: nat, p: PageNo)
    requires index <= i < |ds| && SweepClean(ds, index, s, virt)
    requires forall k :: 0 <= k < index ==> !Covers(virt, ds[k].range)
    requires Covers(virt, ds[i].range) && Views(ds, i, s, j, p)
    ensures Covers(virt, ds[j].range)
    decreases |ds| - index
  {
    if !Covers(virt, ds[index].range) {
      CleanNeeds(ds, index + 1, s, virt, i, j, p);
    } else if index != j {
      assert !Views(ds, index, s, j, p);
      var rest := SwapRemove(ds, index);
      var i', j' := if i == |ds| - 1 then index else i, if j == |ds| - 1 then index else j;
      assert Views(rest, i', s, j', p);
      CleanNeeds(rest, index, s, virt, i', j', p);
    }
  }

  /** `swap_remove` takes exactly one entry off the list. */
  lemma SwapRemoveCounts<T>(xs: seq<T>, i: nat)
    requires i < |xs|
    ensures multiset(SwapRemove(xs, i)) == multiset(xs) - multiset{xs[i]}
  {
    hide SwapRemove;
    var n := |xs| - 1;
    if i == n {
      LastCounts(xs);
    } else {
      SwapRemoveShape(xs, i);
      MiddleCounts(xs[..i], xs[i], xs[i + 1..n], xs[n]);
    }
  }

  lemma LastCounts<T>(xs: seq<T>)
    requires xs != []
    ensures multiset(SwapRemove(xs, |xs| - 1)) == multiset(xs) - multiset{xs[|xs| - 1]}
  {
    var n := |xs| - 1;
    assert xs == xs[..n] + [xs[n]] && SwapRemove(xs, n) == xs[..n];
  }

  lemma SwapRemoveShape<T>(xs: seq<T>, i: nat)
    requires i < |xs| - 1
    ensures var n := |xs| - 1;
            && xs == xs[..i] + [xs[i]] + (xs[i + 1..n] + [xs[n]])
            && SwapRemove(xs, i) == xs[..i] + [xs[n]] + xs[i + 1..n]
  {
  }

  lemma MiddleCounts<T>(before: seq<T>, x: T, after: seq<T>, y: T)
    ensures multiset(before + [y] + after) == multiset(before + [x] + (after + [y])) - multiset{x}
  {
    CountAround(before, x, after + [y]);
    CountAround(before, y, after);
  }

  lemma CountAround<T>(before: seq<T>, x: T, after: seq<T>)
    ensures multiset(before + [x] + after) == multiset(before) + multiset{x} + multiset(after)
  {
  }

  ghost function RegionPages(regions: seq<Region>): (pages: set<PageNo>)
    ensures forall p: PageNo :: p in pages <==> Covered(regions, p)
  {
    if regions == [] then {} else
      var n := |regions| - 1;
      var before, last := RegionPages(regions[..n]), regions[n].range;
      var all := before + Pages(last.first, last.count);
      assert forall p: PageNo :: p in all <==> Covered(regions, p) by {
        forall p: PageNo ensures p in all <==> Covered(regions, p) {
          if Covered(regions[..n], p) {
            var i :| 0 <= i < n && regions[..n][i].range.Has(p);
            assert regions[i].range.Has(p);
          }
          if Covered(regions, p) {
            var i :| 0 <= i < |regions| && regions[i].range.Has(p);
            if i < n { assert regions[..n][i].range.Has(p); }
          }
        }
      }
      all
  }

  lemma TiledPages(regions: seq<Region>, range: Range, c: Grants)
    requires Tiles(regions, range, c)
    ensures RegionPages(regions) == Keys(c, range)
  {
  }

  /** Every committed page of the range is off the record and out of the
      table. */
  lemma AgreeRegions(s0: State, s: State, c: Grants, sw: Swaps, demand: set<PageNo>, range: Range)
    requires Agree(s0, c, sw, demand) && s.dev == s0.dev && s.leaf == Dropped(s0.leaf, Keys(c, range))
    ensures Agree(s, Minus(c, range), sw, demand - Pages(range.first, range.count))
  {
  }

  lemma DeviceRegions(ds: seq<DeviceMapping>, s0: State, s: State, pool: set<Frame>, c: Grants, sw: Swaps, demand: set<PageNo>, range: Range)
    requires DeviceOk(ds, s0, pool) && Agree(s0, c, sw, demand)
    requires s.dev == s0.dev && s.pinned == s0.pinned && s.tainted == s0.tainted && s.leaf == Dropped(s0.leaf, Keys(c, range))
    ensures DeviceOk(ds, s, pool)
  {
    forall p: PageNo | p in s.dev ensures At(s.leaf, p) == At(s0.leaf, p) {
      DroppedAt(s0.leaf, Keys(c, range), p);
      if p in c { assert GrantOk(s0, demand, p, c[p]); }
    }
    DeviceSame(ds, s0, s, pool);
  }

  function EntryPages(entries: seq<SwapEntry>): (pages: seq<PageNo>)
    ensures |pages| == |entries| && forall i :: 0 <= i < |pages| ==> pages[i] == entries[i].page
  {
    seq(|entries|, i requires 0 <= i < |entries| => entries[i].page)
  }

  lemma RecordedPages(entries: seq<SwapEntry>, range: Range, sw: Swaps)
    requires Records(entries, range, sw)
    ensures (set p | p in EntryPages(entries)) == Keys(sw, range)
    ensures forall i :: 0 <= i < |entries| ==> range.Has(entries[i].page)
  {
  }

  /** Where committed and swapped pages of `range` were, nothing is left. */
  ghost predicate Emptied(s0: State, s: State, c: Grants, sw: Swaps, range: Range) {
    && s.leaf.Keys == s0.leaf.Keys && s.dev == s0.dev && s.pinned == s0.pinned && s.lent == s0.lent && s.mem == s0.mem
    && s.tainted == s0.tainted
    && forall p: PageNo :: At(s.leaf, p) ==
         if range.Has(p) && ((p in c && At(s0.leaf, p).Page?) || p in sw) then Absent else At(s0.leaf, p)
  }

  lemma EmptiedOutcome(s0: State, s1: State, s: State, c: Grants, sw: Swaps, demand: set<PageNo>, range: Range)
    requires Agree(s0, c, sw, demand)
    requires s1 == s0.(leaf := Dropped(s0.leaf, Keys(c, range)), free := s1.free, home := s1.home, tlb := s1.tlb)
    requires s == s1.(leaf := Cleared(s1.leaf, Keys(sw, range)))
    ensures Emptied(s0, s, c, sw, range)
  {
  }

  lemma GrantedInside(s: State, c: Grants, sw: Swaps, demand: set<PageNo>, regions: seq<Region>, range: Range)
    requires Agree(s, c, sw, demand) && Tiles(regions, range, c)
    ensures forall i, p: PageNo {:trigger regions[i].range.Has(p)} :: 0 <= i < |regions| && regions[i].range.Has(p) ==> p !in s.dev
  {
  }

  lemma SweptSelf(s: State)
    ensures Swept(s, s)
  {
  }

  lemma SweptTrans(s0: State, s: State, t: State)
    requires Swept(s0, s) && Swept(s, t)
    ensures Swept(s0, t)
  {
  }

  lemma SweptKeys(s0: State, s: State)
    requires Swept(s0, s)
    ensures s.leaf.Keys == s0.leaf.Keys
  {
  }

  lemma TiledWindow(regions: seq<Region>, range: Range, c: Grants)
    requires Tiles(regions, range, c) && UserRange(range.first, range.count)
    ensures forall i :: 0 <= i < |regions| ==> UserRange(regions[i].range.first, regions[i].range.count)
  {
  }

  lemma ReleaseOutcome(s0: State, s1: State, s: State, c: Grants, sw: Swaps, range: Range)
    requires Swept(s0, s1) && Emptied(s1, s, c, sw, range)
    ensures s.leaf.Keys == s0.leaf.Keys
    ensures forall p: PageNo :: range.Has(p) && (p in c || p in sw) ==> !At(s.leaf, p).Page?
    ensures forall p: PageNo :: p !in c && p !in sw && p !in s0.dev ==> At(s.leaf, p) == At(s0.leaf, p)
    ensures forall p: PageNo :: p in s0.dev && p !in s.dev ==> At(s.leaf, p) == Absent
  {
  }

  // ---- Sub-ranges

  /** The pages of `pages` are unmapped; nothing else moved but the frames. */
  ghost predicate TakenOut(s0: State, s: State, pages: set<PageNo>) {
    && s == s0.(leaf := s.leaf, free := s.free, home := s.home, tlb := s.tlb) && s.leaf.Keys == s0.leaf.Keys
    && forall p: PageNo :: At(s.leaf, p) == if p in pages then Absent else At(s0.leaf, p)
  }

  lemma UnmappedStart(s: State)
    ensures TakenOut(s, s, {})
  {
  }

  lemma UnmappedStep(s0: State, s: State, t: State, pages: set<PageNo>, range: Range)
    requires TakenOut(s0, s, pages)
    requires t == s.(leaf := Blanked(s.leaf, range.first, range.count), free := t.free, home := t.home, tlb := t.tlb)
    ensures TakenOut(s0, t, pages + Pages(range.first, range.count))
  {
  }

  ghost function RangePages(rs: seq<Range>): (pages: set<PageNo>)
    ensures forall p: PageNo :: p in pages <==> InSome(rs, p)
  {
    if rs == [] then {} else
      var n := |rs| - 1;
      assert rs == rs[..n] + [rs[n]];
      InSomeAppend(rs[..n], rs[n]);
      RangePages(rs[..n]) + Pages(rs[n].first, rs[n].count)
  }

  lemma ListedPages(rs: seq<Range>, pages: set<PageNo>)
    requires Lists(rs, pages)
    ensures RangePages(rs) == pages
  {
  }

  lemma RangePagesStep(rs: seq<Range>, i: nat)
    requires i < |rs|
    ensures RangePages(rs[..i + 1]) == RangePages(rs[..i]) + Pages(rs[i].first, rs[i].count)
  {
    assert rs[..i + 1][..i] == rs[..i];
  }

  /** The next listed range has none of the pages already done. */
  lemma ListedNext(rs: seq<Range>, pages: set<PageNo>, i: nat)
    requires Lists(rs, pages) && i < |rs|
    ensures RangePages(rs[..i + 1]) == RangePages(rs[..i]) + Pages(rs[i].first, rs[i].count)
    ensures RangePages(rs[..i]) !! Pages(rs[i].first, rs[i].count)
    ensures Pages(rs[i].first, rs[i].count) <= pages
  {
    RangePagesStep(rs, i);
    hide RangePages;
    forall p: PageNo | p in RangePages(rs[..i]) ensures !rs[i].Has(p) {
      var j :| 0 <= j < i && rs[..i][j].Has(p);
      assert rs[j].Has(p) && !rs[j].Overlaps(rs[i]);
    }
    forall p: PageNo | p in Pages(rs[i].first, rs[i].count) ensures p in pages { assert rs[i].Has(p); }
  }

  lemma EmptiedPieces(s0: State, s1: State, s: State, c: Grants, sw: Swaps, demand: set<PageNo>, range: Range)
    requires Agree(s0, c, sw, demand)
    requires s1 == s0.(leaf := Cleared(s0.leaf, Keys(sw, range))) && TakenOut(s1, s, Keys(c, range))
    requires forall p :: p in c && range.Has(p) ==> Mapped(s1.leaf, p)
    ensures Emptied(s0, s, c, sw, range)
  {
  }

  /** Clearing swap descriptors does not change which pages are mapped. */
  lemma ClearedReached(leaf: Flat, pages: set<PageNo>, rs: seq<Range>, p: PageNo)
    ensures Reached(Cleared(leaf, pages), rs, p) <==> Reached(leaf, rs, p)
  {
    var leaf' := Cleared(leaf, pages);
    forall q ensures Mapped(leaf', q) <==> Mapped(leaf, q) {}
    forall i | 0 <= i < |rs| ensures ReachedIn(leaf', rs, i, p) <==> ReachedIn(leaf, rs, i, p) {}
  }

  lemma OutAndCleared(s0: State, s1: State, s: State, sw: Swaps, range: Range, rs: seq<Range>)
    requires s1 == s0.(leaf := Cleared(s0.leaf, Keys(sw, range))) && OutUpTo(s1.leaf, s.leaf, rs)
    requires SwapAgree(s0.leaf, sw)
    ensures SweptOut(s0.leaf, s.leaf, sw, range, rs)
  {
    forall p: PageNo
      ensures At(s.leaf, p) == if Reached(s0.leaf, rs, p) || (range.Has(p) && p in sw) then Absent else At(s0.leaf, p) {
      ClearedReached(s0.leaf, Keys(sw, range), rs, p);
      assert At(s.leaf, p) == if Reached(s1.leaf, rs, p) then Absent else At(s1.leaf, p);
    }
  }

  /** The pages reached are out of the table and the swapped pages of the range
      have lost their descriptors; nothing else reads differently. */
  ghost predicate SweptOut(leaf: Flat, leaf': Flat, sw: Swaps, range: Range, rs: seq<Range>) {
    forall p: PageNo :: At(leaf', p) == if Reached(leaf, rs, p) || (range.Has(p) && p in sw) then Absent else At(leaf, p)
  }

  lemma GrantedPieces(s: State, c: Grants, sw: Swaps, demand: set<PageNo>, range: Range)
    requires Agree(s, c, sw, demand)
    ensures forall p :: p in Keys(c, range) ==> p !in s.dev && (p in demand || Mapped(s.leaf, p))
  {
  }

  lemma NothingDropped(sw: Swaps, range: Range, leaf: Flat)
    requires Records([], range, sw)
    ensures Minus(sw, range) == sw && Keys(sw, range) == {} && Cleared(leaf, {}) == leaf
  {
  }

  /** New attributes on `pages`, same frames; nothing else moved. */
  ghost predicate Painted(s0: State, s: State, pages: set<PageNo>, attrs: Attrs) {
    && s == s0.(leaf := s.leaf, tlb := s.tlb) && s0.leaf.Keys <= s.leaf.Keys
    && forall p: PageNo {:trigger At(s.leaf, p)} {:trigger At(s0.leaf, p)} ::
         if p in pages then At(s0.leaf, p).Page? && At(s.leaf, p) == Page(At(s0.leaf, p).frame, attrs)
         else At(s.leaf, p) == At(s0.leaf, p)
  }

  lemma PaintedStep(s0: State, s: State, t: State, pages: set<PageNo>, range: Range, attrs: Attrs)
    requires Painted(s0, s, pages, attrs) && pages !! Pages(range.first, range.count)
    requires forall p: PageNo :: range.Has(p) ==> Mapped(s.leaf, p)
    requires t == s.(leaf := Repainted(s.leaf, range.first, range.count, attrs), tlb := t.tlb)
    ensures Painted(s0, t, pages + Pages(range.first, range.count), attrs)
  {
    var all := pages + Pages(range.first, range.count);
    forall p: PageNo
      ensures if p in all then At(s0.leaf, p).Page? && At(t.leaf, p) == Page(At(s0.leaf, p).frame, attrs)
              else At(t.leaf, p) == At(s0.leaf, p)
    {
      assert if p in pages then At(s0.leaf, p).Page? && At(s.leaf, p) == Page(At(s0.leaf, p).frame, attrs)
             else At(s.leaf, p) == At(s0.leaf, p);
      if range.Has(p) { assert Mapped(s.leaf, p); }
    }
  }

  /** Grants of `pages` carry `flags`; other grants are as they were. */
  ghost predicate Flagged(c: Grants, c': Grants, pages: set<PageNo>, flags: PageFlags) {
    && c'.Keys == c.Keys
    && forall p :: p in c' ==> c'[p] == if p in pages then Grant(flags, c[p].owner) else c[p]
  }

  lemma FlaggedStep(c: Grants, c1: Grants, c2: Grants, pages: set<PageNo>, range: Range, flags: PageFlags, parts: seq<Range>)
    requires Flagged(c, c1, pages, flags) && Reflagged(c1, c2, range, flags, parts)
    requires OneGrant(c, range) && pages !! Pages(range.first, range.count) && range.count > 0
    ensures Flagged(c, c2, pages + Pages(range.first, range.count), flags)
  {
  }

  /** Fresh zeroed pages at `pages`; every other page is valid as before. */
  ghost predicate Filled(s0: State, s: State, pages: set<PageNo>, attrs: Attrs) {
    && s0.leaf.Keys <= s.leaf.Keys && s.free <= s0.free && KeepsBytes(s0, s)
    && forall p: PageNo {:trigger At(s.leaf, p)} {:trigger At(s0.leaf, p)} ::
         if p in pages then
           && At(s.leaf, p).Page? && At(s.leaf, p).attrs == attrs && At(s.leaf, p).frame in s0.free && At(s.leaf, p).frame !in s.free
           && At(s.leaf, p).frame in s.mem && s.mem[At(s.leaf, p).frame] == Zeroed()
         else At(s0.leaf, p).Page? || At(s.leaf, p).Page? ==> At(s.leaf, p) == At(s0.leaf, p)
  }

  lemma FilledStep(s0: State, s: State, t: State, pages: set<PageNo>, range: Range, attrs: Attrs)
    requires Filled(s0, s, pages, attrs) && pages !! Pages(range.first, range.count)
    requires FreshPages(s, t, range, attrs) && SameOutside(s, t, range) && Grows(s, t) && KeepsBytes(s, t) && t.free <= s.free
    ensures Filled(s0, t, pages + Pages(range.first, range.count), attrs)
  {
  }

  /** Grants of `pages` are new; other grants are as they were. */
  ghost predicate Granted(c: Grants, c': Grants, pages: set<PageNo>, grant: Grant) {
    && c'.Keys == c.Keys + pages
    && forall p :: p in c' ==> c'[p] == if p in pages then grant else c[p]
  }

  lemma GrantedStep(c: Grants, c1: Grants, c2: Grants, pages: set<PageNo>, range: Range, grant: Grant)
    requires Granted(c, c1, pages, grant) && c2 == Plus(c1, range, grant)
    ensures Granted(c, c2, pages + Pages(range.first, range.count), grant)
  {
  }

  lemma PieceMapped(s0: State, s: State, before: set<PageNo>, range: Range, done: nat)
    requires TakenOut(s0, s, before) && before !! Pages(range.first, range.count) && done <= range.count
    requires AllMapped(s.leaf, range.first, done) && (done < range.count ==> !Mapped(s.leaf, range.first + done))
    ensures forall p :: p in Pages(range.first, done) ==> Mapped(s0.leaf, p)
    ensures done < range.count ==> range.first + done in Pages(range.first, range.count) && !Mapped(s0.leaf, range.first + done)
  {
    AllMappedMeans(s.leaf, range.first, done);
    forall p | p in Pages(range.first, done) ensures Mapped(s0.leaf, p) {
      assert In(p, range.first, done) && Mapped(s.leaf, p) && p !in before;
      assert At(s.leaf, p) == At(s0.leaf, p);
    }
    if done < range.count {
      var q := range.first + done;
      assert q in Pages(range.first, range.count) && q !in before;
      assert At(s.leaf, q) == At(s0.leaf, q);
    }
  }

  lemma ListedCount(rs: seq<Range>, pages: set<PageNo>, i: nat)
    requires Lists(rs, pages) && i < |rs|
    ensures rs[i].count > 0 && forall p: PageNo :: rs[i].Has(p) <==> p in Pages(rs[i].first, rs[i].count)
  {
  }

  /** Page `p` is committed with `flags`: on the frame it had and for the owner
      it had, or on a fresh zeroed one and for `owner`. */
  ghost predicate Accessed(s0: State, s: State, c: Grants, c': Grants, flags: PageFlags, owner: nat, p: PageNo) {
    && p in c' && c'[p] == Grant(flags, if p in c then c[p].owner else owner) && At(s.leaf, p).Page? && At(s.leaf, p).attrs == AttrsOf(flags)
    && if p in c then At(s0.leaf, p).Page? && At(s.leaf, p).frame == At(s0.leaf, p).frame
       else At(s.leaf, p).frame in s0.free && At(s.leaf, p).frame in s.mem && s.mem[At(s.leaf, p).frame] == Zeroed()
  }

  /** Page `p` is valid as before, with the grant it had. */
  ghost predicate LeftAsIs(s0: State, s: State, c: Grants, c': Grants, p: PageNo) {
    && (p in c' <==> p in c) && (p in c ==> c'[p] == c[p])
    && (At(s0.leaf, p).Page? || At(s.leaf, p).Page? ==> At(s.leaf, p) == At(s0.leaf, p))
  }

  ghost predicate AccessRefused(s: State, c: Grants, ranges: seq<Range>, virt: VirtRange, flags: PageFlags, error: Error) {
    if Validate(virt).Err? then error == Validate(virt).error
    else if !Encloses(ranges, virt.Paged()) then error == NotReserved
    else if flags.IsEmpty() then error == InvalidFlags
    else
      || error == OutOfFrames
      || (error == NotCommitted && exists p :: virt.Paged().Has(p) && p in c && !Mapped(s.leaf, p))
      || (error == Overlap && exists p: PageNo :: virt.Paged().Has(p) && p !in c && At(s.leaf, p).Page?)
  }

  lemma NothingAccessed(s: State, c: Grants, flags: PageFlags)
    ensures forall p: PageNo :: LeftAsIs(s, s, c, c, p)
  {
  }

  lemma ListedInside(ranges: seq<Range>, range: Range, rs: seq<Range>, pages: set<PageNo>)
    requires Encloses(ranges, range) && Lists(rs, pages) && forall p: PageNo :: p in pages ==> range.Has(p)
    ensures forall i :: 0 <= i < |rs| ==> Encloses(ranges, rs[i])
  {
    var k :| 0 <= k < |ranges| && ranges[k].Encloses(range);
    forall i | 0 <= i < |rs| ensures Encloses(ranges, rs[i]) {
      var last: PageNo := rs[i].first + rs[i].count - 1;
      assert rs[i].Has(rs[i].first) && rs[i].Has(last);
      assert ranges[k].Encloses(rs[i]);
    }
  }

  lemma StillUnmapped(s0: State, s: State, done: set<PageNo>, pages: set<PageNo>, range: Range, attrs: Attrs)
    requires Painted(s0, s, done, attrs) && Pages(range.first, range.count) <= pages
    ensures (exists p: PageNo :: range.Has(p) && !Mapped(s.leaf, p)) ==> exists p :: p in pages && !Mapped(s0.leaf, p)
  {
    if p: PageNo :| range.Has(p) && !Mapped(s.leaf, p) {
      assert p in pages && At(s.leaf, p) == At(s.leaf, p);
      assert !Mapped(s0.leaf, p);
    }
  }

  /** Part of a record of swapped pages: nothing of `done`, everything outside
      `pages`. */
  ghost predicate Fewer(sw: Swaps, sw': Swaps, done: set<PageNo>, pages: set<PageNo>) {
    && (forall p :: p in sw && p !in pages ==> p in sw')
    && (forall p :: p in sw' ==> p !in done && p in sw && sw'[p] == sw[p])
  }

  lemma FewerSelf(sw: Swaps, pages: set<PageNo>)
    ensures Fewer(sw, sw, {}, pages)
  {
  }

  lemma FewerStep(sw: Swaps, sw1: Swaps, done: set<PageNo>, pages: set<PageNo>, range: Range)
    requires Fewer(sw, sw1, done, pages) && Pages(range.first, range.count) <= pages
    ensures Fewer(sw, Minus(sw1, range), done + Pages(range.first, range.count), pages)
  {
    assert forall p: PageNo :: range.Has(p) <==> p in Pages(range.first, range.count);
  }

  lemma FewerStop(sw: Swaps, sw1: Swaps, sw2: Swaps, done: set<PageNo>, pages: set<PageNo>, range: Range)
    requires Fewer(sw, sw1, done, pages) && Pages(range.first, range.count) <= pages
    requires sw2 == sw1 || sw2 == Minus(sw1, range)
    ensures Fewer(sw, sw2, done, pages)
  {
    assert forall p: PageNo :: range.Has(p) <==> p in Pages(range.first, range.count);
  }

  /** A commit that failed leaves the valid pages of those before it. */
  lemma FilledStop(s0: State, s: State, t: State, done: set<PageNo>, pages: set<PageNo>, range: Range, attrs: Attrs, error: Error)
    requires Filled(s0, s, done, attrs) && SameValid(s, t) && Grows(s, t)
    requires Pages(range.first, range.count) <= pages && done !! Pages(range.first, range.count)
    ensures Filled(s0, t, done, attrs)
    ensures error == Overlap && MapRefused(s, range, error) ==> exists p :: p in pages && At(s0.leaf, p).Page?
  {
    forall p: PageNo | p in done ensures At(t.leaf, p) == At(s.leaf, p) { assert At(s.leaf, p).Page?; }
    if error == Overlap && MapRefused(s, range, error) {
      var p: PageNo :| range.Has(p) && At(s.leaf, p).Page?;
      assert p in pages && p !in done;
      assert At(s0.leaf, p).Page?;
    }
  }

  lemma AccessProtected(s0: State, s1: State, c: Grants, c1: Grants, done: set<PageNo>, flags: PageFlags, owner: nat)
    requires Painted(s0, s1, done, AttrsOf(flags)) && Flagged(c, c1, done, flags) && done <= c.Keys
    ensures forall p: PageNo :: p in done ==> Accessed(s0, s1, c, c1, flags, owner, p)
    ensures forall p: PageNo :: p !in done ==> LeftAsIs(s0, s1, c, c1, p)
    ensures Grows(s0, s1) && KeepsBytes(s0, s1) && c1.Keys == c.Keys
  {
  }

  lemma PaintedPages(s0: State, s1: State, rest: set<PageNo>, some: set<PageNo>, attrs: Attrs)
    requires Painted(s0, s1, some, attrs) && rest !! some
    ensures forall p: PageNo :: p in rest ==> At(s1.leaf, p) == At(s0.leaf, p)
  {
  }

  lemma AccessOutcome(s0: State, s1: State, s2: State, c: Grants, c1: Grants, c2: Grants, sw: Swaps, sw2: Swaps,
                      more: set<PageNo>, range: Range, flags: PageFlags, owner: nat)
    requires var some, rest := Keys(c, range), Ungranted(c, range);
      && Painted(s0, s1, some, AttrsOf(flags)) && Flagged(c, c1, some, flags) && more <= rest
      && Filled(s1, s2, more, AttrsOf(flags)) && Granted(c1, c2, more, Grant(flags, owner)) && Fewer(sw, sw2, more, rest)
    requires forall p :: p in sw ==> p !in c
    ensures var done := Keys(c, range) + more;
      && (forall p: PageNo :: p in done ==> range.Has(p) && Accessed(s0, s2, c, c2, flags, owner, p))
      && (forall p: PageNo :: p !in done ==> LeftAsIs(s0, s2, c, c2, p))
      && (forall p :: p in sw2 ==> p !in done)
      && (more == Ungranted(c, range) ==> forall p: PageNo :: range.Has(p) ==> p in done)
    ensures Grows(s0, s2) && KeepsBytes(s0, s2)
    ensures forall p :: p in sw && !range.Has(p) ==> p in sw2
    ensures forall p :: p in sw2 ==> p in sw && sw2[p] == sw[p]
  {
  }

  // ---- Demand commit

  /** Recording a range whose pages are not mapped yet. */
  lemma AgreeDemand(s0: State, s: State, c: Grants, sw: Swaps, demand: set<PageNo>, range: Range, grant: Grant)
    requires Agree(s0, c, sw, demand) && !grant.flags.IsEmpty() && s.dev == s0.dev
    requires forall p: PageNo :: At(s.leaf, p) == At(s0.leaf, p)
    ensures Agree(s, Plus(c, range, grant), Minus(sw, range), demand + Pages(range.first, range.count))
            <==> forall p: PageNo :: range.Has(p) ==> p !in sw && p !in s0.dev
  {
    var c', sw', demand' := Plus(c, range, grant), Minus(sw, range), demand + Pages(range.first, range.count);
    if Agree(s, c', sw', demand') {
      forall p: PageNo | range.Has(p) ensures p !in sw && p !in s0.dev {
        assert GrantOk(s, demand', p, c'[p]);
        assert At(s.leaf, p) == At(s0.leaf, p);
      }
    }
  }

  lemma AgreeLent(s0: State, s: State, pool: set<Frame>, c: Grants, sw: Swaps, demand: set<PageNo>, p: PageNo, f: Frame, attrs: Attrs)
    requires Agree(s0, c, sw, demand) && Core(s0, pool) && p in s0.leaf && !s0.leaf[p].Page? && s == MapLent(s0, p, f, attrs)
    ensures p !in s0.dev && (Agree(s, c, sw, demand) <==> p !in sw)
  {
    forall q: PageNo ensures At(s.leaf, q) == if q == p then Page(f, attrs) else At(s0.leaf, q) {}
    assert p in s0.dev ==> Mapped(s0.leaf, p);
    if p in sw {
      assert !SwapAgree(s.leaf, sw);
    } else {
      forall q | q in c ensures GrantOk(s, demand, q, c[q]) { assert GrantOk(s0, demand, q, c[q]); }
      forall q: PageNo ensures if q in sw then At(s.leaf, q) == Swap(sw[q].token) else !At(s.leaf, q).Swap? {
        assert if q in sw then At(s0.leaf, q) == Swap(sw[q].token) else !At(s0.leaf, q).Swap?;
      }
    }
  }

  lemma AgreeGoneDemand(s0: State, s: State, c: Grants, sw: Swaps, demand: set<PageNo>, range: Range, inner: Range)
    requires Agree(s0, c, sw, demand) && s.dev == s0.dev && range.Encloses(inner) && s.leaf == Gone(s0.leaf, inner.first, inner.count)
    ensures Agree(s, Minus(c, range), sw, demand - Pages(range.first, range.count))
  {
    var c', demand' := Minus(c, range), demand - Pages(range.first, range.count);
    forall p: PageNo ensures At(s.leaf, p) == if In(p, inner.first, inner.count) && At(s0.leaf, p).Page? then Absent else At(s0.leaf, p) {}
    forall p | p in c' ensures GrantOk(s, demand', p, c'[p]) {
      assert GrantOk(s0, demand, p, c[p]) && !In(p, inner.first, inner.count);
    }
    forall p: PageNo ensures if p in sw then At(s.leaf, p) == Swap(sw[p].token) else !At(s.leaf, p).Swap? {
      assert if p in sw then At(s0.leaf, p) == Swap(sw[p].token) else !At(s0.leaf, p).Swap?;
    }
  }

  lemma DeviceGoneDemand(ds: seq<DeviceMapping>, s0: State, s: State, pool: set<Frame>, inner: Range)
    requires DeviceOk(ds, s0, pool) && s.dev == s0.dev && s.pinned == s0.pinned && (s0.tainted ==> s.tainted) && s.leaf == Gone(s0.leaf, inner.first, inner.count)
    requires forall p :: In(p, inner.first, inner.count) ==> p !in s0.dev
    ensures DeviceOk(ds, s, pool)
  {
    hide DeviceOk;
    forall p: PageNo | p in s.dev ensures At(s.leaf, p) == At(s0.leaf, p) {}
    DeviceSame(ds, s0, s, pool);
  }
}
