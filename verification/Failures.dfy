/** Short runs from a fresh address space that end where the code falls short
    of what it promises. The pool may refuse any of them for want of a frame;
    nothing else stops them. */
module Failures {
  import opened Options
  import opened Arithmetic
  import opened PageWalk
  import opened PageTables
  import opened Machine
  import opened Runs
  import opened DemandRuns
  import opened DeviceRuns
  import opened Regions
  import opened Tracker
  import opened Mmus
  import opened Books
  import opened Outcomes
  import opened AddressSpaces
  import opened Histories

  const RW := PageFlags(true, true, false)
  const ANYWHERE := DmaPlacement(PAGE, U64_SPAN)

  predicate BareRoot(entries: seq<Descriptor>) {
    |entries| == FANOUT && forall i :: ROOT_FIRST <= i < ROOT_END ==> entries[i] == Absent
  }

  /** Every frame has a 64-bit address. */
  ghost predicate Addressable(frames: map<Frame, Bytes>) {
    forall f :: f in frames ==> (f + 1) * PAGE < U64_SPAN
  }

  lemma PageIsPower()
    ensures PowerOfTwo(PAGE)
  {
    assert PowerOfTwo(2) && PowerOfTwo(4) && PowerOfTwo(8);
    assert PowerOfTwo(16) && PowerOfTwo(32) && PowerOfTwo(64);
    assert PowerOfTwo(128) && PowerOfTwo(256) && PowerOfTwo(512);
    assert PowerOfTwo(1024) && PowerOfTwo(2048);
  }

  /** A fresh address space with one reservation of `n` pages. */
  method Reserved(root: Frame, entries: seq<Descriptor>, frames: map<Frame, Bytes>, n: nat) returns (a: AddressSpace, virt: VirtRange)
    requires BareRoot(entries) && 0 < n <= 16
    ensures fresh(a) && fresh(a.mmu) && fresh(a.mmu.pt) && fresh(a.mmu.log) && fresh(a.tracker)
    ensures a.Valid() && a.mmu.st.leaf == map[] && a.mmu.st.dev == {} && a.devices == [] && a.demand == {} && a.issued == multiset{} == a.settled
    ensures a.tracker.committed == map[] && a.tracker.swapped == map[]
    ensures Validate(virt).Ok? && virt.byteLen == n * PAGE && virt.Paged().count == n && virt.start == virt.Paged().first * PAGE
    ensures a.tracker.Ranges() == [virt.Paged()] && UserRange(virt.Paged().first, n) && a.mmu.pool == frames.Keys
    ensures a.mmu.log.refusals == 0 && a.vaNext <= USER_FIRST + n
    ensures a.mmu.st.free == frames.Keys
    ensures a.mmu.log.runs == []
  {
    hide AddressSpace.Valid, ReservationTracker.Ranges;
    a := new AddressSpace(root, entries, frames);
    NoDevices(a);
    DivSplit(n, 0, PAGE);
    var r := a.Reserve(n * PAGE);
    virt := r.value;
    assert [] + [virt.Paged()] == [virt.Paged()];
    OnlyReservation(a, virt.Paged());
  }

  lemma OnlyReservation(a: AddressSpace, range: Range)
    requires a.Valid() && a.tracker.Ranges() == [range]
    ensures Encloses(a.tracker.Ranges(), range) && UserRange(range.first, range.count)
  {
    assert a.tracker.Ranges()[0].Encloses(range);
    a.InWindow(range);
  }

  lemma NoDevices(a: AddressSpace)
    requires a.Valid() && a.mmu.st.leaf == map[]
    ensures a.mmu.st.dev == {}
  {
  }

  /** The same with the whole reservation prepared for demand commit. */
  method Prepared(root: Frame, entries: seq<Descriptor>, frames: map<Frame, Bytes>, n: nat) returns (a: AddressSpace, virt: VirtRange)
    requires BareRoot(entries) && 0 < n <= 16
    ensures fresh(a) && fresh(a.mmu) && fresh(a.mmu.pt) && fresh(a.mmu.log) && fresh(a.tracker)
    ensures a.Valid() && a.tracker.swapped == map[]
    ensures Validate(virt).Ok? && virt.Paged().count == n && virt.start == virt.Paged().first * PAGE
    ensures Encloses(a.tracker.Ranges(), virt.Paged()) && UserRange(virt.Paged().first, n)
    ensures forall p: PageNo :: virt.Paged().Has(p) ==> p in a.tracker.committed && p in a.mmu.st.leaf && At(a.mmu.st.leaf, p) == Absent
    ensures a.tracker.Pieces(virt.Paged()) == [virt.Paged()]
  {
    hide AddressSpace.Valid, ReservationTracker.Ranges, ReservationTracker.Pieces;
    a, virt := Reserved(root, entries, frames, n);
    OnlyReservation(a, virt.Paged());
    var prepared := a.PrepareDemandCommit(virt, RW);
    OnlyReservation(a, virt.Paged());
  }

  lemma NotDevice(a: AddressSpace, p: PageNo)
    requires a.Valid() && At(a.mmu.st.leaf, p) == Absent
    ensures p !in a.mmu.st.dev
  {
    assert p in a.mmu.st.dev ==> Mapped(a.mmu.st.leaf, p);
  }

  /** The fault handler: a frame from the reserve behind page `p`. */
  method FaultIn(a: AddressSpace, p: PageNo) returns (r: Result<Unit>)
    requires a.Valid() && UserPage(p) && p in a.mmu.st.leaf && At(a.mmu.st.leaf, p) == Absent && p !in a.tracker.swapped
    modifies a.mmu, a.mmu.pt, a.mmu.log
    ensures a.Valid()
    ensures r.Err? ==> r.error == OutOfFrames && a.mmu.log.refusals > old(a.mmu.log.refusals)
    ensures r.Ok? ==> Mapped(a.mmu.st.leaf, p) && p !in a.mmu.st.dev && a.mmu.st.leaf.Keys == old(a.mmu.st).leaf.Keys
    ensures r.Ok? ==> forall q: PageNo :: q != p ==> At(a.mmu.st.leaf, q) == At(old(a.mmu.st).leaf, q)
  {
    hide AddressSpace.Valid;
    NotDevice(a, p);
    var f := a.Lend();
    if f.None? { return Err(OutOfFrames); }
    Quotient(p * PAGE, PAGE, p);
    r := a.CommitDemandPage(p * PAGE, f.value, RW);
  }

  /** Reserve, prepare three pages, commit the first and the last, end: frames
      go back while translations to them survive. */
  method SkippedPage(root: Frame, entries: seq<Descriptor>, frames: map<Frame, Bytes>) returns (a: AddressSpace, r: Result<Unit>)
    requires BareRoot(entries)
    ensures r.Err? ==> r.error == OutOfFrames && a.mmu.log.refusals > 0
    ensures r.Ok? ==> a.mmu.st.tainted && !a.Valid()
  {
    hide AddressSpace.Valid, ReservationTracker.Ranges, OneRun, Hits, Gone, Encloses;
    var virt;
    a, virt := Prepared(root, entries, frames, 3);
    var p: PageNo := virt.Paged().first;
    assert virt.Paged().Has(p) && virt.Paged().Has(p + 1) && virt.Paged().Has(p + 2);
    r := FaultIn(a, p);
    if r.Err? { return; }
    r := FaultIn(a, p + 2);
    if r.Err? { return; }
    assert At(a.mmu.st.leaf, p).Page? && At(a.mmu.st.leaf, p + 1) == Absent;
    ThreePages(a.mmu.st.leaf, p);
    assert virt.Encloses(virt) && virt.Stepped() == virt.Paged() by { DivSplit(3, PAGE - 1, PAGE); }
    r := a.EndDemandCommit(virt, virt);
  }

  lemma ThreePages(leaf: Flat, p: PageNo)
    requires Mapped(leaf, p) && !Mapped(leaf, p + 1) && Mapped(leaf, p + 2)
    ensures Hits(leaf, p, 3) == [p, p + 2] && !OneRun(Hits(leaf, p, 3))
  {
    assert Hits(leaf, p, 1) == [p];
    assert Hits(leaf, p, 2) == [p];
    var hits := [p, p + 2];
    assert hits[1] != hits[0] + 1;
  }

  /** A page swapped out and its range then prepared: the leaf still shows a
      token the record no longer has. */
  method StrandedDescriptor(root: Frame, entries: seq<Descriptor>, frames: map<Frame, Bytes>, token: Token)
    returns (a: AddressSpace, r: Result<Unit>)
    requires BareRoot(entries)
    ensures r.Err? ==> r.error == OutOfFrames && a.mmu.log.refusals > 0
    ensures r.Ok? ==> !a.Valid() && exists p: PageNo :: At(a.mmu.st.leaf, p) == Swap(token) && p !in a.tracker.swapped
  {
    hide AddressSpace.Valid, ReservationTracker.Ranges, SwappedOut, Encloses;
    var virt, bytes;
    a, virt, r, bytes := SwappedPage(root, entries, frames, token);
    if r.Err? { return; }
    ghost var p := virt.Paged().first;
    assert At(a.mmu.st.leaf, p) == Swap(token);
    r := a.PrepareDemandCommit(virt, RW);
  }

  lemma NothingIssued(a: AddressSpace)
    requires a.Valid() && a.issued == multiset{}
    ensures a.orphans == []
  {
    hide Core, Fresh, Agree, DeviceOk, PageTable.Valid, ReservationTracker.Valid, Accounted, OneHome, OneEach, Live;
    forall t: Token ensures multiset(a.orphans)[t] == 0 { assert a.issued[t] == 0; }
    assert multiset(a.orphans) == multiset{};
    assert |multiset(a.orphans)| == |a.orphans|;
  }

  /** A fresh address space with one committed page. */
  method CommittedPage(root: Frame, entries: seq<Descriptor>, frames: map<Frame, Bytes>)
    returns (a: AddressSpace, virt: VirtRange, r: Result<Unit>)
    requires BareRoot(entries)
    ensures fresh(a) && fresh(a.mmu) && fresh(a.mmu.pt) && fresh(a.mmu.log) && fresh(a.tracker)
    ensures r.Err? ==> r.error == OutOfFrames && a.mmu.log.refusals > 0
    ensures a.Valid() && Validate(virt).Ok? && virt.Paged().count == 1 && virt.start == virt.Paged().first * PAGE
    ensures r.Ok? ==> a.issued == multiset{} == a.settled && a.orphans == [] && Encloses(a.tracker.Ranges(), virt.Paged())
    ensures r.Ok? ==> a.tracker.committed.Keys == {virt.Paged().first} && a.tracker.swapped == map[] && Mapped(a.mmu.st.leaf, virt.Paged().first)
  {
    hide AddressSpace.Valid, ReservationTracker.Ranges, Encloses, KeepsBytes, SameOutside, Grows, SameValid;
    a, virt := Reserved(root, entries, frames, 1);
    OnlyReservation(a, virt.Paged());
    r := a.Commit(virt, RW, 0);
    if r.Err? { return; }
    NothingIssued(a);
    assert virt.Paged().Has(virt.Paged().first);
  }

  /** A fresh page, swapped out. */
  method SwappedPage(root: Frame, entries: seq<Descriptor>, frames: map<Frame, Bytes>, token: Token)
    returns (a: AddressSpace, virt: VirtRange, r: Result<Unit>, bytes: Bytes)
    requires BareRoot(entries)
    ensures fresh(a) && fresh(a.mmu) && fresh(a.mmu.pt) && fresh(a.mmu.log) && fresh(a.tracker)
    ensures r.Err? ==> r.error == OutOfFrames && a.mmu.log.refusals > 0
    ensures a.Valid() && Validate(virt).Ok? && virt.Paged().count == 1 && virt.start == virt.Paged().first * PAGE
    ensures r.Ok? ==> a.issued == multiset{token} && a.settled == multiset{}
    ensures r.Ok? ==> a.orphans == [] && Encloses(a.tracker.Ranges(), virt.Paged()) && a.tracker.committed == map[]
    ensures r.Ok? ==> virt.Paged().first in a.tracker.swapped && a.tracker.swapped.Keys == {virt.Paged().first}
                      && a.tracker.swapped[virt.Paged().first].token == token && At(a.mmu.st.leaf, virt.Paged().first) == Swap(token)
  {
    hide AddressSpace.Valid, ReservationTracker.Ranges, Encloses;
    bytes := Zeroed();
    a, virt, r := CommittedPage(root, entries, frames);
    if r.Err? { return; }
    var p: PageNo := virt.Paged().first;
    Quotient(p * PAGE, PAGE, p);
    var out;
    out, bytes := a.SwapOutPage(p * PAGE, token, PAGE);
  }

  /** A demand-commit region prepared and ended: the leaf table stays, so a
      fault-time commit is accepted for a page that no record grants. */
  method UnpreparedAccepted(root: Frame, entries: seq<Descriptor>, frames: map<Frame, Bytes>) returns (a: AddressSpace, r: Result<Unit>)
    requires BareRoot(entries)
    ensures r.Err? ==> r.error == OutOfFrames && a.mmu.log.refusals > 0
    ensures r.Ok? ==> !OnRecord(a.mmu.st, a.tracker.committed)
  {
    hide AddressSpace.Valid, ReservationTracker.Ranges, OneRun, Hits, Encloses;
    var virt;
    a, virt := Prepared(root, entries, frames, 1);
    var p: PageNo := virt.Paged().first;
    assert virt.Paged().Has(p);
    assert virt.Encloses(virt) && virt.Stepped() == virt.Paged() by { DivSplit(1, PAGE - 1, PAGE); }
    NoPages(a.mmu.st.leaf, p);
    var ended := a.EndDemandCommit(virt, virt);
    assert p !in a.tracker.committed && p in a.mmu.st.leaf && At(a.mmu.st.leaf, p) == Absent;
    r := FaultIn(a, p);
  }

  /** Two pages prepared and only the second faulted in. */
  method HalfFaulted(root: Frame, entries: seq<Descriptor>, frames: map<Frame, Bytes>)
    returns (a: AddressSpace, virt: VirtRange, r: Result<Unit>)
    requires BareRoot(entries)
    ensures fresh(a) && fresh(a.mmu) && fresh(a.mmu.pt) && fresh(a.mmu.log) && fresh(a.tracker)
    ensures r.Err? ==> r.error == OutOfFrames && a.mmu.log.refusals > 0
    ensures r.Ok? ==> a.Valid() && Validate(virt).Ok? && virt.Paged().count == 2 && virt.byteLen == 2 * PAGE && virt.start == virt.Paged().first * PAGE
    ensures r.Ok? ==> Encloses(a.tracker.Ranges(), virt.Paged()) && a.tracker.Pieces(virt.Paged()) == [virt.Paged()]
    ensures r.Ok? ==> forall p: PageNo :: virt.Paged().Has(p) ==> p in a.tracker.committed
    ensures r.Ok? ==> var p := virt.Paged().first;
              At(a.mmu.st.leaf, p) == Absent && Mapped(a.mmu.st.leaf, p + 1) && p + 1 !in a.mmu.st.dev
  {
    hide AddressSpace.Valid, ReservationTracker.Ranges, ReservationTracker.Pieces, Encloses;
    a, virt := Prepared(root, entries, frames, 2);
    var p: PageNo := virt.Paged().first;
    assert virt.Paged().Has(p) && virt.Paged().Has(p + 1);
    r := FaultIn(a, p + 1);
  }

  /** A decommit stops at the first page and leaves the second mapped and off
      the record. */
  method DecommitBehindHole(root: Frame, entries: seq<Descriptor>, frames: map<Frame, Bytes>) returns (a: AddressSpace, r: Result<Unit>)
    requires BareRoot(entries)
    ensures r.Err? ==> r.error == OutOfFrames && a.mmu.log.refusals > 0
    ensures r.Ok? ==> a.Valid() && !OnRecord(a.mmu.st, a.tracker.committed)
  {
    hide AddressSpace.Valid, ReservationTracker.Ranges, ReservationTracker.Pieces, Encloses;
    var virt;
    a, virt, r := HalfFaulted(root, entries, frames);
    if r.Err? { return; }
    ghost var range, leaf := virt.Paged(), a.mmu.st.leaf;
    assert !Mapped(leaf, range.first) && range.Has(range.first + 1);
    assert !MappedUpTo(leaf, range, range.first + 1);
    label Before:
    var stopped := a.Decommit(virt);
    SameDevices@Before(a);
    StillThere(leaf, a.mmu.st.leaf, range.first + 1);
  }

  lemma StillThere(leaf: Flat, leaf': Flat, p: PageNo)
    requires Mapped(leaf, p) && At(leaf', p) == At(leaf, p)
    ensures Mapped(leaf', p)
  {
  }

  /** An end that names only the first page leaves the second mapped and off
      the record. */
  method EndTooNarrow(root: Frame, entries: seq<Descriptor>, frames: map<Frame, Bytes>) returns (a: AddressSpace, r: Result<Unit>)
    requires BareRoot(entries)
    ensures r.Err? ==> r.error == OutOfFrames && a.mmu.log.refusals > 0
    ensures r.Ok? ==> a.Valid() && !OnRecord(a.mmu.st, a.tracker.committed)
  {
    hide AddressSpace.Valid, ReservationTracker.Ranges, ReservationTracker.Pieces, Encloses, OneRun, Hits;
    var virt;
    a, virt, r := HalfFaulted(root, entries, frames);
    if r.Err? { return; }
    ghost var p := virt.Paged().first;
    var first := VirtRange(virt.start, PAGE);
    assert virt.Encloses(first) && first.Stepped() == Range(p, 1);
    ghost var leaf := a.mmu.st.leaf;
    NoPages(leaf, p);
    GoneBefore(leaf, p);
    hide Gone, Mapped;
    r := a.EndDemandCommit(virt, first);
    assert a.mmu.st.leaf == Gone(leaf, p, 1) && p + 1 !in a.tracker.committed && p + 1 !in a.mmu.st.dev;
  }

  lemma GoneBefore(leaf: Flat, p: PageNo)
    requires Mapped(leaf, p + 1)
    ensures Mapped(Gone(leaf, p, 1), p + 1)
  {
  }

  /** A sub-range decommit stops the same way. */
  method SubrangesBehindHole(root: Frame, entries: seq<Descriptor>, frames: map<Frame, Bytes>) returns (a: AddressSpace, r: Result<Unit>)
    requires BareRoot(entries)
    ensures r.Err? ==> r.error == OutOfFrames && a.mmu.log.refusals > 0
    ensures r.Ok? ==> a.Valid() && !OnRecord(a.mmu.st, a.tracker.committed)
  {
    hide AddressSpace.Valid, ReservationTracker.Ranges, ReservationTracker.Pieces, Encloses, Reached, Lists, Emptied;
    var virt;
    a, virt, r := HalfFaulted(root, entries, frames);
    if r.Err? { return; }
    ghost var range, leaf := virt.Paged(), a.mmu.st.leaf;
    NotReached(leaf, range);
    SwappedNotMapped(a);
    label Before:
    var stopped := a.DecommitCommittedSubranges(virt);
    SameDevices@Before(a);
    StillThere(leaf, a.mmu.st.leaf, range.first + 1);
  }

  lemma NotReached(leaf: Flat, range: Range)
    requires range.count == 2 && !Mapped(leaf, range.first)
    ensures !Reached(leaf, [range], range.first + 1)
  {
  }

  /** A fault-time commit of a swapped page: the page is mapped and still on
      record as swapped. */
  method SwapOverwritten(root: Frame, entries: seq<Descriptor>, frames: map<Frame, Bytes>, token: Token)
    returns (a: AddressSpace, r: Result<Unit>)
    requires BareRoot(entries)
    ensures r.Err? ==> r.error == OutOfFrames && a.mmu.log.refusals > 0
    ensures r.Ok? ==> !a.Valid() && exists p :: p in a.tracker.swapped && Mapped(a.mmu.st.leaf, p)
  {
    hide AddressSpace.Valid, ReservationTracker.Ranges, Encloses;
    var virt, bytes;
    a, virt, r, bytes := SwappedPage(root, entries, frames, token);
    if r.Err? { return; }
    var p: PageNo := virt.Paged().first;
    LeavesAreUserPages(a);
    Quotient(p * PAGE, PAGE, p);
    var frame := a.Lend();
    if frame.None? { return a, Err(OutOfFrames); }
    r := a.CommitDemandPage(p * PAGE, frame.value, RW);
  }

  /** A register window and then a demand-commit range over it: the page is a
      device page and on record as granted. Nothing can refuse this run. */
  method PreparedDevice(root: Frame, entries: seq<Descriptor>, frames: map<Frame, Bytes>, register: Frame) returns (a: AddressSpace)
    requires BareRoot(entries) && register !in frames
    ensures !a.Valid() && exists p: PageNo :: p in a.mmu.st.dev && p in a.tracker.committed
  {
    hide AddressSpace.Valid, ReservationTracker.Ranges, RunMapped, Untouched;
    var virt;
    a, virt := Reserved(root, entries, frames, 1);
    OnlyReservation(a, virt.Paged());
    assert Run(register, 1) == {register};
    DivSplit(register, 0, PAGE);
    ghost var s, p := a.mmu.st, virt.Paged().first;
    assert forall q: PageNo :: At(s.leaf, q) == Absent;
    var mapped := a.MapDevice(virt, register * PAGE, PAGE, true, true);
    RunIsDevice(s, a.mmu.st, virt.Paged(), register, DeviceAttrs(true, true));
    assert virt.Paged().Has(p);
    var prepared := a.PrepareDemandCommit(virt, RW);
  }

  lemma RunIsDevice(s0: State, s: State, range: Range, frame: Frame, attrs: Attrs)
    requires RunMapped(s0, s, range, frame, attrs) && range.count > 0
    ensures range.first in s.dev
  {
  }

  lemma NoPages(leaf: Flat, p: PageNo)
    requires !Mapped(leaf, p)
    ensures Hits(leaf, p, 1) == [] && OneRun([])
  {
    assert Hits(leaf, p, 0) == [];
  }

  /** The same page brought back with `content` and swapped out again. */
  method RefilledPage(root: Frame, entries: seq<Descriptor>, frames: map<Frame, Bytes>, content: Bytes, token: Token, again: Token)
    returns (a: AddressSpace, virt: VirtRange, r: Result<Unit>, bytes: Bytes)
    requires BareRoot(entries) && token != again
    ensures fresh(a) && fresh(a.mmu) && fresh(a.mmu.pt) && fresh(a.mmu.log) && fresh(a.tracker)
    ensures r.Err? ==> r.error == OutOfFrames && a.mmu.log.refusals > 0
    ensures r.Ok? ==> a.Valid() && Validate(virt).Ok? && virt.Paged().count == 1 && Encloses(a.tracker.Ranges(), virt.Paged())
    ensures r.Ok? ==> a.tracker.committed == map[] && a.tracker.swapped.Keys == {virt.Paged().first} && bytes == content
    ensures r.Ok? ==> a.issued == multiset{token, again} && a.settled == multiset{token}
    ensures r.Ok? ==> At(a.mmu.st.leaf, virt.Paged().first) == Swap(again)
  {
    hide AddressSpace.Valid, ReservationTracker.Ranges, Encloses;
    a, virt, r, bytes := SwappedPage(root, entries, frames, token);
    if r.Err? { return; }
    var p: PageNo := virt.Paged().first;
    Quotient(p * PAGE, PAGE, p);
    var back := a.SwapInPage(p * PAGE, content);
    if back.Err? { return a, virt, Err(back.error), bytes; }
    var out;
    out, bytes := a.SwapOutPage(p * PAGE, again, PAGE);
  }

  /** A swapped page in a range made accessible: the contents given back by the
      swap-out are replaced by zeroes and the token is orphaned. */
  method ContentsLost(root: Frame, entries: seq<Descriptor>, frames: map<Frame, Bytes>, content: Bytes, token: Token, again: Token)
    returns (a: AddressSpace, r: Result<Unit>, bytes: Bytes)
    requires BareRoot(entries) && token != again
    ensures r.Err? ==> r.error == OutOfFrames && a.mmu.log.refusals > 0
    ensures r.Ok? ==> bytes == content && again in a.orphans
    ensures r.Ok? ==> exists p: PageNo :: p in a.tracker.committed && Mapped(a.mmu.st.leaf, p)
                        && a.mmu.st.leaf[p].frame in a.mmu.st.mem && a.mmu.st.mem[a.mmu.st.leaf[p].frame] == Zeroed()
  {
    hide AddressSpace.Valid, ReservationTracker.Ranges, Encloses, KeepsBytes, LeftAsIs;
    var virt;
    a, virt, r, bytes := RefilledPage(root, entries, frames, content, token, again);
    if r.Err? { return; }
    ghost var p, done := virt.Paged().first, {};
    assert virt.Paged().Has(p);
    r, done := a.EnsureAccessibleSubranges(virt, RW, 0);
    if r.Ok? {
      assert a.tracker.swapped == map[];
      Unsettled(a, again);
    }
  }

  lemma Unsettled(a: AddressSpace, t: Token)
    requires a.Valid() && a.issued[t] > a.settled[t] && a.tracker.swapped == map[]
    ensures t in a.orphans
  {
    hide Core, Fresh, Agree, DeviceOk, PageTable.Valid, ReservationTracker.Valid, Accounted, OneHome, OneEach;
    assert Live(a.tracker.swapped) == {};
    assert multiset(a.orphans)[t] > 0;
  }

  /** A view of a pinned run outlives the run: its translation is live and its
      frame is free. */
  method ViewOutlivesRun(root: Frame, entries: seq<Descriptor>, frames: map<Frame, Bytes>) returns (a: AddressSpace, r: Result<Unit>)
    requires BareRoot(entries) && Addressable(frames)
    ensures r.Err? ==> r.error == OutOfFrames && a.mmu.log.refusals > 0
    ensures r.Ok? ==> a.mmu.st.tainted && !a.Valid()
    ensures r.Ok? ==> exists p: PageNo :: Mapped(a.mmu.st.leaf, p) && a.mmu.st.leaf[p].frame in a.mmu.st.free && (p, a.mmu.st.leaf[p]) in a.mmu.st.tlb
  {
    hide AddressSpace.Valid, ReservationTracker.Ranges, Encloses;
    var run, view, frame;
    a, run, view, frame, r := RunAndView(root, entries, frames);
    if r.Err? { return; }
    DropOwner(a, run, view, frame);
  }

  /** One page of pinned memory and a shared view of it in a second range. */
  method RunAndView(root: Frame, entries: seq<Descriptor>, frames: map<Frame, Bytes>)
    returns (a: AddressSpace, run: VirtRange, view: VirtRange, frame: Frame, r: Result<Unit>)
    requires BareRoot(entries) && Addressable(frames)
    ensures fresh(a) && fresh(a.mmu) && fresh(a.mmu.pt) && fresh(a.mmu.log) && fresh(a.tracker)
    ensures r.Err? ==> r.error == OutOfFrames && a.mmu.log.refusals > 0
    ensures r.Ok? ==> a.Valid() && Validate(run).Ok? && run.Paged().count == 1 && view.Paged().count == 1 && run.Paged().first != view.Paged().first
    ensures r.Ok? ==> a.devices == [DeviceMapping(run.Paged(), Pinned(frame, PAGE)), DeviceMapping(view.Paged(), Shared)]
                      && At(a.mmu.st.leaf, view.Paged().first) == Page(frame, AttrsOf(RW))
  {
    hide AddressSpace.Valid, ReservationTracker.Ranges, Encloses, NoViews;
    a, run := Reserved(root, entries, frames, 1);
    view, frame := run, 0;
    OnlyReservation(a, run.Paged());
    PageIsPower();
    var got := a.CommitContiguous(run, RW, ANYWHERE);
    if got.Err? {
      AcceptedAnywhere(frames, a.mmu.log.runs);
      return a, run, view, frame, Err(got.error);
    }
    frame := got.value;
    view := SecondView(a, run, frame);
    r := Ok(Unit);
  }

  lemma AcceptedAnywhere(frames: map<Frame, Bytes>, runs: seq<Frame>)
    requires Addressable(frames)
    ensures !TurnedDown([], runs, ANYWHERE, 1, frames.Keys)
  {
    if |runs| == 1 && Run(runs[0], 1) <= frames.Keys {
      assert runs[0] in Run(runs[0], 1);
    }
  }

  lemma SecondReservation(a: AddressSpace, first: Range, second: Range)
    requires a.Valid() && a.tracker.Ranges() == [first] + [second]
    ensures Encloses(a.tracker.Ranges(), second)
  {
    assert a.tracker.Ranges()[1].Encloses(second);
  }

  lemma OnePageRun(s0: State, s: State, range: Range, frame: Frame, attrs: Attrs)
    requires RunMapped(s0, s, range, frame, attrs) && range.count > 0
    ensures At(s.leaf, range.first) == Page(frame, attrs)
  {
  }

  lemma SeenIsViewed(ds: seq<DeviceMapping>, i: nat, s: State, j: int, p: PageNo)
    requires i < |ds| && Views(ds, i, s, j, p)
    ensures !NoViews(ds, i, s)
  {
  }

  method SecondView(a: AddressSpace, run: VirtRange, frame: Frame) returns (view: VirtRange)
    requires a.Valid() && Validate(run).Ok? && run.Paged().count == 1 && a.vaNext < USER_END
    requires a.devices == [DeviceMapping(run.Paged(), Pinned(frame, PAGE))] && frame in a.mmu.st.pinned
    requires a.tracker.Ranges() == [run.Paged()] && a.tracker.committed == map[] && a.tracker.swapped == map[]
    requires forall p: PageNo :: !run.Paged().Has(p) ==> At(a.mmu.st.leaf, p) == Absent
    modifies a, a.mmu, a.mmu.pt, a.mmu.log, a.tracker
    ensures a.Valid() && view.Paged().count == 1 && run.Paged().first != view.Paged().first
    ensures a.devices == [DeviceMapping(run.Paged(), Pinned(frame, PAGE)), DeviceMapping(view.Paged(), Shared)]
                      && At(a.mmu.st.leaf, view.Paged().first) == Page(frame, AttrsOf(RW))
  {
    hide AddressSpace.Valid, ReservationTracker.Ranges, Encloses;
    ghost var ranges := a.tracker.Ranges();
    var reserved := a.Reserve(PAGE);
    view := reserved.value;
    assert ranges[0] == run.Paged();
    AddView(a, run, view, frame);
  }

  /** The same run given up by releasing its range: the sweep frees it while the
      view outside the range still names it. */
  method ReleaseUnderView(root: Frame, entries: seq<Descriptor>, frames: map<Frame, Bytes>) returns (a: AddressSpace, r: Result<Unit>)
    requires BareRoot(entries) && Addressable(frames)
    ensures r.Err? ==> r.error == OutOfFrames && a.mmu.log.refusals > 0
    ensures r.Ok? ==> a.mmu.st.tainted && !a.Valid()
  {
    hide AddressSpace.Valid, ReservationTracker.Ranges, Encloses, NoViews, Covers;
    var run, view, frame;
    a, run, view, frame, r := RunAndView(root, entries, frames);
    if r.Err? { return; }
    ghost var s, ds, p := a.mmu.st, a.devices, view.Paged().first;
    assert Views(ds, 0, s, 1, p);
    SeenIsViewed(ds, 0, s, 1, p);
    OwnRangeCovered(run);
    r := a.Release(run);
    r := Ok(Unit);
  }

  lemma OwnRangeCovered(virt: VirtRange)
    requires virt.Aligned()
    ensures Covers(virt, virt.Paged())
  {
  }

  method AddView(a: AddressSpace, run: VirtRange, view: VirtRange, frame: Frame)
    requires a.Valid() && Validate(view).Ok? && view.Paged().count == 1 && view.byteLen == PAGE && !run.Paged().Overlaps(view.Paged())
    requires a.devices == [DeviceMapping(run.Paged(), Pinned(frame, PAGE))] && frame in a.mmu.st.pinned
    requires a.tracker.Ranges() == [run.Paged()] + [view.Paged()] && a.tracker.committed == map[] && a.tracker.swapped == map[]
    requires At(a.mmu.st.leaf, view.Paged().first) == Absent
    modifies a, a.mmu, a.mmu.pt
    ensures a.Valid() && a.devices == [DeviceMapping(run.Paged(), Pinned(frame, PAGE)), DeviceMapping(view.Paged(), Shared)]
    ensures At(a.mmu.st.leaf, view.Paged().first) == Page(frame, AttrsOf(RW))
  {
    hide AddressSpace.Valid, ReservationTracker.Ranges, RunMapped, Untouched, Encloses;
    SecondReservation(a, run.Paged(), view.Paged());
    assert Run(frame, 1) == {frame};
    DivSplit(frame, 0, PAGE);
    ghost var s := a.mmu.st;
    var r := a.MapShared(view, frame * PAGE, PAGE, RW);
    OnePageRun(s, a.mmu.st, view.Paged(), frame, AttrsOf(RW));
  }

  method DropOwner(a: AddressSpace, run: VirtRange, view: VirtRange, frame: Frame)
    requires a.Valid() && Validate(run).Ok? && run.Paged().count == 1 && view.Paged().count == 1 && run.Paged().first != view.Paged().first
    requires a.devices == [DeviceMapping(run.Paged(), Pinned(frame, PAGE)), DeviceMapping(view.Paged(), Shared)]
    requires At(a.mmu.st.leaf, view.Paged().first) == Page(frame, AttrsOf(RW))
    modifies a, a.mmu, a.mmu.pt
    ensures a.mmu.st.tainted && !a.Valid()
    ensures exists p: PageNo :: Mapped(a.mmu.st.leaf, p) && a.mmu.st.leaf[p].frame in a.mmu.st.free && (p, a.mmu.st.leaf[p]) in a.mmu.st.tlb
  {
    hide AddressSpace.Sane, NoViews, DeviceGone;
    ghost var s0, ds, p := a.mmu.st, a.devices, view.Paged().first;
    Unwrapped(a);
    assert Views(ds, 0, s0, 1, p);
    SeenIsViewed(ds, 0, s0, 1, p);
    var r := a.UnmapDevice(run, false);
    Unwrapped(a);
    DropNeedsNoViews(ds, 0, s0, a.mmu.st, a.mmu.pool);
  }

  lemma Unwrapped(a: AddressSpace)
    requires a.Sane()
    ensures Core(a.mmu.st, a.mmu.pool) && Fresh(a.mmu.st) && DeviceOk(a.devices, a.mmu.st, a.mmu.pool)
  {
  }
}
