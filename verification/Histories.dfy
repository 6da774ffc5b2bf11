/** Runs of calls on one address space. A call is made only when its caller
    could see, in the code's own data, that it meets its duty. */
module Histories {
  import opened Options
  import opened Arithmetic
  import opened PageWalk
  import opened PageTables
  import opened Machine
  import opened Runs
  import opened DemandRuns
  import opened DeviceRuns
  import opened Regions
  import opened Tracker
  import opened Mmus
  import opened Books
  import opened Outcomes
  import opened AddressSpaces

  datatype Op =
    | Reserve(byteLen: nat)
    | Release(virt: VirtRange)
    | Commit(virt: VirtRange, flags: PageFlags, owner: nat)
    | Decommit(virt: VirtRange)
    | Protect(virt: VirtRange, flags: PageFlags)
    | Relocate(virt: VirtRange)
    | SwapOut(addr: nat, token: Token, bufferLen: nat)
    | SwapIn(addr: nat, buffer: seq<bv8>)
    | DecommitSubranges(virt: VirtRange)
    | EnsureAccessible(virt: VirtRange, flags: PageFlags, owner: nat)
    | Drain
    | MapDevice(virt: VirtRange, start: nat, bytes: nat, writable: bool, device: bool)
    | MapShared(virt: VirtRange, start: nat, bytes: nat, flags: PageFlags)
    | CommitContiguous(virt: VirtRange, flags: PageFlags, placement: DmaPlacement)
    | UnmapDevice(virt: VirtRange, shared: bool)
    | PrepareDemand(virt: VirtRange, flags: PageFlags)
    | CommitDemand(addr: nat, frame: Frame, flags: PageFlags)
    | EndDemand(virt: VirtRange, mapped: VirtRange)
    | Lend

  /** Mapping `i` is the one an unmap of `virt` drops. */
  ghost predicate Starts(ds: seq<DeviceMapping>, i: int, virt: VirtRange, shared: bool) {
    0 <= i < |ds| && ds[i].range.first * PAGE == virt.start && (shared ==> ds[i].backing.Shared?)
  }

  /** A call that is refused before it does anything asks nothing. */
  ghost predicate Ends(a: AddressSpace, virt: VirtRange, mapped: VirtRange)
    reads a.tracker
  {
    && Validate(virt).Ok? && virt.Encloses(mapped) && Encloses(a.tracker.Ranges(), virt.Paged())
    && forall p: PageNo :: virt.Paged().Has(p) ==> p in a.tracker.committed
  }

  ghost predicate Prepares(a: AddressSpace, virt: VirtRange, flags: PageFlags)
    reads a.tracker
  {
    Validate(virt).Ok? && Admitted(a.tracker.Ranges(), a.tracker.committed, virt.Paged(), flags)
  }

  /** What a call asks of its caller. */
  ghost predicate Duty(a: AddressSpace, op: Op)
    reads a, a.mmu, a.mmu.pt, a.tracker
  {
    match op
    case SwapOut(_, token, _) => token !in Live(a.tracker.swapped) && token !in a.orphans
    case Release(virt) => SweepClean(a.devices, 0, a.mmu.st, virt)
    case UnmapDevice(virt, shared) =>
      Validate(virt).Ok? ==> forall i {:trigger Starts(a.devices, i, virt, shared)} :: Starts(a.devices, i, virt, shared) ==> NoViews(a.devices, i, a.mmu.st)
    case MapDevice(virt, start, _, _, _) =>
      Validate(virt).Ok? ==> a.Unused(virt.Paged()) && Run(start / PAGE, virt.Paged().count) !! a.mmu.pool
    case MapShared(virt, start, _, _) =>
      Validate(virt).Ok? ==> a.Unused(virt.Paged()) && Run(start / PAGE, virt.Paged().count) <= a.mmu.st.pinned
    case CommitContiguous(virt, _, _) => Validate(virt).Ok? ==> a.Unused(virt.Paged())
    case PrepareDemand(virt, flags) =>
      Prepares(a, virt, flags) ==>
        forall p: PageNo :: virt.Paged().Has(p) ==> p !in a.tracker.swapped && p !in a.mmu.st.dev
    case CommitDemand(addr, frame, _) => UserPage(addr / PAGE) && frame in a.mmu.st.lent && addr / PAGE !in a.tracker.swapped
    case EndDemand(virt, mapped) =>
      Ends(a, virt, mapped) ==> OneRun(Hits(a.mmu.st.leaf, mapped.Stepped().first, mapped.Stepped().count))
    case _ => true
  }

  /** Every mapped committed page of the range comes before the first hole in
      the committed parts, taken in list order. */
  ghost predicate AllPiecesReached(leaf: Flat, c: Grants, range: Range, rs: seq<Range>) {
    forall p: PageNo :: range.Has(p) && p in c && Mapped(leaf, p) ==> Reached(leaf, rs, p)
  }

  /** What keeps every ordinary mapped page on the record, for the calls that
      do not always. */
  ghost predicate KeepsRecord(a: AddressSpace, op: Op)
    reads a, a.mmu, a.mmu.pt, a.tracker
  {
    match op
    case Decommit(virt) => Decommits(a, virt) ==> NoneAfterHole(a.mmu.st.leaf, virt.Paged())
    case DecommitSubranges(virt) =>
      Validate(virt).Ok? && Encloses(a.tracker.Ranges(), virt.Paged()) ==>
        AllPiecesReached(a.mmu.st.leaf, a.tracker.committed, virt.Paged(), a.tracker.Pieces(virt.Paged()))
    case CommitDemand(addr, _, flags) =>
      addr % PAGE == 0 && !flags.IsEmpty() && addr / PAGE in a.mmu.st.leaf && !a.mmu.st.leaf[addr / PAGE].Page? ==>
        addr / PAGE in a.tracker.committed
    case EndDemand(virt, mapped) =>
      Ends(a, virt, mapped) ==>
        forall p: PageNo :: virt.Paged().Has(p) && Mapped(a.mmu.st.leaf, p) ==> mapped.Stepped().Has(p)
    case _ => true
  }

  // ---- The duties, read off the code's own data

  method TokenInUse(a: AddressSpace, token: Token) returns (used: bool)
    requires a.Valid()
    ensures used <==> token in Live(a.tracker.swapped) || token in a.orphans
  {
    hide Core, Fresh, Agree, DeviceOk, Ledger, PageTable.Valid, Accounted;
    if token in a.orphans { return true; }
    var rs := a.tracker.reservations;
    for i := 0 to |rs|
      invariant forall k, j :: 0 <= k < i && 0 <= j < |rs[k].swapped| ==> rs[k].swapped[j].token != token
    {
      var entries := rs[i].swapped;
      for j := 0 to |entries|
        invariant forall l :: 0 <= l < j ==> entries[l].token != token
      {
        if entries[j].token == token {
          EntryLive(a.tracker, i, j);
          return true;
        }
      }
    }
    NoEntryNotLive(a.tracker, token);
    return false;
  }

  lemma EntryLive(t: ReservationTracker, i: nat, j: nat)
    requires t.Valid() && i < |t.reservations| && j < |t.reservations[i].swapped|
    ensures t.reservations[i].swapped[j].token in Live(t.swapped)
  {
    var res := t.reservations[i];
    assert Holds(res, t.committed, t.swapped);
    var e := res.swapped[j];
    assert e.page in t.swapped && t.swapped[e.page] == e;
  }

  /** Every entry on record is in the list of some reservation. */
  lemma EntryListed(t: ReservationTracker, p: PageNo) returns (i: nat, j: nat)
    requires t.Valid() && p in t.swapped
    ensures i < |t.reservations| && j < |t.reservations[i].swapped| && t.reservations[i].swapped[j] == t.swapped[p]
  {
    assert InSome(t.Ranges(), p);
    i :| 0 <= i < |t.Ranges()| && t.Ranges()[i].Has(p);
    var res := t.reservations[i];
    assert Holds(res, t.committed, t.swapped);
    assert HasEntry(res.swapped, p);
    j :| 0 <= j < |res.swapped| && res.swapped[j].page == p;
  }

  lemma NoEntryNotLive(t: ReservationTracker, token: Token)
    requires t.Valid()
    requires forall k, j :: 0 <= k < |t.reservations| && 0 <= j < |t.reservations[k].swapped| ==> t.reservations[k].swapped[j].token != token
    ensures token !in Live(t.swapped)
  {
    forall p | p in t.swapped ensures t.swapped[p].token != token {
      var _, _ := EntryListed(t, p);
    }
  }

  method NoneSwapped(a: AddressSpace, range: Range) returns (none: bool)
    requires a.Valid() && UserRange(range.first, range.count)
    ensures none <==> forall p: PageNo :: range.Has(p) ==> p !in a.tracker.swapped
  {
    hide AddressSpace.Valid;
    for i := 0 to range.count
      invariant forall p: PageNo :: range.first <= p < range.first + i ==> p !in a.tracker.swapped
    {
      var p: PageNo := range.first + i;
      Quotient(p * PAGE, PAGE, p);
      var token := a.SwappedToken(p * PAGE);
      if token.Some? {
        assert range.Has(p);
        return false;
      }
    }
    return true;
  }

  method RangeUnused(a: AddressSpace, range: Range) returns (unused: bool)
    requires a.Valid() && range.count > 0
    ensures unused <==> a.Unused(range)
  {
    var check := a.tracker.PrecheckCommit(range);
    if check.Err? { return false; }
    a.InWindow(range);
    hide AddressSpace.Valid;
    unused := NoneSwapped(a, range);
  }

  lemma PoolInMemory(a: AddressSpace)
    requires a.Valid()
    ensures a.mmu.mem.Keys == a.mmu.pool && a.mmu.lent == a.mmu.st.lent
  {
  }

  /** Some pinned run of the list holds frame `f`. */
  method FrameHeld(ds: seq<DeviceMapping>, f: Frame) returns (held: bool)
    ensures held <==> Held(ds, f)
  {
    for i := 0 to |ds|
      invariant forall j :: 0 <= j < i ==> !PinnedBy(ds[j], f)
    {
      if f in RunOf(ds[i]) {
        assert PinnedBy(ds[i], f);
        return true;
      }
    }
    return false;
  }

  lemma HeldIsPinned(ds: seq<DeviceMapping>, s: State, pool: set<Frame>, f: Frame)
    requires DeviceOk(ds, s, pool)
    ensures Held(ds, f) <==> f in s.pinned
  {
    if Held(ds, f) {
      var i :| 0 <= i < |ds| && PinnedBy(ds[i], f);
      assert MappingOk(ds[i], s, pool);
    }
  }

  method RunPinned(a: AddressSpace, frame: Frame, n: nat) returns (pinned: bool)
    requires a.Valid()
    ensures pinned <==> Run(frame, n) <= a.mmu.st.pinned
  {
    hide Core, Fresh, Agree, DeviceOk, Ledger, PageTable.Valid, ReservationTracker.Valid, Accounted;
    for i := 0 to n
      invariant forall f: Frame :: frame <= f < frame + i ==> f in a.mmu.st.pinned
    {
      HeldIsPinned(a.devices, a.mmu.st, a.mmu.pool, frame + i);
      var held := FrameHeld(a.devices, frame + i);
      if !held {
        assert frame + i in Run(frame, n);
        return false;
      }
    }
    return true;
  }

  ghost predicate InUserHalf(ds: seq<DeviceMapping>) {
    forall i :: 0 <= i < |ds| ==> UserRange(ds[i].range.first, ds[i].range.count)
  }

  lemma DevicesInUserHalf(a: AddressSpace)
    requires a.Valid()
    ensures InUserHalf(a.devices)
  {
    forall i | 0 <= i < |a.devices| ensures UserRange(a.devices[i].range.first, a.devices[i].range.count) {
      assert MappingOk(a.devices[i], a.mmu.st, a.mmu.pool);
    }
  }

  method ViewedBy(a: AddressSpace, ds: seq<DeviceMapping>, i: nat, j: nat) returns (seen: bool)
    requires a.Valid() && i < |ds| && j < |ds| && InUserHalf(ds) && ds[j].backing.Shared?
    ensures seen <==> exists p: PageNo :: Views(ds, i, a.mmu.st, j, p)
  {
    hide Core, Fresh, Agree, DeviceOk, Ledger, PageTable.Valid, ReservationTracker.Valid, Accounted, RunOf;
    var range := ds[j].range;
    for k := 0 to range.count
      invariant forall p: PageNo :: p < range.first + k ==> !Views(ds, i, a.mmu.st, j, p)
    {
      var p: PageNo := range.first + k;
      var entry := a.mmu.pt.Translate4k(p);
      if entry.Some? && entry.value.frame in RunOf(ds[i]) {
        assert Views(ds, i, a.mmu.st, j, p);
        return true;
      }
    }
    return false;
  }

  /** Some shared view names a frame of mapping `i`'s pinned run. */
  method Viewed(a: AddressSpace, ds: seq<DeviceMapping>, i: nat) returns (seen: bool)
    requires a.Valid() && i < |ds| && InUserHalf(ds)
    ensures seen <==> !NoViews(ds, i, a.mmu.st)
  {
    hide AddressSpace.Valid, InUserHalf;
    for j := 0 to |ds|
      invariant forall k, p: PageNo {:trigger Views(ds, i, a.mmu.st, k, p)} :: k < j ==> !Views(ds, i, a.mmu.st, k, p)
    {
      if ds[j].backing.Shared? {
        var hit := ViewedBy(a, ds, i, j);
        if hit { return true; }
      }
    }
    return false;
  }

  method SweepIsClean(a: AddressSpace, virt: VirtRange) returns (clean: bool)
    requires a.Valid()
    ensures clean <==> SweepClean(a.devices, 0, a.mmu.st, virt)
  {
    hide AddressSpace.Valid, NoViews, Covers;
    DevicesInUserHalf(a);
    var ds, index := a.devices, 0;
    while index < |ds|
      invariant index <= |ds| && InUserHalf(ds)
      invariant SweepClean(ds, index, a.mmu.st, virt) <==> SweepClean(a.devices, 0, a.mmu.st, virt)
      decreases |ds| - index
    {
      if !Covers(virt, ds[index].range) {
        index := index + 1;
      } else {
        var seen := Viewed(a, ds, index);
        if seen { return false; }
        ds := SwapRemove(ds, index);
      }
    }
    return true;
  }

  /** Some batch of the mapped pages has a gap. */
  method HasGap(a: AddressSpace, first: PageNo, n: nat) returns (gap: bool)
    requires a.Valid() && UserRange(first, n)
    ensures gap <==> !OneRun(Hits(a.mmu.st.leaf, first, n))
  {
    hide Core, Fresh, Agree, DeviceOk, Ledger, PageTable.Valid, ReservationTracker.Valid, Accounted, OneRun;
    NoHitsYet();
    var count, last: PageNo := 0, 0;
    gap := false;
    for i := 0 to n
      invariant var hits := Hits(a.mmu.st.leaf, first, i);
                count == |hits| && (count > 0 ==> last == hits[count - 1]) && (gap <==> !OneRun(hits))
    {
      ghost var hits := Hits(a.mmu.st.leaf, first, i);
      var p: PageNo := first + i;
      var entry := a.mmu.pt.Translate4k(p);
      assert Hits(a.mmu.st.leaf, first, i + 1) == if entry.Some? then hits + [p] else hits;
      if entry.Some? {
        GapStep(hits, p);
        gap := gap || (count % BATCH != 0 && p != last + 1);
        count, last := count + 1, p;
      }
    }
  }

  lemma NoHitsYet()
    ensures OneRun([])
  {
  }

  lemma GapStep(hits: seq<PageNo>, p: PageNo)
    ensures OneRun(hits + [p]) <==> OneRun(hits) && (|hits| % BATCH != 0 ==> p == hits[|hits| - 1] + 1)
  {
    var more, n := hits + [p], |hits|;
    if OneRun(more) {
      forall k | 0 < k < n && k % BATCH != 0 ensures hits[k] == hits[k - 1] + 1 {
        assert more[k] == more[k - 1] + 1;
      }
      assert n % BATCH != 0 ==> more[n] == more[n - 1] + 1;
    }
  }

  // ---- Steps

  /** What every call carries over, made or skipped. */
  twostate predicate Carried(a: AddressSpace)
    reads a, a.mmu, a.mmu.pt, a.tracker
  {
    && a.Valid() && Grows(old(a.mmu.st), a.mmu.st) && old(a.settled) <= a.settled && a.issued == old(a.issued)
  }

  /** The ordinary mapped pages are still all on the record. */
  twostate predicate Tallied(a: AddressSpace)
    reads a, a.mmu, a.tracker
  {
    OnRecord(old(a.mmu.st), old(a.tracker.committed)) ==> OnRecord(a.mmu.st, a.tracker.committed)
  }

  lemma DevicePagesListed(ds: seq<DeviceMapping>, s: State, t: State, pool: set<Frame>)
    requires DeviceOk(ds, s, pool) && DeviceOk(ds, t, pool)
    ensures s.dev == t.dev
  {
    forall p: PageNo ensures p in s.dev <==> p in t.dev {
      assert p in s.dev ==> Listed(ds, p);
      assert p in t.dev ==> Listed(ds, p);
      if Listed(ds, p) {
        var i :| 0 <= i < |ds| && ds[i].range.Has(p);
        assert MappingOk(ds[i], s, pool) && MappingOk(ds[i], t, pool);
      }
    }
  }

  twostate lemma SameDevices(a: AddressSpace)
    requires old(a.Valid()) && a.Valid() && a.devices == old(a.devices)
    ensures a.mmu.st.dev == old(a.mmu.st).dev
  {
    DevicePagesListed(a.devices, old(a.mmu.st), a.mmu.st, a.mmu.pool);
  }

  lemma MappedKeeps(s0: State, s: State, range: Range, frame: Frame, attrs: Attrs, c: Grants)
    requires RunMapped(s0, s, range, frame, attrs)
    ensures Grows(s0, s) && (OnRecord(s0, c) ==> OnRecord(s, c))
  {
    forall p: PageNo | Mapped(s.leaf, p) && p !in s.dev ensures Mapped(s0.leaf, p) && p !in s0.dev {
      assert At(s.leaf, p) == At(s0.leaf, p);
    }
  }

  lemma LeftAlone(s0: State, s: State, c: Grants)
    requires Untouched(s0, s)
    ensures Grows(s0, s) && (OnRecord(s0, c) ==> OnRecord(s, c))
  {
    forall p: PageNo | Mapped(s.leaf, p) ensures Mapped(s0.leaf, p) { assert At(s.leaf, p) == At(s0.leaf, p); }
  }

  lemma GoneKeeps(s0: State, s: State, m: DeviceMapping, c: Grants)
    requires DeviceGone(s0, s, m)
    ensures Grows(s0, s) && (OnRecord(s0, c) ==> OnRecord(s, c))
  {
  }

  lemma ReleaseKeeps(s0: State, s: State, c: Grants, c': Grants, sw: Swaps, range: Range)
    requires forall p: PageNo :: range.Has(p) && (p in c || p in sw) ==> !At(s.leaf, p).Page?
    requires forall p: PageNo :: p !in c && p !in sw && p !in s0.dev ==> At(s.leaf, p) == At(s0.leaf, p)
    requires forall p: PageNo :: p in s0.dev && p !in s.dev ==> At(s.leaf, p) == Absent
    requires forall p: PageNo :: p in sw && !range.Has(p) ==> !At(s.leaf, p).Page?
    requires c' == Minus(c, range)
    ensures OnRecord(s0, c) ==> OnRecord(s, c')
  {
    if OnRecord(s0, c) {
      forall p: PageNo | Mapped(s.leaf, p) && p !in s.dev ensures p in c' {
        assert At(s.leaf, p).Page?;
        assert p !in c && p !in sw && p !in s0.dev ==> Mapped(s0.leaf, p);
      }
    }
  }

  lemma SweptTally(s0: State, s: State, c: Grants)
    requires Swept(s0, s)
    ensures OnRecord(s0, c) ==> OnRecord(s, c)
  {
    forall p: PageNo | Mapped(s.leaf, p) && p !in s.dev ensures Mapped(s0.leaf, p) && p !in s0.dev {
      assert At(s.leaf, p).Page?;
    }
  }

  lemma SwappedNotMapped(a: AddressSpace)
    requires a.Valid()
    ensures forall p: PageNo :: p in a.tracker.swapped ==> !At(a.mmu.st.leaf, p).Page?
  {
  }

  lemma PinKeepsLeaf(s: State, run: set<Frame>)
    ensures Pin(s, run).leaf == s.leaf && Pin(s, run).dev == s.dev
  {
  }

  method TrySwapOut(a: AddressSpace, addr: nat, token: Token, bufferLen: nat) returns (made: bool)
    requires a.Valid()
    modifies a, a.mmu, a.mmu.pt, a.mmu.log, a.tracker
    ensures a.Valid() && Grows(old(a.mmu.st), a.mmu.st) && old(a.settled) <= a.settled
    ensures a.issued == old(a.issued) || a.issued == old(a.issued) + multiset{token}
    ensures Tallied(a)
    ensures made <==> old(Duty(a, SwapOut(addr, token, bufferLen)))
  {
    hide AddressSpace.Valid;
    var used := TokenInUse(a, token);
    if used { return false; }
    var r, _ := a.SwapOutPage(addr, token, bufferLen);
    SameDevices(a);
    return true;
  }

  method TryRelease(a: AddressSpace, virt: VirtRange) returns (made: bool)
    requires a.Valid()
    modifies a, a.mmu, a.mmu.pt, a.mmu.log, a.tracker
    ensures Carried(a) && Tallied(a) && (made <==> old(Duty(a, Release(virt))))
  {
    hide AddressSpace.Valid, SweepClean;
    made := SweepIsClean(a, virt);
    if made {
      ghost var s0, c, sw := a.mmu.st, a.tracker.committed, a.tracker.swapped;
      var r := a.Release(virt);
      SwappedNotMapped(a);
      if r.Ok? { ReleaseKeeps(s0, a.mmu.st, c, a.tracker.committed, sw, virt.Paged()); } else { SweptTally(s0, a.mmu.st, c); }
    }
  }

  method TryMapDevice(a: AddressSpace, virt: VirtRange, start: nat, bytes: nat, writable: bool, device: bool) returns (made: bool)
    requires a.Valid()
    modifies a, a.mmu, a.mmu.pt, a.mmu.log, a.tracker
    ensures Carried(a) && Tallied(a) && (made <==> old(Duty(a, MapDevice(virt, start, bytes, writable, device))))
  {
    hide AddressSpace.Valid, AddressSpace.Unused, RunMapped, Untouched;
    var range := virt.Paged();
    if Validate(virt).Ok? {
      PoolInMemory(a);
      var unused := RangeUnused(a, range);
      if !unused || !(Run(start / PAGE, range.count) !! a.mmu.mem.Keys) { return false; }
    }
    ghost var s0 := a.mmu.st;
    var r := a.MapDevice(virt, start, bytes, writable, device);
    if r.Ok? { MappedKeeps(s0, a.mmu.st, range, start / PAGE, DeviceAttrs(writable, device), a.tracker.committed); } else { LeftAlone(s0, a.mmu.st, a.tracker.committed); }
    return true;
  }

  method TryMapShared(a: AddressSpace, virt: VirtRange, start: nat, bytes: nat, flags: PageFlags) returns (made: bool)
    requires a.Valid()
    modifies a, a.mmu, a.mmu.pt, a.mmu.log, a.tracker
    ensures Carried(a) && Tallied(a) && (made <==> old(Duty(a, MapShared(virt, start, bytes, flags))))
  {
    hide AddressSpace.Valid, AddressSpace.Unused, RunMapped, Untouched;
    var range := virt.Paged();
    if Validate(virt).Ok? {
      var unused := RangeUnused(a, range);
      var pinned := RunPinned(a, start / PAGE, range.count);
      if !unused || !pinned { return false; }
    }
    ghost var s0 := a.mmu.st;
    var r := a.MapShared(virt, start, bytes, flags);
    if r.Ok? { MappedKeeps(s0, a.mmu.st, range, start / PAGE, AttrsOf(flags), a.tracker.committed); } else { LeftAlone(s0, a.mmu.st, a.tracker.committed); }
    return true;
  }

  method TryCommitContiguous(a: AddressSpace, virt: VirtRange, flags: PageFlags, placement: DmaPlacement) returns (made: bool)
    requires a.Valid()
    modifies a, a.mmu, a.mmu.pt, a.mmu.log, a.tracker
    ensures Carried(a) && Tallied(a) && (made <==> old(Duty(a, CommitContiguous(virt, flags, placement))))
  {
    hide AddressSpace.Valid, AddressSpace.Unused, RunMapped, Untouched, Pin;
    var range := virt.Paged();
    if Validate(virt).Ok? {
      var unused := RangeUnused(a, range);
      if !unused { return false; }
    }
    ghost var s0 := a.mmu.st;
    var r := a.CommitContiguous(virt, flags, placement);
    if r.Ok? {
      ghost var run := Run(r.value, range.count);
      PinKeepsLeaf(s0, run);
      MappedKeeps(Pin(s0, run), a.mmu.st, range, r.value, AttrsOf(flags), a.tracker.committed);
    } else {
      LeftAlone(s0, a.mmu.st, a.tracker.committed);
    }
    return true;
  }

  /** At most one mapping starts at an address. */
  lemma DistinctStarts(ds: seq<DeviceMapping>, s: State, pool: set<Frame>)
    requires DeviceOk(ds, s, pool)
    ensures forall i, j :: 0 <= i < j < |ds| ==> ds[i].range.first != ds[j].range.first
  {
    forall i, j | 0 <= i < j < |ds| ensures ds[i].range.first != ds[j].range.first {
      assert MappingOk(ds[i], s, pool) && MappingOk(ds[j], s, pool) && Separate(ds[i], ds[j]);
    }
  }

  method TryUnmapDevice(a: AddressSpace, virt: VirtRange, shared: bool) returns (made: bool)
    requires a.Valid()
    modifies a, a.mmu, a.mmu.pt, a.mmu.log, a.tracker
    ensures Carried(a) && Tallied(a) && (made <==> old(Duty(a, UnmapDevice(virt, shared))))
  {
    hide Core, Fresh, Agree, DeviceOk, Ledger, PageTable.Valid, ReservationTracker.Valid, Accounted, NoViews, DeviceGone;
    var at: Option<nat> := None;
    if Validate(virt).Ok? {
      at := AddressSpace.FindDevice(a.devices, virt.start / PAGE, shared);
      if at.Some? {
        DevicesInUserHalf(a);
        var seen := Viewed(a, a.devices, at.value);
        assert Starts(a.devices, at.value, virt, shared);
        if seen { return false; }
        DistinctStarts(a.devices, a.mmu.st, a.mmu.pool);
      }
    }
    ghost var s0, ds := a.mmu.st, a.devices;
    var r := a.UnmapDevice(virt, shared);
    if r.Ok? {
      ghost var i :| 0 <= i < |ds| && Starts(ds, i, virt, shared) && DeviceGone(s0, a.mmu.st, ds[i]) && (a.Valid() <==> NoViews(ds, i, s0));
      GoneKeeps(s0, a.mmu.st, ds[i], a.tracker.committed);
    }
    return true;
  }

  method TryPrepare(a: AddressSpace, virt: VirtRange, flags: PageFlags) returns (made: bool, r: Result<Unit>)
    requires a.Valid()
    modifies a, a.mmu, a.mmu.pt, a.mmu.log, a.tracker
    ensures made && r.Ok? ==> forall p: PageNo :: virt.Paged().Has(p) ==> p in a.mmu.st.leaf
    ensures made ==> (r.Ok? <==> old(Prepares(a, virt, flags)))
    ensures Carried(a) && Tallied(a) && (made <==> old(Duty(a, PrepareDemand(virt, flags))))
  {
    hide Core, Fresh, Agree, DeviceOk, Ledger, PageTable.Valid, ReservationTracker.Valid, Accounted;
    var range := virt.Paged();
    if Validate(virt).Ok? && !flags.IsEmpty() {
      var check := a.tracker.PrecheckCommit(range);
      if check.Ok? {
        a.InWindow(range);
        var none := NoneSwapped(a, range);
        var claimed := AddressSpace.AnyOverlaps(a.devices, range);
        ClaimedIsDevice(a.devices, a.mmu.st, a.mmu.pool, range);
        if !none || claimed { return false, Ok(Unit); }
      }
    }
    made := true;
    ghost var s0 := a.mmu.st;
    r := a.PrepareDemandCommit(virt, flags);
    assert forall p: PageNo :: Mapped(a.mmu.st.leaf, p) ==> At(s0.leaf, p).Page? by {
      forall p: PageNo | Mapped(a.mmu.st.leaf, p) ensures At(s0.leaf, p).Page? { assert At(a.mmu.st.leaf, p) == At(s0.leaf, p); }
    }
  }

  lemma ClaimedIsDevice(ds: seq<DeviceMapping>, s: State, pool: set<Frame>, range: Range)
    requires DeviceOk(ds, s, pool) && range.count > 0
    ensures Claimed(ds, range) <==> exists p: PageNo :: range.Has(p) && p in s.dev
  {
    if Claimed(ds, range) {
      var i :| 0 <= i < |ds| && ds[i].range.Overlaps(range);
      assert MappingOk(ds[i], s, pool);
      var p := if ds[i].range.first < range.first then range.first else ds[i].range.first;
      assert ds[i].range.Has(p) && range.Has(p);
    }
    if p: PageNo :| range.Has(p) && p in s.dev {
      assert Listed(ds, p);
      var i :| 0 <= i < |ds| && ds[i].range.Has(p);
      assert ds[i].range.Overlaps(range);
    }
  }

  method TryCommitDemand(a: AddressSpace, addr: nat, frame: Frame, flags: PageFlags) returns (made: bool, r: Result<Unit>)
    requires a.Valid()
    modifies a.mmu, a.mmu.pt
    ensures made && addr / PAGE in old(a.mmu.st).leaf ==> r != Err(NotDemandCommit)
    ensures Carried(a) && (made <==> old(Duty(a, CommitDemand(addr, frame, flags))))
    ensures OnRecord(old(a.mmu.st), a.tracker.committed) ==>
              (OnRecord(a.mmu.st, a.tracker.committed) <==> !made || old(KeepsRecord(a, CommitDemand(addr, frame, flags))))
  {
    hide AddressSpace.Valid;
    PoolInMemory(a);
    if !UserPage(addr / PAGE) || frame !in a.mmu.lent { return false, Ok(Unit); }
    var token := a.SwappedToken(addr);
    if token.Some? { return false, Ok(Unit); }
    made := true;
    ghost var s0 := a.mmu.st;
    DevicesMapped(a);
    r := a.CommitDemandPage(addr, frame, flags);
    if r.Ok? && OnRecord(s0, a.tracker.committed) {
      LentOnRecord(s0, a.mmu.st, a.tracker.committed, addr / PAGE, frame, AttrsOf(flags));
    }
  }

  method TryEndDemand(a: AddressSpace, virt: VirtRange, mapped: VirtRange) returns (made: bool)
    requires a.Valid()
    modifies a, a.mmu, a.mmu.pt, a.mmu.log, a.tracker
    ensures Carried(a) && (made <==> old(Duty(a, EndDemand(virt, mapped))))
    ensures OnRecord(old(a.mmu.st), old(a.tracker.committed)) ==>
              (OnRecord(a.mmu.st, a.tracker.committed) <==> !made || old(KeepsRecord(a, EndDemand(virt, mapped))))
  {
    hide Core, Fresh, Agree, DeviceOk, Ledger, PageTable.Valid, ReservationTracker.Valid, Accounted, OneRun, Hits;
    if Validate(virt).Ok? && virt.Encloses(mapped) {
      var range, inner := virt.Paged(), mapped.Stepped();
      var check := a.tracker.EnsureCommitted(range);
      if check.Ok? {
        a.InWindow(range);
        SteppedInside(virt, mapped);
        var gap := HasGap(a, inner.first, inner.count);
        if gap { return false; }
      }
    }
    ghost var s0, c, ends := a.mmu.st, a.tracker.committed, Ends(a, virt, mapped);
    GrantedApart(a);
    var r := a.EndDemandCommit(virt, mapped);
    if ends && OnRecord(s0, c) { EndedOnRecord(s0, a.mmu.st, c, virt.Paged(), mapped.Stepped()); }
    return true;
  }

  // ---- The calls that ask nothing of their caller

  method DoReserve(a: AddressSpace, byteLen: nat)
    requires a.Valid()
    modifies a, a.mmu, a.mmu.pt, a.mmu.log, a.tracker
    ensures Carried(a) && Tallied(a)
  {
    hide AddressSpace.Valid;
    var r := a.Reserve(byteLen);
  }

  method DoCommit(a: AddressSpace, virt: VirtRange, flags: PageFlags, owner: nat)
    requires a.Valid()
    modifies a, a.mmu, a.mmu.pt, a.mmu.log, a.tracker
    ensures Carried(a) && Tallied(a)
  {
    hide AddressSpace.Valid, KeepsBytes;
    ghost var s0 := a.mmu.st;
    var r := a.Commit(virt, flags, owner);
    SameDevices(a);
    assert forall p: PageNo :: Mapped(a.mmu.st.leaf, p) && p !in a.tracker.committed ==> At(a.mmu.st.leaf, p) == At(s0.leaf, p);
  }

  method DoProtect(a: AddressSpace, virt: VirtRange, flags: PageFlags)
    requires a.Valid()
    modifies a, a.mmu, a.mmu.pt, a.mmu.log, a.tracker
    ensures Carried(a) && Tallied(a)
  {
    hide AddressSpace.Valid;
    var r := a.Protect(virt, flags);
    SameDevices(a);
  }

  method DoRelocate(a: AddressSpace, virt: VirtRange)
    requires a.Valid()
    modifies a, a.mmu, a.mmu.pt, a.mmu.log, a.tracker
    ensures Carried(a) && Tallied(a)
  {
    hide AddressSpace.Valid, KeepsBytes;
    ghost var s0 := a.mmu.st;
    var r := a.Relocate(virt);
    SameDevices(a);
    assert forall p: PageNo :: Mapped(a.mmu.st.leaf, p) ==> At(s0.leaf, p).Page? by {
      if r.Ok? { StillMapped(s0, a.mmu.st, virt.Paged().first, virt.Paged().count); }
    }
  }

  lemma StillMapped(s0: State, s: State, first: PageNo, n: nat)
    requires Relocated(s0, s, first, n)
    ensures forall p: PageNo :: Mapped(s.leaf, p) ==> At(s0.leaf, p).Page?
  {
    forall p: PageNo | Mapped(s.leaf, p) ensures At(s0.leaf, p).Page? {
      assert At(s.leaf, p).Page?;
    }
  }

  method DoSwapIn(a: AddressSpace, addr: nat, buffer: seq<bv8>)
    requires a.Valid()
    modifies a, a.mmu, a.mmu.pt, a.mmu.log, a.tracker
    ensures Carried(a) && Tallied(a)
  {
    hide AddressSpace.Valid;
    ghost var s0 := a.mmu.st;
    var r := a.SwapInPage(addr, buffer);
    SameDevices(a);
    assert forall p: PageNo :: Mapped(a.mmu.st.leaf, p) && p !in a.tracker.committed ==> At(a.mmu.st.leaf, p) == At(s0.leaf, p);
  }

  method DoEnsureAccessible(a: AddressSpace, virt: VirtRange, flags: PageFlags, owner: nat)
    requires a.Valid()
    modifies a, a.mmu, a.mmu.pt, a.mmu.log, a.tracker
    ensures Carried(a) && Tallied(a)
  {
    hide AddressSpace.Valid, AccessRefused, KeepsBytes;
    ghost var s0, c := a.mmu.st, a.tracker.committed;
    var r, done := a.EnsureAccessibleSubranges(virt, flags, owner);
    SameDevices(a);
    forall p: PageNo | Mapped(a.mmu.st.leaf, p) && p !in a.tracker.committed ensures Mapped(s0.leaf, p) && p !in c {
      assert p !in done && LeftAsIs(s0, a.mmu.st, c, a.tracker.committed, p);
    }
  }

  method DoDrain(a: AddressSpace)
    requires a.Valid()
    modifies a, a.mmu, a.mmu.pt, a.mmu.log, a.tracker
    ensures Carried(a) && Tallied(a)
  {
    hide AddressSpace.Valid;
    var drained := a.DrainOrphanedSwapTokens();
  }

  method DoLend(a: AddressSpace)
    requires a.Valid()
    modifies a, a.mmu, a.mmu.pt, a.mmu.log, a.tracker
    ensures Carried(a) && Tallied(a)
  {
    hide AddressSpace.Valid;
    var frame := a.Lend();
  }

  ghost predicate Decommits(a: AddressSpace, virt: VirtRange)
    reads a.tracker
  {
    && Validate(virt).Ok? && Encloses(a.tracker.Ranges(), virt.Paged())
    && forall p: PageNo :: virt.Paged().Has(p) ==> p in a.tracker.committed
  }

  /** No mapped page comes after a hole. */
  ghost predicate NoneAfterHole(leaf: Flat, range: Range) {
    forall p: PageNo :: range.Has(p) && Mapped(leaf, p) ==> MappedUpTo(leaf, range, p)
  }

  method DoDecommit(a: AddressSpace, virt: VirtRange)
    requires a.Valid()
    modifies a, a.mmu, a.mmu.pt, a.mmu.log, a.tracker
    ensures Carried(a)
    ensures OnRecord(old(a.mmu.st), old(a.tracker.committed)) ==>
              (OnRecord(a.mmu.st, a.tracker.committed) <==> (old(Decommits(a, virt)) ==> NoneAfterHole(old(a.mmu.st).leaf, virt.Paged())))
  {
    hide AddressSpace.Valid, KeepsBytes, Encloses;
    ghost var s0, c := a.mmu.st, a.tracker.committed;
    ghost var decommits := Decommits(a, virt);
    GrantedApart(a);
    var r := a.Decommit(virt);
    SameDevices(a);
    if decommits && OnRecord(s0, c) { HolesShow(s0, a.mmu.st, c, virt.Paged()); }
  }

  lemma HolesShow(s0: State, s: State, c: Grants, range: Range)
    requires OnRecord(s0, c) && StoppedAtHole(s0.leaf, s.leaf, range) && s.dev == s0.dev
    requires forall p: PageNo :: range.Has(p) ==> p !in s0.dev
    ensures OnRecord(s, Minus(c, range)) <==> NoneAfterHole(s0.leaf, range)
  {
    if OnRecord(s, Minus(c, range)) {
      forall p: PageNo | range.Has(p) && Mapped(s0.leaf, p) ensures MappedUpTo(s0.leaf, range, p) {
        assert At(s.leaf, p).Page? ==> Mapped(s.leaf, p);
      }
    } else {
      var p: PageNo :| Mapped(s.leaf, p) && p !in s.dev && p !in Minus(c, range);
      assert At(s.leaf, p) == At(s0.leaf, p) && range.Has(p);
    }
  }

  method DoDecommitSubranges(a: AddressSpace, virt: VirtRange)
    requires a.Valid()
    modifies a, a.mmu, a.mmu.pt, a.mmu.log, a.tracker
    ensures Carried(a)
    ensures OnRecord(old(a.mmu.st), old(a.tracker.committed)) ==>
              (OnRecord(a.mmu.st, a.tracker.committed) <==> old(KeepsRecord(a, DecommitSubranges(virt))))
  {
    hide AddressSpace.Valid, Encloses, Emptied, SweptOut, Lists, Reached;
    ghost var s0, c, sw, rs := a.mmu.st, a.tracker.committed, a.tracker.swapped, a.tracker.Pieces(virt.Paged());
    ghost var admitted := Validate(virt).Ok? && Encloses(a.tracker.Ranges(), virt.Paged());
    GrantedApart(a);
    var r := a.DecommitCommittedSubranges(virt);
    SameDevices(a);
    if admitted && OnRecord(s0, c) { PiecesShow(s0, a.mmu.st, c, sw, virt.Paged(), rs); }
  }

  lemma PiecesShow(s0: State, s: State, c: Grants, sw: Swaps, range: Range, rs: seq<Range>)
    requires OnRecord(s0, c) && s.dev == s0.dev && SweptOut(s0.leaf, s.leaf, sw, range, rs)
    requires Lists(rs, Keys(c, range)) && c.Keys !! sw.Keys && forall p :: p in c ==> p !in s0.dev
    ensures OnRecord(s, Minus(c, range)) <==> AllPiecesReached(s0.leaf, c, range, rs)
  {
    forall p: PageNo | Reached(s0.leaf, rs, p) ensures p in c && range.Has(p) {
      var i :| 0 <= i < |rs| && ReachedIn(s0.leaf, rs, i, p);
      assert rs[i].Has(p);
    }
    hide Reached, Lists;
    if OnRecord(s, Minus(c, range)) {
      forall p: PageNo | range.Has(p) && p in c && Mapped(s0.leaf, p) ensures Reached(s0.leaf, rs, p) {
        assert Mapped(s.leaf, p) ==> p in Minus(c, range);
      }
    }
  }

  lemma GrantedApart(a: AddressSpace)
    requires a.Valid()
    ensures a.tracker.committed.Keys !! a.tracker.swapped.Keys
    ensures forall p :: p in a.tracker.committed ==> p !in a.mmu.st.dev
  {
    forall p | p in a.tracker.committed ensures p !in a.mmu.st.dev {
      assert GrantOk(a.mmu.st, a.demand, p, a.tracker.committed[p]);
    }
  }

  lemma DevicesMapped(a: AddressSpace)
    requires a.Valid()
    ensures forall p :: p in a.mmu.st.dev ==> Mapped(a.mmu.st.leaf, p)
  {
  }

  lemma LentOnRecord(s0: State, s: State, c: Grants, p: PageNo, f: Frame, attrs: Attrs)
    requires s == MapLent(s0, p, f, attrs) && p !in s0.dev && OnRecord(s0, c)
    ensures OnRecord(s, c) <==> p in c
  {
    assert Mapped(s.leaf, p);
    forall q: PageNo | Mapped(s.leaf, q) && q != p ensures Mapped(s0.leaf, q) {}
  }

  lemma EndedOnRecord(s0: State, s: State, c: Grants, range: Range, inner: Range)
    requires OnRecord(s0, c) && s.leaf == Gone(s0.leaf, inner.first, inner.count) && s.dev == s0.dev
    requires forall p: PageNo :: range.Has(p) ==> p !in s0.dev
    ensures OnRecord(s, Minus(c, range)) <==> forall p: PageNo :: range.Has(p) && Mapped(s0.leaf, p) ==> inner.Has(p)
  {
    forall p: PageNo ensures Mapped(s.leaf, p) <==> Mapped(s0.leaf, p) && !inner.Has(p) {}
    if OnRecord(s, Minus(c, range)) {
      forall p: PageNo | range.Has(p) && Mapped(s0.leaf, p) ensures inner.Has(p) {
        assert Mapped(s.leaf, p) ==> p in Minus(c, range);
      }
    }
  }

  /** One call, made exactly when its duty is met. */
  method Step(a: AddressSpace, op: Op) returns (made: bool)
    requires a.Valid()
    modifies a, a.mmu, a.mmu.pt, a.mmu.log, a.tracker
    ensures a.Valid() && Grows(old(a.mmu.st), a.mmu.st) && old(a.settled) <= a.settled
    ensures a.issued == old(a.issued) || (op.SwapOut? && a.issued == old(a.issued) + multiset{op.token})
    ensures made <==> old(Duty(a, op))
    ensures OnRecord(old(a.mmu.st), old(a.tracker.committed)) ==>
              (OnRecord(a.mmu.st, a.tracker.committed) <==> !made || old(KeepsRecord(a, op)))
  {
    hide AddressSpace.Valid, Grows, SweepClean, OneRun, Hits, NoViews, Admitted, Ends, AddressSpace.Unused, OnRecord, Decommits, NoneAfterHole, AllPiecesReached, ReservationTracker.Pieces, Encloses;
    made := true;
    var outcome;
    match op {
      case Reserve(byteLen) => DoReserve(a, byteLen);
      case Release(virt) => made := TryRelease(a, virt);
      case Commit(virt, flags, owner) => DoCommit(a, virt, flags, owner);
      case Decommit(virt) => DoDecommit(a, virt);
      case Protect(virt, flags) => DoProtect(a, virt, flags);
      case Relocate(virt) => DoRelocate(a, virt);
      case SwapOut(addr, token, bufferLen) => made := TrySwapOut(a, addr, token, bufferLen);
      case SwapIn(addr, buffer) => DoSwapIn(a, addr, buffer);
      case DecommitSubranges(virt) => DoDecommitSubranges(a, virt);
      case EnsureAccessible(virt, flags, owner) => DoEnsureAccessible(a, virt, flags, owner);
      case Drain => DoDrain(a);
      case MapDevice(virt, start, bytes, writable, device) => made := TryMapDevice(a, virt, start, bytes, writable, device);
      case MapShared(virt, start, bytes, flags) => made := TryMapShared(a, virt, start, bytes, flags);
      case CommitContiguous(virt, flags, placement) => made := TryCommitContiguous(a, virt, flags, placement);
      case UnmapDevice(virt, shared) => made := TryUnmapDevice(a, virt, shared);
      case PrepareDemand(virt, flags) => made, outcome := TryPrepare(a, virt, flags);
      case CommitDemand(addr, frame, flags) => made, outcome := TryCommitDemand(a, addr, frame, flags);
      case EndDemand(virt, mapped) => made := TryEndDemand(a, virt, mapped);
      case Lend => DoLend(a);
    }
  }

  // ---- Runs

  /** Every swap-out of the run brings a token never used before. */
  ghost predicate FreshTokens(ops: seq<Op>, issued: multiset<Token>) {
    && (forall i :: 0 <= i < |ops| && ops[i].SwapOut? ==> ops[i].token !in issued)
    && (forall i, j :: 0 <= i < j < |ops| && ops[i].SwapOut? && ops[j].SwapOut? ==> ops[i].token != ops[j].token)
  }

  lemma FreshTokensStep(ops: seq<Op>, issued: multiset<Token>)
    requires FreshTokens(ops, issued) && ops != []
    ensures ops[0].SwapOut? ==> ops[0].token !in issued && FreshTokens(ops[1..], issued + multiset{ops[0].token})
    ensures FreshTokens(ops[1..], issued)
  {
  }

  /** Any run of calls, succeeding or failing: every frame is in exactly one
      place, no frame was given back under a live translation, page table,
      record, device list and swap tokens agree, and every page that could be
      walked to still can. If no token was handed out twice, every one of them
      is in exactly one place. */
  method Execute(a: AddressSpace, ops: seq<Op>)
    requires a.Valid()
    modifies a, a.mmu, a.mmu.pt, a.mmu.log, a.tracker
    ensures a.Valid() && Grows(old(a.mmu.st), a.mmu.st)
    ensures Partition(a.mmu.st, a.mmu.pool) && Homes(a.mmu.st, a.mmu.pool) && a.mmu.st.limbo == {}
    ensures !a.mmu.st.tainted && Fresh(a.mmu.st)
    ensures SwapAgree(a.mmu.st.leaf, a.tracker.swapped) && Ledger(a.tracker.swapped, a.orphans, a.issued, a.settled)
    ensures DeviceOk(a.devices, a.mmu.st, a.mmu.pool)
    ensures old(a.settled) <= a.settled
    ensures Once(old(a.issued)) && FreshTokens(ops, old(a.issued)) ==>
              forall t :: t in a.issued ==> InOnePlace(t, a.tracker.swapped, a.orphans, a.settled)
  {
    hide AddressSpace.Valid, FreshTokens, InOnePlace;
    assert ops[0..] == ops;
    for i := 0 to |ops|
      invariant a.Valid() && Grows(old(a.mmu.st), a.mmu.st) && old(a.settled) <= a.settled
      invariant FreshTokens(ops, old(a.issued)) ==> FreshTokens(ops[i..], a.issued) && (Once(old(a.issued)) ==> Once(a.issued))
    {
      if FreshTokens(ops[i..], a.issued) { FreshTokensStep(ops[i..], a.issued); }
      assert ops[i..][0] == ops[i] && ops[i..][1..] == ops[i + 1..];
      var _ := Step(a, ops[i]);
    }
    RunFacts(a);
    if Once(a.issued) {
      forall t | t in a.issued ensures InOnePlace(t, a.tracker.swapped, a.orphans, a.settled) {
        TokenInOnePlace(a.tracker.swapped, a.orphans, a.issued, a.settled, t);
      }
    }
  }

  lemma RunFacts(a: AddressSpace)
    requires a.Valid()
    ensures Partition(a.mmu.st, a.mmu.pool) && Homes(a.mmu.st, a.mmu.pool) && a.mmu.st.limbo == {}
    ensures !a.mmu.st.tainted && Fresh(a.mmu.st)
    ensures SwapAgree(a.mmu.st.leaf, a.tracker.swapped) && Ledger(a.tracker.swapped, a.orphans, a.issued, a.settled)
    ensures DeviceOk(a.devices, a.mmu.st, a.mmu.pool)
  {
  }

  lemma LeavesAreUserPages(a: AddressSpace)
    requires a.Valid()
    ensures forall p :: p in a.mmu.st.leaf ==> UserPage(p)
  {
  }

  /** A frame of the fault-time reserve, which is refilled if it is empty. */
  method FromReserve(a: AddressSpace) returns (frame: Option<Frame>)
    requires a.Valid()
    modifies a.mmu, a.mmu.log
    ensures a.Valid() && a.mmu.st.leaf == old(a.mmu.st).leaf
    ensures frame.Some? ==> frame.value in a.mmu.st.lent
    ensures frame.None? ==> a.mmu.st.lent == {}
  {
    hide AddressSpace.Valid;
    PoolInMemory(a);
    if a.mmu.lent != {} {
      var f :| f in a.mmu.lent;
      return Some(f);
    }
    frame := a.Lend();
  }

  /** A range is prepared exactly when the call is made and admitted; then a
      fault-time commit anywhere in it, after whatever runs in between, is never
      refused as unprepared, and a well-formed one either maps the page or
      finds it mapped. Only an empty reserve stands in its way. */
  method PreparedStays(a: AddressSpace, virt: VirtRange, flags: PageFlags, ops: seq<Op>, addr: nat, now: PageFlags)
    returns (prepared: bool, lent: bool, r: Result<Unit>)
    requires a.Valid() && virt.Paged().Has(addr / PAGE)
    modifies a, a.mmu, a.mmu.pt, a.mmu.log, a.tracker
    ensures prepared <==> old(Duty(a, PrepareDemand(virt, flags)) && Prepares(a, virt, flags))
    ensures prepared && !lent ==> a.Valid() && a.mmu.st.lent == {}
    ensures prepared && lent ==> r != Err(NotDemandCommit)
    ensures prepared && lent && addr % PAGE == 0 && !now.IsEmpty() ==>
              (r.Ok? || r == Err(Overlap)) && Mapped(a.mmu.st.leaf, addr / PAGE)
  {
    hide AddressSpace.Valid, Duty, Prepares;
    lent, r := false, Ok(Unit);
    var made, outcome := TryPrepare(a, virt, flags);
    prepared := made && outcome.Ok?;
    if !prepared { return; }
    Execute(a, ops);
    LeavesAreUserPages(a);
    var frame := FromReserve(a);
    if frame.None? { return; }
    lent := true;
    r := a.CommitDemandPage(addr, frame.value, now);
  }

  // ---- Calls whose caller breaks its duty

  /** One call made without looking: whatever its caller owed, the frames still
      partition the pool and each ordinary one has its one home. */
  method Heedless(a: AddressSpace, op: Op)
    requires a.Valid()
    modifies a, a.mmu, a.mmu.pt, a.mmu.log, a.tracker
    ensures Partition(a.mmu.st, a.mmu.pool) && Homes(a.mmu.st, a.mmu.pool)
  {
    hide Core, Fresh, Agree, DeviceOk, Ledger, PageTable.Valid, ReservationTracker.Valid, Accounted, SweepClean, NoViews, OneRun, Hits, Duty, KeepsRecord;
    match op {
      case Release(virt) => var _ := a.Release(virt);
      case UnmapDevice(virt, shared) => var _ := a.UnmapDevice(virt, shared);
      case SwapOut(addr, token, bufferLen) => var _, _ := a.SwapOutPage(addr, token, bufferLen);
      case PrepareDemand(virt, flags) => var _ := a.PrepareDemandCommit(virt, flags);
      case EndDemand(virt, mapped) => var _ := a.EndDemandCommit(virt, mapped);
      case CommitDemand(addr, frame, flags) =>
        if UserPage(addr / PAGE) && frame in a.mmu.lent { var _ := a.CommitDemandPage(addr, frame, flags); }
      case _ => var _ := Step(a, op);
    }
    CoreParts(a.mmu);
  }

  lemma CoreParts(m: Mmu)
    requires m.Valid()
    ensures Partition(m.st, m.pool) && Homes(m.st, m.pool)
  {
  }

  /** Any run of dutiful calls and then a heedless one. */
  method ExecuteThen(a: AddressSpace, ops: seq<Op>, last: Op)
    requires a.Valid()
    modifies a, a.mmu, a.mmu.pt, a.mmu.log, a.tracker
    ensures Partition(a.mmu.st, a.mmu.pool) && Homes(a.mmu.st, a.mmu.pool)
  {
    hide AddressSpace.Valid;
    Execute(a, ops);
    Heedless(a, last);
  }
}
