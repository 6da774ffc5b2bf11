/** The user address space: tracker, machine, device list and orphan list under
    one invariant that every operation keeps, whether it succeeds or fails. */
module AddressSpaces {
  import opened Options
  import opened Arithmetic
  import opened PageWalk
  import opened PageTables
  import opened Machine
  import opened Runs
  import opened DemandRuns
  import opened DeviceRuns
  import opened Regions
  import opened Tracker
  import opened Mmus
  import opened Books
  import opened Outcomes

  /** `MemoryOwner::NONE`: pages the swap policy never looks at. */
  const NO_OWNER := 0

  datatype Translation = Unmapped | Reserved | Committed(frame: Frame, flags: PageFlags)

  lemma EmptyBooks(s: State, pool: set<Frame>)
    requires s == State(map[], {}, s.free, {}, {}, {}, map[], s.mem, {}, false)
    ensures Quiet(s) && Agree(s, map[], map[], {}) && DeviceOk([], s, pool)
    ensures Ledger(map[], [], multiset{}, multiset{}) && Accounted([], [], USER_FIRST)
  {
  }

  lemma GoneKeys(leaf: Flat, first: PageNo, n: nat)
    ensures Gone(leaf, first, n).Keys == leaf.Keys
  {
  }

  lemma LentQuiet(s0: State, s: State)
    requires Quiet(s0) && (s == s0 || exists f :: s == Lend(s0, f))
    ensures Quiet(s) && s.dev == s0.dev && s.pinned == s0.pinned && s.leaf == s0.leaf
  {
  }

  class AddressSpace {
    const mmu: Mmu
    const tracker: ReservationTracker
    var devices: seq<DeviceMapping>
    var orphans: seq<Token>
    var vaNext: PageNo
    ghost var demand: set<PageNo>
    ghost var issued: multiset<Token>
    ghost var settled: multiset<Token>

    /** The invariant: the books and the machine agree, and no frame was ever
        given back while a translation to it survived. */
    ghost predicate Valid()
      reads this, mmu, mmu.pt, tracker
    {
      Sane() && !mmu.st.tainted
    }

    ghost predicate Sane()
      reads this, mmu, mmu.pt, tracker
    {
      && mmu.Valid() && tracker.Valid() && Settled(mmu.st)
      && Agree(mmu.st, tracker.committed, tracker.swapped, demand)
      && DeviceOk(devices, mmu.st, mmu.pool)
      && Ledger(tracker.swapped, orphans, issued, settled)
      && Window()
    }

    constructor (root: Frame, entries: seq<Descriptor>, frames: map<Frame, Bytes>)
      requires |entries| == FANOUT && forall i :: ROOT_FIRST <= i < ROOT_END ==> entries[i] == Absent
      ensures Valid() && fresh(mmu) && fresh(mmu.pt) && fresh(mmu.log) && fresh(tracker) && mmu.log.refusals == 0 && mmu.log.runs == []
      ensures mmu.pool == mmu.st.free == frames.Keys && tracker.committed == map[] && tracker.swapped == map[]
      ensures devices == [] && orphans == [] && issued == multiset{} == settled
      ensures tracker.Ranges() == [] == tracker.freeList && vaNext == USER_FIRST && mmu.st.leaf == map[] && demand == {}
    {
      var pt := new PageTable(root, entries);
      mmu := new Mmu(pt, frames);
      tracker := new ReservationTracker();
      devices, orphans, vaNext := [], [], USER_FIRST;
      demand, issued, settled := {}, multiset{}, multiset{};
      new;
      hide PageTable.Valid, Core, ReservationTracker.Valid, Quiet, Agree, DeviceOk, Ledger, Accounted;
      EmptyBooks(mmu.st, mmu.pool);
    }

    ghost predicate Window()
      reads this, tracker
    {
      Accounted(tracker.Ranges(), tracker.freeList, vaNext)
    }

    /** Everything but the tracker's maps and the machine stays as it is. */
    twostate predicate Steady()
      reads this, tracker
    {
      && tracker.Ranges() == old(tracker.Ranges()) && tracker.freeList == old(tracker.freeList)
      && vaNext == old(vaNext) && devices == old(devices)
      && issued == old(issued) && settled == old(settled)
    }

    method Orphan(entries: seq<SwapEntry>)
      modifies this`orphans
      ensures orphans == old(orphans) + Tokens(entries)
    {
      orphans := orphans + Tokens(entries);
    }

    /** Swap entries of a range that is about to lose its contents: off the
        record, onto the orphan list, descriptors cleared page by page. */
    method DropSwaps(range: Range)
      requires Valid() && UserRange(range.first, range.count) && Encloses(tracker.Ranges(), range)
      modifies this, mmu, mmu.pt, tracker
      ensures Valid() && Steady() && demand == old(demand)
      ensures tracker.committed == old(tracker.committed)
      ensures tracker.swapped == Minus(old(tracker.swapped), range)
      ensures mmu.st == old(mmu.st).(leaf := Cleared(old(mmu.st).leaf, Pages(range.first, range.count)))
    {
      hide Core, Fresh, Agree, DeviceOk, Ledger, PageTable.Valid;
      ghost var s0, pool := mmu.st, mmu.pool;
      ghost var c, sw := tracker.committed, tracker.swapped;
      var taken := tracker.TakeSwapEntriesIn(range);
      LedgerOrphan(sw, orphans, issued, settled, range, taken);
      Orphan(taken);
      mmu.ClearSwapRange(range.first, range.count);
      ghost var pages := Pages(range.first, range.count);
      AgreeDrop(s0, mmu.st, c, sw, demand, pages, range);
      DeviceClear(devices, s0, mmu.st, pool, pages);
    }

    /** The mapping loop: every page of the range, or none. */
    method MapRange(range: Range, attrs: Attrs) returns (r: Result<Unit>)
      requires Valid() && UserRange(range.first, range.count)
      requires forall p :: In(p, range.first, range.count) ==> !At(mmu.st.leaf, p).Swap?
      modifies mmu, mmu.pt, mmu.log
      ensures Valid()
      ensures r.Err? ==> Untouched(old(mmu.st), mmu.st) && MapRefused(old(mmu.st), range, r.error)
      ensures r.Ok? ==> Committing(old(mmu.st), mmu.st, mmu.pool, range.first, range.count, attrs)
      ensures Answered(old(mmu.log.refusals), mmu.log.refusals, r) && mmu.log.runs == old(mmu.log.runs)
    {
      hide Core, Fresh, Agree, DeviceOk, Ledger, PageTable.Valid, ReservationTracker.Valid, Committing, Untouched;
      ghost var s0, pool := mmu.st, mmu.pool;
      r := mmu.CommitPages(range.first, range.count, attrs);
      assert forall p :: In(p, range.first, range.count) ==> range.Has(p);
      if r.Err? {
        AgreeUntouched(s0, mmu.st, tracker.committed, tracker.swapped, demand);
        DeviceUntouched(devices, s0, mmu.st, pool);
        UntouchedQuiet(s0, mmu.st);
      } else {
        AgreeMapped(s0, mmu.st, pool, tracker.committed, tracker.swapped, demand, range, attrs);
        DeviceCommit(devices, s0, mmu.st, pool, range.first, range.count, attrs);
        CommitQuiet(s0, mmu.st, pool, range.first, range.count, attrs);
      }
    }

    /** `record_commit` for pages that are mapped as the flags say. */
    method RecordMapped(range: Range, flags: PageFlags, owner: nat)
      requires Valid() && range.count > 0 && !flags.IsEmpty()
      requires Encloses(tracker.Ranges(), range)
      requires forall p :: range.Has(p) ==> p !in tracker.committed && p !in tracker.swapped
      requires forall p: PageNo :: range.Has(p) ==> p !in mmu.st.dev && At(mmu.st.leaf, p).Page? && At(mmu.st.leaf, p).attrs == AttrsOf(flags)
      modifies this, tracker
      ensures Valid() && Steady() && orphans == old(orphans)
      ensures tracker.committed == Plus(old(tracker.committed), range, Grant(flags, owner))
      ensures tracker.swapped == old(tracker.swapped)
    {
      hide Core, Fresh, Agree, DeviceOk, Ledger, PageTable.Valid;
      ghost var c, sw, waiting := tracker.committed, tracker.swapped, orphans;
      AgreeRecord(mmu.st, c, sw, demand, range, Grant(flags, owner));
      assert Minus(sw, range) == sw;
      var rest := tracker.RecordCommit(range, Grant(flags, owner));
      NothingTaken(rest.value, range, sw);
      Orphan(rest.value);
      assert orphans == waiting;
      demand := demand - Pages(range.first, range.count);
    }

    /** `commit_locked` once the tracker has admitted the range: swap entries in
        it are thrown away for good, then every page is mapped or none. */
    method CommitAdmitted(range: Range, flags: PageFlags, owner: nat) returns (r: Result<Unit>)
      requires Valid() && range.count > 0 && !flags.IsEmpty()
      requires Encloses(tracker.Ranges(), range) && forall p :: range.Has(p) ==> p !in tracker.committed
      requires UserRange(range.first, range.count)
      modifies this, mmu, mmu.pt, mmu.log, tracker
      ensures Valid() && Steady() && Grows(old(mmu.st), mmu.st)
      ensures tracker.swapped == Minus(old(tracker.swapped), range)
      ensures r.Err? ==> SameValid(old(mmu.st), mmu.st) && tracker.committed == old(tracker.committed) && MapRefused(old(mmu.st), range, r.error)
      ensures r.Ok? ==> tracker.committed == Plus(old(tracker.committed), range, Grant(flags, owner))
      ensures r.Ok? ==> FreshPages(old(mmu.st), mmu.st, range, AttrsOf(flags))
      ensures r.Ok? ==> SameOutside(old(mmu.st), mmu.st, range) && KeepsBytes(old(mmu.st), mmu.st)
      ensures r.Ok? ==> mmu.st.free <= old(mmu.st).free
      ensures Answered(old(mmu.log.refusals), mmu.log.refusals, r) && mmu.log.runs == old(mmu.log.runs)
    {
      ghost var s0, pool := mmu.st, mmu.pool;
      ghost var pages := Pages(range.first, range.count);
      DropSwaps(range);
      ghost var s1 := mmu.st;
      NoSwapLeft(s0, s1, pages, range);
      r := MapRange(range, AttrsOf(flags));
      hide AddressSpace.Valid, Committing, Untouched, Steady, SameValid, FreshPages, SameOutside, KeepsBytes, Grows;
      if r.Err? {
        CommitFailure(s0, s1, mmu.st, pages);
        StillRefused(s0, s1, pages, range, r.error);
        return;
      }
      CommitOutcome(s0, s1, mmu.st, pool, range, AttrsOf(flags));
      CommitReady(s1, mmu.st, pool, range, AttrsOf(flags));
      RecordMapped(range, flags, owner);
    }

    // ---- Reserve, commit, decommit, protect, relocate

    lemma InWindow(range: Range)
      requires tracker.Valid() && Encloses(tracker.Ranges(), range)
      ensures UserRange(range.first, range.count)
    {
    }

    /** Reuse first, carve otherwise; the new reservation touches no other. */
    method Reserve(byteLen: nat) returns (r: Result<VirtRange>)
      requires Valid()
      modifies this`vaNext, tracker
      ensures Valid() && mmu.st == old(mmu.st) && tracker.committed == old(tracker.committed) && tracker.swapped == old(tracker.swapped)
      ensures byteLen == 0 ==> r == Err(EmptyRange)
      ensures byteLen > 0 && byteLen % PAGE != 0 ==> r == Err(Misaligned)
      ensures r.Err? ==> tracker.Ranges() == old(tracker.Ranges())
      ensures r.Err? && byteLen > 0 && byteLen % PAGE == 0 ==>
                r.error == OutOfFrames && old(vaNext) + byteLen / PAGE > USER_END
                && forall i :: 0 <= i < |old(tracker.freeList)| ==> old(tracker.freeList)[i].count < byteLen / PAGE
      ensures r.Ok? ==> r.value.Aligned() && r.value.byteLen == byteLen > 0
                        && tracker.Ranges() == old(tracker.Ranges()) + [r.value.Paged()]
                        && Vacated(old(tracker.Ranges()), r.value.Paged())
      ensures vaNext <= old(vaNext) + byteLen / PAGE
      ensures r.Ok? ==> var n, was := byteLen / PAGE, old(tracker.freeList);
                if exists i :: 0 <= i < |was| && n <= was[i].count
                then vaNext == old(vaNext) && exists i :: 0 <= i < |was| && CutAt(was, n, i, r.value.Paged(), tracker.freeList)
                else r.value.Paged().first == old(vaNext) && vaNext == old(vaNext) + n && tracker.freeList == was
    {
      hide Core, Fresh, Agree, DeviceOk, Ledger, PageTable.Valid;
      if byteLen == 0 { return Err(EmptyRange); }
      if byteLen % PAGE != 0 { return Err(Misaligned); }
      var n := byteLen / PAGE;
      var first: PageNo;
      var reused := tracker.ReuseFreeRange(n);
      if reused.Some? {
        AccountedReuse(tracker.Ranges(), old(tracker.freeList), tracker.freeList, reused.value, vaNext);
        LastVacated(tracker.freeList, reused.value);
        first := reused.value.first;
      } else {
        if vaNext + n > USER_END { return Err(OutOfFrames); }
        first := vaNext;
        BelowClear(tracker.Ranges(), Range(first, n), vaNext);
        BelowClear(tracker.freeList, Range(first, n), vaNext);
        AccountedCarve(tracker.Ranges(), tracker.freeList, vaNext, n);
        vaNext := vaNext + n;
      }
      tracker.Reserve(Range(first, n));
      return Ok(VirtRange(first * PAGE, n * PAGE));
    }

    method CommitLocked(range: Range, flags: PageFlags, owner: nat) returns (r: Result<Unit>)
      requires Valid() && range.count > 0
      modifies this, mmu, mmu.pt, mmu.log, tracker
      ensures Valid() && Steady() && Grows(old(mmu.st), mmu.st)
      ensures r.Err? ==> SameValid(old(mmu.st), mmu.st) && tracker.committed == old(tracker.committed)
      ensures tracker.swapped == if Admitted(old(tracker.Ranges()), old(tracker.committed), range, flags)
                                 then Minus(old(tracker.swapped), range) else old(tracker.swapped)
      ensures r.Err? ==> CommitRefused(old(mmu.st), old(tracker.committed), old(tracker.Ranges()), range, flags, r.error)
      ensures r.Ok? ==> Admitted(old(tracker.Ranges()), old(tracker.committed), range, flags)
      ensures r.Ok? ==> tracker.committed == Plus(old(tracker.committed), range, Grant(flags, owner))
      ensures r.Ok? ==> !flags.IsEmpty() && FreshPages(old(mmu.st), mmu.st, range, AttrsOf(flags))
      ensures r.Ok? ==> SameOutside(old(mmu.st), mmu.st, range) && KeepsBytes(old(mmu.st), mmu.st)
      ensures r.Ok? ==> mmu.st.free <= old(mmu.st).free
      ensures Answered(old(mmu.log.refusals), mmu.log.refusals, r) && mmu.log.runs == old(mmu.log.runs)
    {
      var pte := PageFlagsToPte(flags);
      if pte.Err? { return Err(pte.error); }
      var check := tracker.PrecheckCommit(range);
      if check.Err? { return check; }
      InWindow(range);
      hide AddressSpace.Valid, SameValid, FreshPages, SameOutside, KeepsBytes, Grows;
      r := CommitAdmitted(range, flags, owner);
    }

    /** Fresh zeroed frames behind every page of the range, or every valid page
        and the pool as before. The swap entries of an admitted range are gone
        either way; of a refused one, all there. */
    method Commit(virt: VirtRange, flags: PageFlags, owner: nat) returns (r: Result<Unit>)
      requires Valid()
      modifies this, mmu, mmu.pt, mmu.log, tracker
      ensures Valid() && Steady() && Grows(old(mmu.st), mmu.st)
      ensures r.Err? ==> SameValid(old(mmu.st), mmu.st) && tracker.committed == old(tracker.committed)
      ensures r.Err? ==> r == Validate(virt) || CommitRefused(old(mmu.st), old(tracker.committed), old(tracker.Ranges()), virt.Paged(), flags, r.error)
      ensures tracker.swapped == if Validate(virt).Ok? && Admitted(old(tracker.Ranges()), old(tracker.committed), virt.Paged(), flags)
                                 then Minus(old(tracker.swapped), virt.Paged()) else old(tracker.swapped)
      ensures r.Ok? ==> Validate(virt).Ok? && Admitted(old(tracker.Ranges()), old(tracker.committed), virt.Paged(), flags)
      ensures r.Ok? ==> tracker.committed == Plus(old(tracker.committed), virt.Paged(), Grant(flags, owner))
      ensures r.Ok? ==> FreshPages(old(mmu.st), mmu.st, virt.Paged(), AttrsOf(flags))
      ensures r.Ok? ==> SameOutside(old(mmu.st), mmu.st, virt.Paged()) && KeepsBytes(old(mmu.st), mmu.st)
      ensures Answered(old(mmu.log.refusals), mmu.log.refusals, r) && mmu.log.runs == old(mmu.log.runs)
      ensures mmu.log.refusals == old(mmu.log.refusals) ==>
                (r.Ok? <==> Validate(virt).Ok? && Admitted(old(tracker.Ranges()), old(tracker.committed), virt.Paged(), flags)
                            && forall p: PageNo :: virt.Paged().Has(p) ==> !Mapped(old(mmu.st).leaf, p))
    {
      var v := Validate(virt);
      if v.Err? { return v; }
      hide AddressSpace.Valid, FreshPages, SameOutside, Admitted, CommitRefused, SameValid, KeepsBytes, Grows;
      ghost var s0, c, ranges := mmu.st, tracker.committed, tracker.Ranges();
      r := CommitLocked(virt.Paged(), flags, owner);
      if r.Err? { RefusedFor(s0, c, ranges, virt.Paged(), flags, r.error); } else { FreshWere(s0, mmu.st, virt.Paged(), AttrsOf(flags)); }
    }

    /** Unmaps a range that is off the record; stops at the first hole. */
    method UnmapRecorded(range: Range) returns (r: Result<Unit>, ghost done: nat)
      requires Valid() && UserRange(range.first, range.count)
      requires forall p :: range.Has(p) ==> p !in mmu.st.dev && p !in tracker.committed
      modifies mmu, mmu.pt
      ensures Valid() && done <= range.count
      ensures r == if done == range.count then Ok(Unit) else Err(NotCommitted)
      ensures AllMapped(old(mmu.st).leaf, range.first, done)
      ensures done < range.count ==> !Mapped(old(mmu.st).leaf, range.first + done)
      ensures mmu.st == old(mmu.st).(leaf := Blanked(old(mmu.st).leaf, range.first, done),
                                     free := mmu.st.free, home := mmu.st.home, tlb := mmu.st.tlb)
    {
      hide Core, Agree, DeviceOk, Ledger, PageTable.Valid, ReservationTracker.Valid;
      ghost var s0 := mmu.st;
      var n;
      r, n := mmu.DecommitMappedRange(range.first, range.count);
      done := n;
      AgreeDecommit(s0, mmu.st, tracker.committed, tracker.swapped, demand, range, done);
      assert Minus(tracker.committed, range) == tracker.committed;
      DeviceBlanked(devices, s0, mmu.st, mmu.pool, range, done);
    }

    /** Frames go back, the range stays reserved. A demand-commit region in the
        range can stop it at a hole; the pages before the hole are out, those
        after it stay mapped. Without one it always finishes. */
    method Decommit(virt: VirtRange) returns (r: Result<Unit>)
      requires Valid()
      modifies this, mmu, mmu.pt, tracker
      ensures Valid() && Steady() && orphans == old(orphans) && tracker.swapped == old(tracker.swapped)
      ensures mmu.st.leaf.Keys == old(mmu.st).leaf.Keys
      ensures var admitted := Validate(virt).Ok? && Encloses(old(tracker.Ranges()), virt.Paged())
                              && forall p: PageNo :: virt.Paged().Has(p) ==> p in old(tracker.committed);
              && (!admitted ==> r.Err? && mmu.st == old(mmu.st) && tracker.committed == old(tracker.committed)
                                && r.error == if Validate(virt).Err? then Validate(virt).error
                                              else if Encloses(old(tracker.Ranges()), virt.Paged()) then NotCommitted else NotReserved)
              && (admitted && r.Err? ==> r.error == NotCommitted)
              && (admitted ==> tracker.committed == Minus(old(tracker.committed), virt.Paged()))
              && (admitted && (forall p: PageNo :: virt.Paged().Has(p) ==> p !in old(demand)) ==> r.Ok?)
              && (admitted ==> StoppedAtHole(old(mmu.st).leaf, mmu.st.leaf, virt.Paged()))
              && (r.Ok? <==> admitted && forall p: PageNo :: virt.Paged().Has(p) ==> Mapped(old(mmu.st).leaf, p))
      ensures KeepsBytes(old(mmu.st), mmu.st) && mmu.st.pinned == old(mmu.st).pinned && mmu.st.lent == old(mmu.st).lent
    {
      hide AddressSpace.Valid, KeepsBytes;
      SameBytesSelf(mmu.st);
      var v := Validate(virt);
      if v.Err? { return v; }
      var range := virt.Paged();
      ghost var s0 := mmu.st;
      var recorded := RecordDecommitted(range);
      if recorded.Err? { return Err(recorded.error); }
      ghost var done;
      r, done := UnmapRecorded(range);
      DecommitOutcome(s0, mmu.st, range, done);
      assert forall p: PageNo :: range.Has(p) <==> In(p, range.first, range.count);
      if done < range.count { assert range.Has(range.first + done); }
    }

    method RecordDecommitted(range: Range) returns (r: Result<Unit>)
      requires Valid() && range.count > 0
      modifies this, tracker
      ensures Valid() && Steady() && orphans == old(orphans) && tracker.swapped == old(tracker.swapped) && demand == old(demand)
      ensures r.Ok? <==> Encloses(old(tracker.Ranges()), range) && forall p: PageNo :: range.Has(p) ==> p in old(tracker.committed)
      ensures r.Err? ==> tracker.committed == old(tracker.committed)
                         && r.error == if Encloses(old(tracker.Ranges()), range) then NotCommitted else NotReserved
      ensures r.Ok? ==> tracker.committed == Minus(old(tracker.committed), range) && UserRange(range.first, range.count)
      ensures r.Ok? ==> forall p: PageNo :: range.Has(p) ==> p !in mmu.st.dev && (p in old(demand) || Mapped(mmu.st.leaf, p))
    {
      hide Core, Fresh, Agree, DeviceOk, Ledger, PageTable.Valid;
      ghost var c, waiting := tracker.committed, orphans;
      AgreeFewer(mmu.st, c, tracker.swapped, demand, range);
      var recorded := tracker.RecordDecommit(range);
      if recorded.Err? { return Err(recorded.error); }
      Orphan(recorded.value);
      assert orphans == waiting;
      InWindow(range);
      GrantedRange(mmu.st, c, tracker.swapped, demand, range);
      return Ok(Unit);
    }

    /** New flags for every page of a committed range, or nothing changed. */
    method ProtectLocked(range: Range, flags: PageFlags) returns (r: Result<Unit>)
      requires Valid() && range.count > 0
      modifies this, mmu, mmu.pt, tracker
      ensures Valid() && Steady() && orphans == old(orphans) && tracker.swapped == old(tracker.swapped)
      ensures r.Err? ==> mmu.st == old(mmu.st).(tlb := mmu.st.tlb) && tracker.committed == old(tracker.committed)
      ensures r.Ok? <==> !flags.IsEmpty() && Encloses(old(tracker.Ranges()), range)
                         && forall p: PageNo :: range.Has(p) ==> p in old(tracker.committed) && Mapped(old(mmu.st).leaf, p)
      ensures r.Err? ==> r.error == if flags.IsEmpty() then InvalidFlags
                                    else if !Encloses(old(tracker.Ranges()), range) then NotReserved else NotCommitted
      ensures r.Ok? ==> mmu.st == old(mmu.st).(leaf := Repainted(old(mmu.st).leaf, range.first, range.count, AttrsOf(flags)), tlb := mmu.st.tlb)
                        && Reflagged(old(tracker.committed), tracker.committed, range, flags, old(tracker.Pieces(range)))
    {
      hide Core, Fresh, Agree, DeviceOk, Ledger, PageTable.Valid, ReservationTracker.Valid, Reflagged, Repainted;
      var pte := PageFlagsToPte(flags);
      if pte.Err? { return Err(pte.error); }
      var check := tracker.EnsureCommitted(range);
      if check.Err? { return check; }
      InWindow(range);
      ghost var s0 := mmu.st;
      r := mmu.ProtectPages(range.first, range.count, pte.value);
      assert forall p: PageNo :: range.Has(p) <==> In(p, range.first, range.count);
      if r.Err? {
        AgreeSame(s0, mmu.st, tracker.committed, tracker.swapped, demand);
        DeviceSame(devices, s0, mmu.st, mmu.pool);
        return;
      }
      RecordProtected(s0, range, flags);
    }

    method RecordProtected(ghost s0: State, range: Range, flags: PageFlags)
      requires range.count > 0 && !flags.IsEmpty() && mmu.Valid() && tracker.Valid() && Quiet(mmu.st) && Window()
      requires Agree(s0, tracker.committed, tracker.swapped, demand) && DeviceOk(devices, s0, mmu.pool)
      requires Ledger(tracker.swapped, orphans, issued, settled) && Encloses(tracker.Ranges(), range)
      requires forall p: PageNo :: range.Has(p) ==> p in tracker.committed && Mapped(s0.leaf, p)
      requires mmu.st == s0.(leaf := Repainted(s0.leaf, range.first, range.count, AttrsOf(flags)), tlb := mmu.st.tlb)
      modifies tracker
      ensures Valid() && Reflagged(old(tracker.committed), tracker.committed, range, flags, old(tracker.Pieces(range)))
      ensures tracker.swapped == old(tracker.swapped) && tracker.Ranges() == old(tracker.Ranges()) && tracker.freeList == old(tracker.freeList)
    {
      hide Core, Fresh, Agree, DeviceOk, Ledger, PageTable.Valid, Reflagged, Repainted;
      ghost var c, parts := tracker.committed, tracker.Pieces(range);
      DeviceRepainted(devices, s0, mmu.st, mmu.pool, c, tracker.swapped, demand, range, AttrsOf(flags));
      var recorded := tracker.RecordProtect(range, flags);
      AgreeReflag(s0, mmu.st, c, tracker.committed, tracker.swapped, demand, range, flags, parts);
    }

    method Protect(virt: VirtRange, flags: PageFlags) returns (r: Result<Unit>)
      requires Valid()
      modifies this, mmu, mmu.pt, tracker
      ensures Valid() && Steady() && orphans == old(orphans) && tracker.swapped == old(tracker.swapped)
      ensures r.Err? ==> mmu.st == old(mmu.st).(tlb := mmu.st.tlb) && tracker.committed == old(tracker.committed)
      ensures r.Ok? <==> Validate(virt).Ok? && !flags.IsEmpty() && Encloses(old(tracker.Ranges()), virt.Paged())
                         && forall p: PageNo :: virt.Paged().Has(p) ==> p in old(tracker.committed) && Mapped(old(mmu.st).leaf, p)
      ensures r.Err? ==> r.error == if Validate(virt).Err? then Validate(virt).error
                                    else if flags.IsEmpty() then InvalidFlags
                                    else if !Encloses(old(tracker.Ranges()), virt.Paged()) then NotReserved else NotCommitted
      ensures r.Ok? ==> mmu.st == old(mmu.st).(leaf := Repainted(old(mmu.st).leaf, virt.Paged().first, virt.Paged().count, AttrsOf(flags)), tlb := mmu.st.tlb)
                        && Reflagged(old(tracker.committed), tracker.committed, virt.Paged(), flags, old(tracker.Pieces(virt.Paged())))
    {
      var v := Validate(virt);
      if v.Err? { return v; }
      hide AddressSpace.Valid, Reflagged;
      r := ProtectLocked(virt.Paged(), flags);
    }

    /** New frames, same bytes, same attributes, for every page; or nothing
        changed. */
    method Relocate(virt: VirtRange) returns (r: Result<Unit>)
      requires Valid()
      modifies this, mmu, mmu.pt, mmu.log
      ensures Valid() && unchanged(this) && unchanged(tracker)
      ensures Grows(old(mmu.st), mmu.st)
      ensures r.Err? ==> SameValid(old(mmu.st), mmu.st)
      ensures r.Err? ==> r == Validate(virt) || RelocateRefused(old(mmu.st), tracker.committed, demand, tracker.Ranges(), virt.Paged(), r.error)
      ensures r.Ok? ==> Validate(virt).Ok? && Relocated(old(mmu.st), mmu.st, virt.Paged().first, virt.Paged().count)
      ensures Answered(old(mmu.log.refusals), mmu.log.refusals, r) && mmu.log.runs == old(mmu.log.runs)
      ensures mmu.log.refusals == old(mmu.log.refusals) ==>
                (r.Ok? <==> Validate(virt).Ok? && Encloses(tracker.Ranges(), virt.Paged())
                            && forall p: PageNo :: virt.Paged().Has(p) ==> p in tracker.committed && Mapped(old(mmu.st).leaf, p))
    {
      hide Core, Fresh, Agree, DeviceOk, Ledger, PageTable.Valid, ReservationTracker.Valid, Untouched, Relocated;
      var v := Validate(virt);
      if v.Err? { return v; }
      var range := virt.Paged();
      var check := tracker.EnsureCommitted(range);
      if check.Err? { return check; }
      InWindow(range);
      ghost var s0, c := mmu.st, tracker.committed;
      GrantedRange(s0, c, tracker.swapped, demand, range);
      assert forall p :: In(p, range.first, range.count) ==> range.Has(p);
      r := mmu.RelocatePages(range.first, range.count);
      assert r.Err? && r.error == NotCommitted ==> exists p :: range.Has(p) && p in demand && !Mapped(s0.leaf, p);
      if r.Err? {
        AgreeUntouched(s0, mmu.st, c, tracker.swapped, demand);
        DeviceUntouched(devices, s0, mmu.st, mmu.pool);
        UntouchedSame(s0, mmu.st);
      } else {
        RelocatedQuiet(s0, mmu.st, range);
        RelocatedWere(s0, mmu.st, range);
        AgreeRelocate(s0, mmu.st, c, tracker.swapped, demand, range.first, range.count);
        DeviceRelocated(devices, s0, mmu.st, mmu.pool, range);
      }
    }

    // ---- Swap

    lemma RecordedInWindow(p: PageNo)
      requires tracker.Valid()
      ensures p in tracker.committed || p in tracker.swapped ==> UserPage(p)
    {
      if p in tracker.committed || p in tracker.swapped {
        assert InSome(tracker.Ranges(), p);
        var i :| 0 <= i < |tracker.Ranges()| && tracker.Ranges()[i].Has(p);
      }
    }

    /** A committed page leaves for the swap device: its bytes to the caller,
        its token into the leaf and onto the record, its frame to the pool. */
    method SwapOutLocked(p: PageNo, token: Token) returns (r: Result<PageFlags>, bytes: Bytes)
      requires Valid()
      modifies this, mmu, mmu.pt, tracker
      ensures mmu.Valid() && settled == old(settled) && orphans == old(orphans) && devices == old(devices)
      ensures tracker.Ranges() == old(tracker.Ranges()) && tracker.freeList == old(tracker.freeList) && vaNext == old(vaNext)
      ensures Valid() <==> r.Err? || (token !in Live(old(tracker.swapped)) && token !in old(orphans))
      ensures r.Ok? <==> p in old(tracker.committed) && Mapped(old(mmu.st).leaf, p)
      ensures r.Err? ==> mmu.st == old(mmu.st) && tracker.committed == old(tracker.committed) && tracker.swapped == old(tracker.swapped) && issued == old(issued)
      ensures r.Ok? ==> r.value == old(tracker.committed)[p].flags && issued == old(issued) + multiset{token}
                        && tracker.committed == old(tracker.committed) - {p}
                        && tracker.swapped == old(tracker.swapped)[p := SwapEntry(p, token, old(tracker.committed)[p])]
      ensures r.Ok? ==> SwappedOut(old(mmu.st), mmu.st, p, token, bytes)
      ensures r.Err? && UserPage(p) ==> r.error == if Mapped(old(mmu.st).leaf, p) && !Encloses(tracker.Ranges(), Range(p, 1)) then NotReserved else NotCommitted
      ensures r.Err? ==> r.error == NotReserved || r.error == NotCommitted
    {
      hide Core, Fresh, Agree, DeviceOk, Ledger, PageTable.Valid, SwappedOut;
      bytes := Zeroed();
      ghost var s0, c, sw := mmu.st, tracker.committed, tracker.swapped;
      RecordedInWindow(p);
      if !UserPage(p) {
        // The walk goes through the kernel half; with or without a page there,
        // the record refuses.
        if * { return Err(NotCommitted), bytes; }
        return Err(NotReserved), bytes;
      }
      var entry := mmu.pt.Translate4k(p);
      if entry.None? { return Err(NotCommitted), bytes; }
      var recorded := tracker.RecordSwapOut(p, token);
      if recorded.Err? { return Err(recorded.error), bytes; }
      GrantedPage(s0, c, sw, demand, p);
      assert p !in sw;
      hide ReservationTracker.Valid;
      bytes := EvictLeaf(s0, c, sw, p, token);
      return Ok(recorded.value), bytes;
    }

    /** The machine half of a swap-out, with the tracker already updated. */
    method EvictLeaf(ghost s0: State, ghost c: Grants, ghost sw: Swaps, p: PageNo, token: Token) returns (bytes: Bytes)
      requires mmu.Valid() && tracker.Valid() && Quiet(mmu.st) && Window() && mmu.st == s0 && UserPage(p)
      requires Agree(s0, c, sw, demand) && DeviceOk(devices, s0, mmu.pool) && Ledger(sw, orphans, issued, settled)
      requires p in c && p !in sw && Mapped(s0.leaf, p) && p !in s0.dev
      requires tracker.committed == c - {p} && tracker.swapped == sw[p := SwapEntry(p, token, c[p])]
      modifies this, mmu, mmu.pt
      ensures mmu.Valid() && settled == old(settled) && orphans == old(orphans) && devices == old(devices) && vaNext == old(vaNext)
      ensures Valid() <==> token !in Live(sw) && token !in orphans
      ensures issued == old(issued) + multiset{token} && SwappedOut(s0, mmu.st, p, token, bytes)
    {
      hide Core, Fresh, Agree, DeviceOk, Ledger, PageTable.Valid, SwappedOut, ReservationTracker.Valid;
      bytes := mmu.SwapOutLeaf(p, token);
      SwapOutOutcome(s0, mmu.st, p, token, bytes);
      ghost var e := SwapEntry(p, token, c[p]);
      AgreeSwapOut(s0, mmu.st, c, sw, demand, p, e);
      DevicePageOnly(devices, s0, mmu.st, mmu.pool, p);
      LedgerIssue(sw, orphans, issued, settled, p, e);
      issued := issued + multiset{token};
    }

    /** `swap_out_page`; the books survive a success exactly when the token is
        not already in use. */
    method SwapOutPage(addr: nat, token: Token, bufferLen: nat) returns (r: Result<PageFlags>, bytes: Bytes)
      requires Valid()
      modifies this, mmu, mmu.pt, tracker
      ensures mmu.Valid() && settled == old(settled) && orphans == old(orphans) && devices == old(devices)
      ensures tracker.Ranges() == old(tracker.Ranges()) && tracker.freeList == old(tracker.freeList) && vaNext == old(vaNext)
      ensures Valid() <==> r.Err? || (token !in Live(old(tracker.swapped)) && token !in old(orphans))
      ensures bufferLen != PAGE ==> r == Err(BadPageBuffer)
      ensures bufferLen == PAGE && addr % PAGE != 0 ==> r == Err(Misaligned)
      ensures r.Ok? <==> bufferLen == PAGE && addr % PAGE == 0
                         && addr / PAGE in old(tracker.committed) && Mapped(old(mmu.st).leaf, addr / PAGE)
      ensures r.Err? ==> mmu.st == old(mmu.st) && tracker.committed == old(tracker.committed) && tracker.swapped == old(tracker.swapped) && issued == old(issued)
      ensures r.Ok? ==> var p, g := addr / PAGE, old(tracker.committed)[addr / PAGE];
                && r.value == g.flags && issued == old(issued) + multiset{token}
                && tracker.committed == old(tracker.committed) - {p}
                && tracker.swapped == old(tracker.swapped)[p := SwapEntry(p, token, g)]
                && SwappedOut(old(mmu.st), mmu.st, p, token, bytes)
      ensures r.Err? && bufferLen == PAGE && addr % PAGE == 0 && UserPage(addr / PAGE) ==>
                r.error == if Mapped(old(mmu.st).leaf, addr / PAGE) && !Encloses(tracker.Ranges(), Range(addr / PAGE, 1)) then NotReserved else NotCommitted
    {
      hide Core, Fresh, Agree, DeviceOk, Ledger, PageTable.Valid, ReservationTracker.Valid, Accounted, SwappedOut;
      if bufferLen != PAGE { return Err(BadPageBuffer), Zeroed(); }
      if addr % PAGE != 0 { return Err(Misaligned), Zeroed(); }
      r, bytes := SwapOutLocked(addr / PAGE, token);
    }

    /** The swapped page comes back with its old grant on a fresh frame holding
        `bytes`, and its token is handed to the caller; or nothing changed. */
    method SwapInLocked(p: PageNo, bytes: Bytes) returns (r: Result<Token>)
      requires Valid()
      modifies this, mmu, mmu.pt, mmu.log, tracker
      ensures Valid() && issued == old(issued) && orphans == old(orphans) && devices == old(devices)
      ensures tracker.Ranges() == old(tracker.Ranges()) && tracker.freeList == old(tracker.freeList) && vaNext == old(vaNext)
      ensures r.Ok? ==> p in old(tracker.swapped)
      ensures r.Err? ==> Untouched(old(mmu.st), mmu.st) && tracker.committed == old(tracker.committed) && tracker.swapped == old(tracker.swapped) && settled == old(settled)
      ensures r.Err? && p in old(tracker.swapped) ==> r.error == OutOfFrames
      ensures r.Ok? ==> var e := old(tracker.swapped)[p];
                && r.value == e.token && settled == old(settled) + multiset{e.token}
                && tracker.swapped == old(tracker.swapped) - {p} && tracker.committed == old(tracker.committed)[p := e.grant]
                && SwappedIn(old(mmu.st), mmu.st, p, AttrsOf(e.grant.flags), bytes)
      ensures Answered(old(mmu.log.refusals), mmu.log.refusals, r) && mmu.log.runs == old(mmu.log.runs)
      ensures r.Err? && p !in old(tracker.swapped) ==>
                r.error == if Encloses(old(tracker.Ranges()), Range(p, 1)) then NotSwapped else NotReserved
    {
      hide Core, Fresh, Agree, DeviceOk, Ledger, PageTable.Valid, SwappedIn;
      ghost var s0, c, sw := mmu.st, tracker.committed, tracker.swapped;
      RecordedInWindow(p);
      var taken := tracker.TakeSwapEntry(p);
      if taken.Err? { UntouchedSelf(s0); return Err(taken.error); }
      var entry := taken.value;
      SwappedPage(s0, mmu.pool, c, sw, demand, p);
      hide ReservationTracker.Valid, Untouched;
      r := RestoreLeaf(s0, c, sw, p, entry, bytes);
    }

    /** The machine half of a swap-in, with the tracker already updated; its
        failure puts the tracker's entry back. */
    method RestoreLeaf(ghost s0: State, ghost c: Grants, ghost sw: Swaps, p: PageNo, entry: SwapEntry, bytes: Bytes) returns (r: Result<Token>)
      requires mmu.Valid() && tracker.Valid() && Quiet(mmu.st) && Window() && mmu.st == s0 && UserPage(p)
      requires Agree(s0, c, sw, demand) && DeviceOk(devices, s0, mmu.pool) && Ledger(sw, orphans, issued, settled)
      requires p in sw && entry == sw[p] && p !in c && p in s0.leaf && s0.leaf[p].Swap? && p !in s0.dev
      requires entry.page == p && !entry.grant.flags.IsEmpty()
      requires tracker.swapped == sw - {p} && tracker.committed == c[p := entry.grant]
      modifies this, mmu, mmu.pt, mmu.log, tracker
      ensures Valid() && issued == old(issued) && orphans == old(orphans) && devices == old(devices)
      ensures tracker.Ranges() == old(tracker.Ranges()) && tracker.freeList == old(tracker.freeList) && vaNext == old(vaNext)
      ensures r.Err? ==> Untouched(s0, mmu.st) && tracker.committed == c && tracker.swapped == sw && settled == old(settled) && r.error == OutOfFrames
      ensures r.Ok? ==> r.value == entry.token && settled == old(settled) + multiset{entry.token}
                        && tracker.swapped == sw - {p} && tracker.committed == c[p := entry.grant]
                        && SwappedIn(s0, mmu.st, p, AttrsOf(entry.grant.flags), bytes)
      ensures Answered(old(mmu.log.refusals), mmu.log.refusals, r) && mmu.log.runs == old(mmu.log.runs)
    {
      hide Core, Fresh, Agree, DeviceOk, Ledger, PageTable.Valid, ReservationTracker.Valid, Untouched, SwappedIn;
      var pte := PageFlagsToPte(entry.grant.flags);
      var restored := mmu.SwapInLeaf(p, pte.value, bytes);
      if restored.Err? {
        var back := tracker.RecordSwapOut(p, entry.token);
        assert tracker.committed == c && tracker.swapped == sw;
        AgreeUntouched(s0, mmu.st, c, sw, demand);
        DeviceUntouched(devices, s0, mmu.st, mmu.pool);
        UntouchedSame(s0, mmu.st);
        return Err(restored.error);
      }
      AgreeSwapIn(s0, mmu.st, mmu.pool, c, sw, demand, p, bytes);
      SwapInOutcome(devices, s0, mmu.st, mmu.pool, p, AttrsOf(entry.grant.flags), bytes);
      LedgerSettle(sw, orphans, issued, settled, p);
      settled := settled + multiset{entry.token};
      return Ok(entry.token);
    }

    method SwapInPage(addr: nat, buffer: seq<bv8>) returns (r: Result<Token>)
      requires Valid()
      modifies this, mmu, mmu.pt, mmu.log, tracker
      ensures Valid() && issued == old(issued) && orphans == old(orphans) && devices == old(devices)
      ensures tracker.Ranges() == old(tracker.Ranges()) && tracker.freeList == old(tracker.freeList) && vaNext == old(vaNext)
      ensures |buffer| != PAGE ==> r == Err(BadPageBuffer)
      ensures |buffer| == PAGE && addr % PAGE != 0 ==> r == Err(Misaligned)
      ensures r.Err? ==> Untouched(old(mmu.st), mmu.st) && tracker.committed == old(tracker.committed) && tracker.swapped == old(tracker.swapped) && settled == old(settled)
      ensures r.Err? && |buffer| == PAGE && addr % PAGE == 0 && addr / PAGE in old(tracker.swapped) ==> r.error == OutOfFrames
      ensures r.Ok? ==> |buffer| == PAGE && addr % PAGE == 0 && addr / PAGE in old(tracker.swapped)
      ensures r.Ok? ==> var p, e := addr / PAGE, old(tracker.swapped)[addr / PAGE];
                && r.value == e.token && settled == old(settled) + multiset{e.token}
                && tracker.swapped == old(tracker.swapped) - {p} && tracker.committed == old(tracker.committed)[p := e.grant]
                && SwappedIn(old(mmu.st), mmu.st, p, AttrsOf(e.grant.flags), buffer)
      ensures Answered(old(mmu.log.refusals), mmu.log.refusals, r) && mmu.log.runs == old(mmu.log.runs)
      ensures mmu.log.refusals == old(mmu.log.refusals) ==>
                (r.Ok? <==> |buffer| == PAGE && addr % PAGE == 0 && addr / PAGE in old(tracker.swapped))
      ensures r.Err? && |buffer| == PAGE && addr % PAGE == 0 && addr / PAGE !in old(tracker.swapped) ==>
                r.error == if Encloses(old(tracker.Ranges()), Range(addr / PAGE, 1)) then NotSwapped else NotReserved
    {
      ghost var s0 := mmu.st;
      UntouchedSelf(s0);
      hide AddressSpace.Valid, SwappedIn, Untouched;
      if |buffer| != PAGE { return Err(BadPageBuffer); }
      if addr % PAGE != 0 { return Err(Misaligned); }
      r := SwapInLocked(addr / PAGE, buffer);
    }

    /** The lock-free reading of the page table agrees with the record. */
    method SwappedToken(addr: nat) returns (r: Option<Token>)
      requires Valid() && UserPage(addr / PAGE)
      ensures r == if addr / PAGE in tracker.swapped then Some(tracker.swapped[addr / PAGE].token) else None
    {
      var t, entry := mmu.pt.LeafPtr(addr / PAGE);
      assert At(mmu.st.leaf, addr / PAGE) == if t.Some? then entry else Absent;
      return if t.Some? && entry.Swap? then Some(entry.token) else None;
    }

    /** Every orphaned token, once each. */
    method DrainOrphanedSwapTokens() returns (drained: seq<Token>)
      requires Valid()
      modifies this
      ensures Valid() && drained == old(orphans) && OneEach(drained) && orphans == []
      ensures settled == old(settled) + multiset(drained) && issued == old(issued) && devices == old(devices) && demand == old(demand)
    {
      LedgerDrain(tracker.swapped, orphans, issued, settled);
      drained := orphans;
      orphans := [];
      settled := settled + multiset(drained);
    }

    /** Out and back in: same bytes, the attributes on record, the same record,
        and the token given out is the token that comes back. */
    method SwapRoundTrip(p: PageNo, token: Token) returns (ok: bool)
      requires Valid() && token !in Live(tracker.swapped) && token !in orphans
      requires p in tracker.committed && Mapped(mmu.st.leaf, p)
      modifies this, mmu, mmu.pt, mmu.log, tracker
      ensures Valid()
      ensures ok ==> SameContent(old(mmu.st), mmu.st, p)
                     && mmu.st.leaf[p].attrs == AttrsOf(old(tracker.committed)[p].flags)
                     && (p !in old(demand) ==> mmu.st.leaf[p].attrs == old(mmu.st).leaf[p].attrs)
                     && tracker.committed == old(tracker.committed) && tracker.swapped == old(tracker.swapped)
                     && issued == old(issued) + multiset{token} && settled == old(settled) + multiset{token}
      ensures !ok ==> At(mmu.st.leaf, p) == Swap(token)
    {
      hide AddressSpace.Valid, SwappedIn, SwappedOut, SameContent, Untouched;
      ghost var c, sw, s0 := tracker.committed, tracker.swapped, mmu.st;
      BeforeSwap(p);
      var out, bytes := SwapOutLocked(p, token);
      ghost var s1 := mmu.st;
      var back := SwapInLocked(p, bytes);
      ok := back.Ok?;
      if ok {
        SwapBack(s0, s1, mmu.st, p, token, AttrsOf(c[p].flags), bytes);
        assert (sw[p := SwapEntry(p, token, c[p])]) - {p} == sw;
        assert (c - {p})[p := c[p]] == c;
      } else {
        SwapStays(s0, s1, mmu.st, p, token, bytes);
      }
    }

    lemma BeforeSwap(p: PageNo)
      requires Valid() && p in tracker.committed && Mapped(mmu.st.leaf, p)
      ensures p !in tracker.swapped && (p !in demand ==> mmu.st.leaf[p].attrs == AttrsOf(tracker.committed[p].flags))
    {
    }

    // ---- Device mappings

    static method AnyOverlaps(ds: seq<DeviceMapping>, range: Range) returns (found: bool)
      ensures found <==> Claimed(ds, range)
    {
      for i := 0 to |ds|
        invariant forall j :: 0 <= j < i ==> !ds[j].range.Overlaps(range)
      {
        if ds[i].range.Overlaps(range) { return true; }
      }
      return false;
    }

    /** The pages of a range belong to no committed or swapped page. */
    ghost predicate Unused(range: Range)
      reads tracker
    {
      Encloses(tracker.Ranges(), range) && forall p: PageNo :: range.Has(p) ==> p !in tracker.committed && p !in tracker.swapped
    }

    /** The mapping loop shared by all three device operations, with the list
        entry pushed once it has succeeded. The pinned run of a `Pinned` entry
        is already out of the free pool. */
    method InstallDevice(range: Range, frame: Frame, attrs: Attrs, backing: Backing) returns (r: Result<Unit>)
      requires mmu.Valid() && tracker.Valid() && Quiet(mmu.st) && Window() && range.count > 0 && Unused(range)
      requires Agree(mmu.st, tracker.committed, tracker.swapped, demand)
      requires Ledger(tracker.swapped, orphans, issued, settled)
      requires DeviceOk(devices, mmu.st.(pinned := mmu.st.pinned - RunOf(DeviceMapping(range, backing))), mmu.pool)
      requires match backing
               case Registers => Run(frame, range.count) !! mmu.pool
               case Shared => Run(frame, range.count) <= mmu.st.pinned
               case Pinned(f, _) => f == frame && Run(frame, range.count) <= mmu.st.pinned
      modifies this`devices, mmu, mmu.pt
      ensures mmu.Valid()
      ensures r.Ok? <==> forall p: PageNo :: range.Has(p) ==> At(old(mmu.st).leaf, p).Absent?
      ensures r.Ok? ==> Valid() && devices == old(devices) + [DeviceMapping(range, backing)]
                        && RunMapped(old(mmu.st), mmu.st, range, frame, attrs)
      ensures r.Err? ==> r.error == Overlap && Untouched(old(mmu.st), mmu.st) && devices == old(devices)
    {
      hide Core, Fresh, Agree, DeviceOk, Ledger, PageTable.Valid, ReservationTracker.Valid, Untouched, Devicing, RunMapped;
      ghost var s0 := mmu.st;
      InWindow(range);
      NoSwapInside(s0, tracker.committed, tracker.swapped, demand, range);
      r := mmu.MapDevicePages(range.first, range.count, frame, attrs);
      assert forall p: PageNo :: range.Has(p) <==> In(p, range.first, range.count);
      if r.Err? { return; }
      AgreeDevice(s0, mmu.st, mmu.pool, tracker.committed, tracker.swapped, demand, range, frame, attrs);
      AddMapping(devices, s0, mmu.st, mmu.pool, DeviceMapping(range, backing), frame, attrs);
      DeviceQuiet(s0, mmu.st, mmu.pool, range, frame, attrs);
      devices := devices + [DeviceMapping(range, backing)];
    }

    method ClaimDevice(range: Range, frame: Frame, attrs: Attrs, backing: Backing) returns (r: Result<Unit>)
      requires Valid() && range.count > 0 && Unused(range) && !backing.Pinned?
      requires if backing.Registers? then Run(frame, range.count) !! mmu.pool else Run(frame, range.count) <= mmu.st.pinned
      modifies this`devices, mmu, mmu.pt
      ensures Valid()
      ensures r.Ok? <==> !Claimed(old(devices), range)
                         && forall p: PageNo :: range.Has(p) ==> At(old(mmu.st).leaf, p).Absent?
      ensures r.Ok? ==> devices == old(devices) + [DeviceMapping(range, backing)]
                        && RunMapped(old(mmu.st), mmu.st, range, frame, attrs)
      ensures r.Err? ==> Untouched(old(mmu.st), mmu.st) && devices == old(devices)
                         && r.error == if Claimed(old(devices), range) then DeviceMapped else Overlap
    {
      hide Core, Fresh, Agree, DeviceOk, Ledger, PageTable.Valid, ReservationTracker.Valid, RunMapped;
      ghost var s0 := mmu.st;
      var claimed := AnyOverlaps(devices, range);
      if claimed { return Err(DeviceMapped); }
      hide Untouched;
      assert s0.pinned - {} == s0.pinned;
      assert s0.(pinned := s0.pinned - {}) == s0;
      r := InstallDevice(range, frame, attrs, backing);
      if r.Err? {
        AgreeUntouched(s0, mmu.st, tracker.committed, tracker.swapped, demand);
        DeviceUntouched(devices, s0, mmu.st, mmu.pool);
        UntouchedSame(s0, mmu.st);
      }
    }

    /** A register window; its frames were never the pool's. */
    method MapDevice(virt: VirtRange, start: nat, bytes: nat, writable: bool, device: bool) returns (r: Result<Unit>)
      requires Valid() && (Validate(virt).Ok? ==> Unused(virt.Paged()) && Run(start / PAGE, virt.Paged().count) !! mmu.pool)
      modifies this`devices, mmu, mmu.pt
      ensures Valid()
      ensures r.Ok? <==> Validate(virt).Ok? && start % PAGE == 0 && bytes % PAGE == 0 && bytes == virt.byteLen
                         && !Claimed(old(devices), virt.Paged())
                         && forall p: PageNo :: virt.Paged().Has(p) ==> At(old(mmu.st).leaf, p).Absent?
      ensures r.Ok? ==> devices == old(devices) + [DeviceMapping(virt.Paged(), Registers)]
                        && RunMapped(old(mmu.st), mmu.st, virt.Paged(), start / PAGE, DeviceAttrs(writable, device))
      ensures r.Err? ==> Untouched(old(mmu.st), mmu.st) && devices == old(devices)
      ensures r.Err? ==> r.error == if Validate(virt).Err? then Validate(virt).error
                                    else if start % PAGE != 0 || bytes % PAGE != 0 || bytes != virt.byteLen then Misaligned
                                    else if Claimed(old(devices), virt.Paged()) then DeviceMapped else Overlap
    {
      hide AddressSpace.Valid, RunMapped, Untouched;
      StartsUntouched();
      var v := Validate(virt);
      if v.Err? { return v; }
      if start % PAGE != 0 || bytes % PAGE != 0 || bytes != virt.byteLen { return Err(Misaligned); }
      r := ClaimDevice(virt.Paged(), start / PAGE, DeviceAttrs(writable, device), Registers);
    }

    lemma StartsUntouched()
      requires Valid()
      ensures Untouched(mmu.st, mmu.st)
    {
    }

    /** A second view of a pinned run. */
    method MapShared(virt: VirtRange, start: nat, bytes: nat, flags: PageFlags) returns (r: Result<Unit>)
      requires Valid() && (Validate(virt).Ok? ==> Unused(virt.Paged()) && Run(start / PAGE, virt.Paged().count) <= mmu.st.pinned)
      modifies this`devices, mmu, mmu.pt
      ensures Valid()
      ensures r.Ok? <==> Validate(virt).Ok? && bytes == virt.byteLen && start % PAGE == 0 && !flags.IsEmpty()
                         && !Claimed(old(devices), virt.Paged())
                         && forall p: PageNo :: virt.Paged().Has(p) ==> At(old(mmu.st).leaf, p).Absent?
      ensures r.Ok? ==> devices == old(devices) + [DeviceMapping(virt.Paged(), Shared)]
                        && RunMapped(old(mmu.st), mmu.st, virt.Paged(), start / PAGE, AttrsOf(flags))
      ensures r.Err? ==> Untouched(old(mmu.st), mmu.st) && devices == old(devices)
      ensures r.Err? ==> r.error == if Validate(virt).Err? then Validate(virt).error
                                    else if bytes != virt.byteLen || start % PAGE != 0 then Misaligned
                                    else if flags.IsEmpty() then InvalidFlags
                                    else if Claimed(old(devices), virt.Paged()) then DeviceMapped else Overlap
    {
      hide AddressSpace.Valid, RunMapped, Untouched;
      StartsUntouched();
      var v := Validate(virt);
      if v.Err? { return v; }
      if bytes != virt.byteLen || start % PAGE != 0 { return Err(Misaligned); }
      var pte := PageFlagsToPte(flags);
      if pte.Err? { return Err(pte.error); }
      r := ClaimDevice(virt.Paged(), start / PAGE, pte.value, Shared);
    }

    /** Off the list, out of the table, and a pinned run back to the pool, in
        that order. The run is freed under a live translation exactly when a
        shared view of it is left. */
    method DropDevice(i: nat)
      requires Sane() && i < |devices|
      modifies this`devices, mmu, mmu.pt
      ensures Sane() && devices == SwapRemove(old(devices), i) && DeviceGone(old(mmu.st), mmu.st, old(devices)[i])
      ensures mmu.st.tainted <==> old(mmu.st).tainted || !NoViews(old(devices), i, old(mmu.st))
    {
      hide Core, Fresh, Agree, DeviceOk, Ledger, PageTable.Valid, ReservationTracker.Valid, NoViews;
      ghost var s0, ds := mmu.st, devices;
      DevicePages(ds, i, s0, mmu.pool);
      var m := devices[i];
      devices := SwapRemove(devices, i);
      mmu.TearDownDeviceRange(m.range.first, m.range.count);
      ghost var t := mmu.st;
      if m.backing.Pinned? {
        mmu.FreeRun(m.backing.frame, m.range.count);
      } else {
        UnpinNothing(t);
      }
      DropNeedsNoViews(ds, i, s0, mmu.st, mmu.pool);
      AgreeGone(ds, i, s0, mmu.st, mmu.pool, tracker.committed, tracker.swapped, demand);
    }

    static method FindDevice(ds: seq<DeviceMapping>, first: PageNo, shared: bool) returns (r: Option<nat>)
      ensures r.Some? ==> r.value < |ds| && ds[r.value].range.first == first && (shared ==> ds[r.value].backing.Shared?)
      ensures r.None? ==> forall i :: 0 <= i < |ds| ==> ds[i].range.first != first || (shared && !ds[i].backing.Shared?)
    {
      for i := 0 to |ds|
        invariant forall j :: 0 <= j < i ==> ds[j].range.first != first || (shared && !ds[j].backing.Shared?)
      {
        if ds[i].range.first == first && (!shared || ds[i].backing.Shared?) { return Some(i); }
      }
      return None;
    }

    /** `unmap_device`, `release_contiguous` and, with `shared`, `unmap_shared`:
        found by start address, dropped whole; at most one mapping starts there.
        The invariant survives exactly when no shared view of it is left. */
    method UnmapDevice(virt: VirtRange, shared: bool) returns (r: Result<Unit>)
      requires Valid()
      modifies this`devices, mmu, mmu.pt
      ensures Sane()
      ensures r.Ok? <==> Validate(virt).Ok? && exists i :: 0 <= i < |old(devices)| && old(devices)[i].range.first * PAGE == virt.start
                                                           && (shared ==> old(devices)[i].backing.Shared?)
      ensures r.Ok? ==> exists i :: 0 <= i < |old(devices)| && old(devices)[i].range.first * PAGE == virt.start
                          && (shared ==> old(devices)[i].backing.Shared?) && devices == SwapRemove(old(devices), i) && DeviceGone(old(mmu.st), mmu.st, old(devices)[i])
                          && (Valid() <==> NoViews(old(devices), i, old(mmu.st))) && (mmu.st.tainted <==> !NoViews(old(devices), i, old(mmu.st)))
      ensures r.Err? ==> Valid() && mmu.st == old(mmu.st) && devices == old(devices)
      ensures r.Err? ==> r.error == if Validate(virt).Err? then Validate(virt).error else NotCommitted
    {
      hide AddressSpace.Sane, NoViews, DeviceGone;
      var v := Validate(virt);
      if v.Err? { return v; }
      var at := FindDevice(devices, virt.start / PAGE, shared);
      if at.None? { return Err(NotCommitted); }
      DropDevice(at.value);
      return Ok(Unit);
    }

    /** A zeroed, physically contiguous run the device can reach, behind every
        page of the range; or every page and the pool as before. */
    method CommitContiguous(virt: VirtRange, flags: PageFlags, placement: DmaPlacement) returns (r: Result<Frame>)
      requires Valid() && (Validate(virt).Ok? ==> Unused(virt.Paged()))
      modifies this`devices, mmu, mmu.pt, mmu.log
      ensures Valid()
      ensures r.Ok? ==> Validate(virt).Ok? && PowerOfTwo(placement.align) && placement.align >= PAGE && !flags.IsEmpty()
      ensures r.Ok? ==> placement.Accepts(r.value * PAGE, virt.byteLen)
      ensures r.Ok? ==> devices == old(devices) + [DeviceMapping(virt.Paged(), Pinned(r.value, placement.align))]
      ensures r.Ok? ==> var run := Run(r.value, virt.Paged().count);
                run <= old(mmu.st).free && RunMapped(Pin(old(mmu.st), run), mmu.st, virt.Paged(), r.value, AttrsOf(flags))
      ensures r.Err? ==> Untouched(old(mmu.st), mmu.st) && devices == old(devices)
      ensures r.Err? ==> if Validate(virt).Err? then r.error == Validate(virt).error
                         else if !PowerOfTwo(placement.align) || placement.align < PAGE then r.error == Misaligned
                         else if flags.IsEmpty() then r.error == InvalidFlags
                         else r.error == OutOfFrames || (r.error == Overlap && exists p: PageNo :: virt.Paged().Has(p) && !At(old(mmu.st).leaf, p).Absent?)
      ensures r.Ok? ==> forall p: PageNo :: virt.Paged().Has(p) ==> At(old(mmu.st).leaf, p).Absent?
      ensures r.Ok? ==> mmu.log.refusals == old(mmu.log.refusals) && mmu.log.runs == old(mmu.log.runs) + [r.value]
      ensures r.Err? && r.error == OutOfFrames ==>
                mmu.log.refusals > old(mmu.log.refusals)
                || TurnedDown(old(mmu.log.runs), mmu.log.runs, placement, virt.Paged().count, old(mmu.st).free)
      ensures r.Err? && r.error != OutOfFrames ==> mmu.log.refusals == old(mmu.log.refusals)
    {
      hide AddressSpace.Valid, RunMapped, Untouched, Pin;
      StartsUntouched();
      var v := Validate(virt);
      if v.Err? { return Err(v.error); }
      if !PowerOfTwo(placement.align) || placement.align < PAGE { return Err(Misaligned); }
      var pte := PageFlagsToPte(flags);
      if pte.Err? { return Err(pte.error); }
      r := PinRange(virt.Paged(), pte.value, placement);
    }

    method PinRange(range: Range, attrs: Attrs, placement: DmaPlacement) returns (r: Result<Frame>)
      requires Valid() && range.count > 0 && Unused(range) && placement.align > 0
      modifies this`devices, mmu, mmu.pt, mmu.log
      ensures Valid()
      ensures r.Ok? ==> placement.Accepts(r.value * PAGE, range.count * PAGE)
      ensures r.Ok? ==> devices == old(devices) + [DeviceMapping(range, Pinned(r.value, placement.align))]
      ensures r.Ok? ==> Run(r.value, range.count) <= old(mmu.st).free
                        && RunMapped(Pin(old(mmu.st), Run(r.value, range.count)), mmu.st, range, r.value, attrs)
      ensures r.Err? ==> Untouched(old(mmu.st), mmu.st) && devices == old(devices)
      ensures r.Err? ==> r.error == OutOfFrames || (r.error == Overlap && exists p: PageNo :: range.Has(p) && !At(old(mmu.st).leaf, p).Absent?)
      ensures r.Ok? ==> forall p: PageNo :: range.Has(p) ==> At(old(mmu.st).leaf, p).Absent?
      ensures r.Ok? ==> mmu.log.refusals == old(mmu.log.refusals) && mmu.log.runs == old(mmu.log.runs) + [r.value]
      ensures r.Err? && r.error == OutOfFrames ==>
                mmu.log.refusals > old(mmu.log.refusals)
                || TurnedDown(old(mmu.log.runs), mmu.log.runs, placement, range.count, old(mmu.st).free)
      ensures r.Err? && r.error != OutOfFrames ==> mmu.log.refusals == old(mmu.log.refusals)
    {
      hide Core, Fresh, Agree, DeviceOk, Ledger, PageTable.Valid, ReservationTracker.Valid, RunMapped, Untouched;
      ghost var s0 := mmu.st;
      StartsUntouched();
      var got := mmu.AllocRun(range.count, placement.align);
      if got.Err? { return got; }
      var frame := got.value;
      ghost var s1, run := mmu.st, Run(frame, range.count);
      PinQuiet(devices, s0, s1, mmu.pool, frame, range.count);
      AgreeSame(s0, s1, tracker.committed, tracker.swapped, demand);
      if !placement.Accepts(frame * PAGE, range.count * PAGE) {
        PinAbandoned(s1);
        FreePinned(s0, s1, frame, range.count);
        return Err(OutOfFrames);
      }
      var installed := InstallDevice(range, frame, attrs, Pinned(frame, placement.align));
      if installed.Err? {
        StillApart(s1, mmu.st, run);
        FreePinned(s0, s1, frame, range.count);
        return Err(installed.error);
      }
      return Ok(frame);
    }

    lemma PinAbandoned(s1: State)
      requires Quiet(s1)
      ensures Untouched(s1, s1)
    {
    }

    /** `free_pinned_run` after a commit that came to nothing. */
    method FreePinned(ghost s0: State, ghost s1: State, frame: Frame, n: nat)
      requires mmu.Valid() && tracker.Valid() && Window() && Quiet(s0) && Core(s0, mmu.pool)
      requires Agree(s0, tracker.committed, tracker.swapped, demand) && DeviceOk(devices, s0, mmu.pool)
      requires Ledger(tracker.swapped, orphans, issued, settled)
      requires Run(frame, n) <= s0.free && s1 == Pin(s0, Run(frame, n)) && Untouched(s1, mmu.st)
      requires !Named(mmu.st, Run(frame, n))
      modifies mmu
      ensures Valid() && Untouched(s0, mmu.st)
    {
      hide Core, Agree, DeviceOk, Ledger, PageTable.Valid, ReservationTracker.Valid;
      ghost var s2 := mmu.st;
      mmu.FreeRun(frame, n);
      UnpinUndone(s0, s1, s2, mmu.st, mmu.pool, Run(frame, n));
      AgreeUntouched(s0, mmu.st, tracker.committed, tracker.swapped, demand);
      DeviceUntouched(devices, s0, mmu.st, mmu.pool);
      UntouchedSame(s0, mmu.st);
    }

    // ---- Release

    /** No mapping lying wholly inside the range remains; every other entry of
        the list is still there, as often as before. */
    method SweepDeviceMappings(virt: VirtRange)
      requires Sane()
      modifies this`devices, mmu, mmu.pt
      ensures Sane() && Swept(old(mmu.st), mmu.st)
      ensures mmu.st.tainted <==> old(mmu.st).tainted || !SweepClean(old(devices), 0, old(mmu.st), virt)
      ensures forall m: DeviceMapping :: multiset(devices)[m] == if Covers(virt, m.range) then 0 else multiset(old(devices))[m]
    {
      hide AddressSpace.Sane, Swept, NoViews, Covers;
      ghost var s0, ds := mmu.st, devices;
      SweptSelf(s0);
      var index := 0;
      while index < |devices|
        invariant Sane() && Swept(s0, mmu.st) && index <= |devices|
        invariant mmu.st.tainted || !SweepClean(devices, index, mmu.st, virt) <==> s0.tainted || !SweepClean(ds, 0, s0, virt)
        invariant forall j :: 0 <= j < index ==> !Covers(virt, devices[j].range)
        invariant forall m: DeviceMapping :: !Covers(virt, m.range) ==> multiset(devices)[m] == multiset(ds)[m]
        decreases |devices| - index
      {
        if !Covers(virt, devices[index].range) {
          index := index + 1;
          continue;
        }
        ghost var s, xs := mmu.st, devices;
        SwapRemoveCounts(xs, index);
        SweepStep(index, virt);
        SweptTrans(s0, s, mmu.st);
      }
      forall m: DeviceMapping | Covers(virt, m.range) ensures multiset(devices)[m] == 0 {
        assert m in multiset(devices) <==> m in devices;
      }
    }

    method SweepStep(i: nat, ghost virt: VirtRange)
      requires Sane() && i < |devices|
      modifies this`devices, mmu, mmu.pt
      ensures Sane() && devices == SwapRemove(old(devices), i) && Swept(old(mmu.st), mmu.st)
      ensures mmu.st.tainted <==> old(mmu.st).tainted || !NoViews(old(devices), i, old(mmu.st))
      ensures SweepClean(devices, i, mmu.st, virt) <==> SweepClean(devices, i, old(mmu.st), virt)
    {
      hide Core, Agree, Ledger, PageTable.Valid, ReservationTracker.Valid, NoViews, Swept, DeviceOk, DeviceGone, SweepClean;
      ghost var s0, ds := mmu.st, devices;
      SweptSelf(s0);
      assert Core(s0, mmu.pool) && DeviceOk(ds, s0, mmu.pool);
      DropDevice(i);
      SweptStep(s0, s0, mmu.st, ds, i, mmu.pool);
      GoneElsewhere(ds, i, s0, mmu.st, mmu.pool);
      SweepSame(devices, i, s0, mmu.st, virt);
    }

    /** Unmaps the committed regions of a released range, page by page. */
    method UnmapRegions(regions: seq<Region>)
      requires mmu.Valid() && Fresh(mmu.st)
      requires forall i :: 0 <= i < |regions| ==> UserRange(regions[i].range.first, regions[i].range.count)
      requires forall i, p: PageNo {:trigger regions[i].range.Has(p)} :: 0 <= i < |regions| && regions[i].range.Has(p) ==> p !in mmu.st.dev
      modifies mmu, mmu.pt
      ensures mmu.Valid() && Fresh(mmu.st)
      ensures mmu.st == old(mmu.st).(leaf := Dropped(old(mmu.st).leaf, RegionPages(regions)),
                                     free := mmu.st.free, home := mmu.st.home, tlb := mmu.st.tlb)
    {
      hide Core, Fresh, PageTable.Valid;
      ghost var s0 := mmu.st;
      assert Dropped(s0.leaf, {}) == s0.leaf;
      for i := 0 to |regions|
        invariant mmu.Valid() && Fresh(mmu.st)
        invariant mmu.st == s0.(leaf := Dropped(s0.leaf, RegionPages(regions[..i])),
                                free := mmu.st.free, home := mmu.st.home, tlb := mmu.st.tlb)
      {
        var range := regions[i].range;
        assert forall p :: In(p, range.first, range.count) ==> range.Has(p);
        mmu.UnmapEach(range.first, range.count, RegionPages(regions[..i]), s0);
        assert regions[..i + 1][..i] == regions[..i];
        assert RegionPages(regions[..i + 1]) == RegionPages(regions[..i]) + Pages(range.first, range.count);
      }
      assert regions[..|regions|] == regions;
    }

    /** Everything `Sane` says but the tracker's own validity and the address
        window. */
    ghost predicate Sound(c: Grants, sw: Swaps)
      reads this, mmu, mmu.pt
    {
      && mmu.Valid() && Settled(mmu.st) && Agree(mmu.st, c, sw, demand)
      && DeviceOk(devices, mmu.st, mmu.pool) && Ledger(sw, orphans, issued, settled)
    }

    /** Swap entries already off the record: descriptors cleared entry by
        entry, tokens orphaned. */
    method DropEntries(ghost c: Grants, ghost sw: Swaps, ghost range: Range, taken: seq<SwapEntry>)
      requires Sound(c, sw) && c.Keys !! sw.Keys && UserRange(range.first, range.count) && Records(taken, range, sw)
      modifies this`orphans, mmu, mmu.pt
      ensures Sound(c, Minus(sw, range)) && orphans == old(orphans) + Tokens(taken)
      ensures mmu.st == old(mmu.st).(leaf := Cleared(old(mmu.st).leaf, Keys(sw, range)))
    {
      hide Core, Agree, DeviceOk, Ledger, PageTable.Valid, Records;
      ghost var s0 := mmu.st;
      RecordedPages(taken, range, sw);
      mmu.ClearSwapPages(EntryPages(taken));
      LedgerOrphan(sw, orphans, issued, settled, range, taken);
      Orphan(taken);
      AgreeDrop(s0, mmu.st, c, sw, demand, Keys(sw, range), range);
      DeviceClear(devices, s0, mmu.st, mmu.pool, Keys(sw, range));
    }

    /** The tracker half and the page half of a release, once the device
        mappings inside the range are gone. */
    method ReleaseReserved(range: Range) returns (r: Result<Unit>)
      requires Sane()
      modifies this, mmu, mmu.pt, tracker
      ensures Sane() && mmu.st.tainted == old(mmu.st).tainted && devices == old(devices) && issued == old(issued) && settled == old(settled) && vaNext == old(vaNext)
      ensures r.Ok? <==> range in old(tracker.Ranges())
      ensures r.Err? ==> r.error == NotReserved && mmu.st == old(mmu.st) && orphans == old(orphans)
                         && tracker.committed == old(tracker.committed) && tracker.swapped == old(tracker.swapped)
                         && tracker.Ranges() == old(tracker.Ranges()) && tracker.freeList == old(tracker.freeList)
      ensures r.Ok? ==> tracker.committed == Minus(old(tracker.committed), range) && tracker.swapped == Minus(old(tracker.swapped), range)
      ensures r.Ok? ==> multiset(tracker.Ranges()) == multiset(old(tracker.Ranges())) - multiset{range}
                        && tracker.freeList == old(tracker.freeList) + [range]
      ensures r.Ok? ==> Emptied(old(mmu.st), mmu.st, old(tracker.committed), old(tracker.swapped), range)
    {
      hide Core, Fresh, Agree, DeviceOk, Ledger, PageTable.Valid, Emptied, Accounted, Tiles, Records;
      ghost var s0, c, sw := mmu.st, tracker.committed, tracker.swapped;
      ghost var ranges := tracker.Ranges();
      var released := tracker.Release(range);
      if released.Err? { return Err(released.error); }
      ghost var k :| 0 <= k < |ranges| && ranges[k] == range && tracker.Ranges() == SwapRemove(ranges, k);
      SwapRemoveCounts(ranges, k);
      AccountedRelease(ranges, tracker.freeList, vaNext, k);
      hide ReservationTracker.Valid;
      UnmapReleased(c, sw, range, released.value);
      tracker.PushFreeRange(range);
      return Ok(Unit);
    }

    method UnmapReleased(ghost c: Grants, ghost sw: Swaps, range: Range, released: Released)
      requires Sound(c, sw) && c.Keys !! sw.Keys && UserRange(range.first, range.count)
      requires Tiles(released.committed, range, c) && Records(released.swapped, range, sw)
      modifies this`orphans, this`demand, mmu, mmu.pt
      ensures Sound(Minus(c, range), Minus(sw, range)) && Emptied(old(mmu.st), mmu.st, c, sw, range)
      ensures mmu.st.tainted == old(mmu.st).tainted
      ensures orphans == old(orphans) + Tokens(released.swapped)
    {
      hide Core, Agree, DeviceOk, Ledger, PageTable.Valid, Records, Emptied;
      ghost var s0 := mmu.st;
      GrantedInside(s0, c, sw, demand, released.committed, range);
      TiledPages(released.committed, range, c);
      TiledWindow(released.committed, range, c);
      UnmapRegions(released.committed);
      hide Tiles;
      ghost var s1 := mmu.st;
      AgreeRegions(s0, s1, c, sw, demand, range);
      DeviceRegions(devices, s0, s1, mmu.pool, c, sw, demand, range);
      EmptiedOutcome(s0, s1, s1.(leaf := Cleared(s1.leaf, Keys(sw, range))), c, sw, demand, range);
      demand := demand - Pages(range.first, range.count);
      DropEntries(Minus(c, range), sw, range, released.swapped);
    }

    /** Device mappings first, whether or not the range turns out to be a
        reservation; then every committed page, every swap entry, and the range
        itself, which goes to the reuse pool. The invariant survives exactly
        when the sweep is clean. */
    method Release(virt: VirtRange) returns (r: Result<Unit>)
      requires Valid()
      modifies this, mmu, mmu.pt, tracker
      ensures Sane() && (Valid() <==> SweepClean(old(devices), 0, old(mmu.st), virt))
      ensures mmu.st.tainted <==> !SweepClean(old(devices), 0, old(mmu.st), virt)
      ensures mmu.st.leaf.Keys == old(mmu.st).leaf.Keys && issued == old(issued) && settled == old(settled)
      ensures forall m: DeviceMapping :: multiset(devices)[m] == if Covers(virt, m.range) then 0 else multiset(old(devices))[m]
      ensures r.Ok? <==> virt.Aligned() && virt.Paged() in old(tracker.Ranges())
      ensures r.Err? ==> r.error == NotReserved && Swept(old(mmu.st), mmu.st) && orphans == old(orphans)
                         && tracker.committed == old(tracker.committed) && tracker.swapped == old(tracker.swapped)
                         && tracker.Ranges() == old(tracker.Ranges()) && tracker.freeList == old(tracker.freeList)
      ensures r.Ok? ==> tracker.committed == Minus(old(tracker.committed), virt.Paged())
                        && tracker.swapped == Minus(old(tracker.swapped), virt.Paged())
                        && multiset(tracker.Ranges()) == multiset(old(tracker.Ranges())) - multiset{virt.Paged()}
                        && tracker.freeList == old(tracker.freeList) + [virt.Paged()]
      ensures r.Ok? ==> forall p: PageNo :: virt.Paged().Has(p) && (p in old(tracker.committed) || p in old(tracker.swapped)) ==>
                          !At(mmu.st.leaf, p).Page?
      ensures r.Ok? ==> forall p: PageNo :: p !in old(tracker.committed) && p !in old(tracker.swapped) && p !in old(mmu.st).dev ==>
                          At(mmu.st.leaf, p) == At(old(mmu.st).leaf, p)
      ensures r.Ok? ==> forall p: PageNo :: p in old(mmu.st).dev && p !in mmu.st.dev ==> At(mmu.st.leaf, p) == Absent
    {
      hide AddressSpace.Sane, SweepClean, Covers, Swept, Emptied;
      ghost var s0, c, sw := mmu.st, tracker.committed, tracker.swapped;
      SweepDeviceMappings(virt);
      ghost var s1 := mmu.st;
      SweptKeys(s0, s1);
      if !virt.Aligned() { return Err(NotReserved); }
      var range := virt.Paged();
      r := ReleaseReserved(range);
      if r.Ok? {
        ReleaseOutcome(s0, s1, mmu.st, c, sw, range);
      }
    }

    // ---- Sub-ranges

    method DropSwapEntries(range: Range)
      requires Valid()
      modifies this, mmu, mmu.pt, tracker
      ensures Valid() && Steady() && demand == old(demand) && tracker.committed == old(tracker.committed)
      ensures tracker.Pieces(range) == old(tracker.Pieces(range))
      ensures !Encloses(old(tracker.Ranges()), range) ==> mmu.st == old(mmu.st) && tracker.swapped == old(tracker.swapped) && orphans == old(orphans)
      ensures Encloses(old(tracker.Ranges()), range) ==>
                tracker.swapped == Minus(old(tracker.swapped), range)
                && mmu.st == old(mmu.st).(leaf := Cleared(old(mmu.st).leaf, Keys(old(tracker.swapped), range)))
    {
      hide Core, Fresh, Agree, DeviceOk, Ledger, PageTable.Valid, Accounted, Records;
      ghost var c, sw := tracker.committed, tracker.swapped;
      ghost var apart := c.Keys !! sw.Keys;
      var taken := tracker.TakeSwapEntriesIn(range);
      if taken == [] {
        if Encloses(tracker.Ranges(), range) { NothingDropped(sw, range, mmu.st.leaf); }
        return;
      }
      InWindow(range);
      hide ReservationTracker.Valid;
      DropEntries(c, sw, range, taken);
    }

    /** Unmaps the listed ranges one after the other; stops at a hole. */
    method UnmapSubranges(rs: seq<Range>, ghost pages: set<PageNo>) returns (r: Result<Unit>)
      requires Valid() && Lists(rs, pages) && forall i :: 0 <= i < |rs| ==> UserRange(rs[i].first, rs[i].count)
      requires forall p :: p in pages ==> p !in mmu.st.dev && p !in tracker.committed
      modifies mmu, mmu.pt
      ensures Valid() && mmu.st.leaf.Keys == old(mmu.st).leaf.Keys
      ensures r.Ok? <==> forall p :: p in pages ==> Mapped(old(mmu.st).leaf, p)
      ensures r.Ok? ==> TakenOut(old(mmu.st), mmu.st, pages)
      ensures OutUpTo(old(mmu.st).leaf, mmu.st.leaf, rs)
      ensures r.Err? ==> r.error == NotCommitted
    {
      hide AddressSpace.Valid, RangePages, Lists, OutUpTo;
      ghost var s0 := mmu.st;
      UnmappedStart(s0);
      for i := 0 to |rs|
        invariant Valid() && TakenOut(s0, mmu.st, RangePages(rs[..i])) && RangePages(rs[..i]) <= pages
        invariant forall p :: p in RangePages(rs[..i]) ==> Mapped(s0.leaf, p)
      {
        ListedNext(rs, pages, i);
        ghost var s, before := mmu.st, RangePages(rs[..i]);
        ghost var done;
        r, done := UnmapRecorded(rs[i]);
        PieceMapped(s0, s, before, rs[i], done);
        if r.Err? {
          ReachedStop(s0, s, mmu.st, rs, pages, i, done);
          return;
        }
        UnmappedStep(s0, s, mmu.st, before, rs[i]);
      }
      assert rs[..|rs|] == rs;
      ListedPages(rs, pages);
      AllReached(s0, mmu.st, rs, pages);
      return Ok(Unit);
    }

    /** Whatever of the range is committed or swapped goes; the reservation
        stays. An unfaulted demand-commit page stops it; the committed parts
        before that page, in the order of the tracker's list, are out then and
        the rest stay mapped. */
    method DecommitCommittedSubranges(virt: VirtRange) returns (r: Result<Unit>)
      requires Valid()
      modifies this, mmu, mmu.pt, tracker
      ensures Valid() && Steady() && mmu.st.leaf.Keys == old(mmu.st).leaf.Keys
      ensures var admitted := Validate(virt).Ok? && Encloses(old(tracker.Ranges()), virt.Paged());
              && (!admitted ==> r.Err? && mmu.st == old(mmu.st) && orphans == old(orphans)
                                && tracker.committed == old(tracker.committed) && tracker.swapped == old(tracker.swapped))
              && (admitted ==> tracker.committed == Minus(old(tracker.committed), virt.Paged())
                               && tracker.swapped == Minus(old(tracker.swapped), virt.Paged()))
              && (admitted && (forall p: PageNo :: virt.Paged().Has(p) ==> p !in old(demand)) ==> r.Ok?)
              && (admitted ==> SweptOut(old(mmu.st).leaf, mmu.st.leaf, old(tracker.swapped), virt.Paged(), old(tracker.Pieces(virt.Paged()))))
              && (admitted ==> Lists(old(tracker.Pieces(virt.Paged())), Keys(old(tracker.committed), virt.Paged())))
              && (r.Ok? <==> admitted && forall p :: p in old(tracker.committed) && virt.Paged().Has(p) ==> Mapped(old(mmu.st).leaf, p))
      ensures r.Ok? ==> Emptied(old(mmu.st), mmu.st, old(tracker.committed), old(tracker.swapped), virt.Paged())
      ensures r.Err? ==> r.error == if Validate(virt).Err? then Validate(virt).error
                                    else if Encloses(old(tracker.Ranges()), virt.Paged()) then NotCommitted else NotReserved
    {
      hide AddressSpace.Valid, Emptied, TakenOut, Lists, OutUpTo, SweptOut;
      var v := Validate(virt);
      if v.Err? { return v; }
      var range := virt.Paged();
      ghost var s0, c, sw := mmu.st, tracker.committed, tracker.swapped;
      AgreesNow();
      DropSwapEntries(range);
      ghost var s1 := mmu.st;
      var taken := TakeCommitted(range);
      if taken.Err? { return Err(taken.error); }
      r := UnmapSubranges(taken.value, Keys(c, range));
      OutAndCleared(s0, s1, mmu.st, sw, range, taken.value);
      if r.Ok? {
        EmptiedPieces(s0, s1, mmu.st, c, sw, demand, range);
      }
    }

    lemma AgreesNow()
      requires Valid()
      ensures Agree(mmu.st, tracker.committed, tracker.swapped, demand)
    {
    }

    method TakeCommitted(range: Range) returns (r: Result<seq<Range>>)
      requires Valid() && range.count > 0
      modifies tracker
      ensures Valid() && tracker.swapped == old(tracker.swapped) && tracker.Ranges() == old(tracker.Ranges()) && tracker.freeList == old(tracker.freeList)
      ensures r.Ok? <==> Encloses(tracker.Ranges(), range)
      ensures r.Err? ==> r.error == NotReserved && tracker.committed == old(tracker.committed)
      ensures r.Ok? ==> tracker.committed == Minus(old(tracker.committed), range) && Lists(r.value, Keys(old(tracker.committed), range))
                        && r.value == old(tracker.Pieces(range))
      ensures r.Ok? ==> forall i :: 0 <= i < |r.value| ==> UserRange(r.value[i].first, r.value[i].count)
      ensures r.Ok? ==> forall p :: p in Keys(old(tracker.committed), range) ==> p !in mmu.st.dev && (p in demand || Mapped(mmu.st.leaf, p))
    {
      hide Core, Fresh, Agree, DeviceOk, Ledger, PageTable.Valid, Accounted, Lists;
      ghost var c := tracker.committed;
      r := tracker.TakeCommittedIntersections(range);
      AgreeFewer(mmu.st, c, tracker.swapped, demand, range);
      if r.Ok? {
        InWindow(range);
        GrantedPieces(mmu.st, c, tracker.swapped, demand, range);
      }
    }

    method ProtectEach(rs: seq<Range>, flags: PageFlags, ghost pages: set<PageNo>) returns (r: Result<Unit>, ghost done: set<PageNo>)
      requires Valid() && Lists(rs, pages) && pages <= tracker.committed.Keys
      requires forall i :: 0 <= i < |rs| ==> Encloses(tracker.Ranges(), rs[i]) && OneGrant(tracker.committed, rs[i])
      modifies this, mmu, mmu.pt, tracker
      ensures Valid() && Steady() && orphans == old(orphans) && tracker.swapped == old(tracker.swapped)
      ensures done <= pages && (r.Ok? ==> done == pages)
      ensures Flagged(old(tracker.committed), tracker.committed, done, flags) && Painted(old(mmu.st), mmu.st, done, AttrsOf(flags))
      ensures r.Err? ==> r.error == if flags.IsEmpty() then InvalidFlags else NotCommitted
      ensures r.Err? && r.error == NotCommitted ==> exists p :: p in pages && !Mapped(old(mmu.st).leaf, p)
    {
      hide AddressSpace.Valid, RangePages, Lists, Reflagged, Encloses, OneGrant, ReservationTracker.Pieces;
      ghost var s0, c := mmu.st, tracker.committed;
      done := {};
      for i := 0 to |rs|
        invariant Valid() && Steady() && orphans == old(orphans) && tracker.swapped == old(tracker.swapped)
        invariant done == RangePages(rs[..i]) && done <= pages
        invariant Flagged(c, tracker.committed, done, flags) && Painted(s0, mmu.st, done, AttrsOf(flags))
      {
        ListedNext(rs, pages, i);
        ListedCount(rs, pages, i);
        ghost var s, c1, parts := mmu.st, tracker.committed, tracker.Pieces(rs[i]);
        r := ProtectLocked(rs[i], flags);
        if r.Err? {
          StillUnmapped(s0, s, done, pages, rs[i], AttrsOf(flags));
          return;
        }
        FlaggedStep(c, c1, tracker.committed, done, rs[i], flags, parts);
        PaintedStep(s0, s, mmu.st, done, rs[i], AttrsOf(flags));
        done := done + Pages(rs[i].first, rs[i].count);
      }
      assert rs[..|rs|] == rs;
      ListedPages(rs, pages);
      return Ok(Unit), done;
    }

    method CommitEach(rs: seq<Range>, flags: PageFlags, owner: nat, ghost pages: set<PageNo>) returns (r: Result<Unit>, ghost done: set<PageNo>)
      requires Valid() && Lists(rs, pages) && pages !! tracker.committed.Keys
      requires forall i :: 0 <= i < |rs| ==> Encloses(tracker.Ranges(), rs[i])
      modifies this, mmu, mmu.pt, mmu.log, tracker
      ensures Valid() && Steady()
      ensures done <= pages && (r.Ok? ==> done == pages)
      ensures Granted(old(tracker.committed), tracker.committed, done, Grant(flags, owner)) && Filled(old(mmu.st), mmu.st, done, AttrsOf(flags))
      ensures Fewer(old(tracker.swapped), tracker.swapped, done, pages)
      ensures r.Err? ==> if flags.IsEmpty() then r.error == InvalidFlags
                         else r.error == OutOfFrames || (r.error == Overlap && exists p :: p in pages && At(old(mmu.st).leaf, p).Page?)
      ensures Answered(old(mmu.log.refusals), mmu.log.refusals, r) && mmu.log.runs == old(mmu.log.runs)
    {
      hide AddressSpace.Valid, RangePages, Lists, FreshPages, SameOutside, Encloses, SameValid, Fewer;
      ghost var s0, c, sw := mmu.st, tracker.committed, tracker.swapped;
      FewerSelf(sw, pages);
      done := {};
      for i := 0 to |rs|
        invariant Valid() && Steady() && mmu.log.refusals == old(mmu.log.refusals) && mmu.log.runs == old(mmu.log.runs)
        invariant done == RangePages(rs[..i]) && done <= pages
        invariant Granted(c, tracker.committed, done, Grant(flags, owner)) && Filled(s0, mmu.st, done, AttrsOf(flags))
        invariant Fewer(sw, tracker.swapped, done, pages)
      {
        ListedNext(rs, pages, i);
        ListedCount(rs, pages, i);
        ghost var s, c1, sw1 := mmu.st, tracker.committed, tracker.swapped;
        r := CommitLocked(rs[i], flags, owner);
        if r.Err? {
          FilledStop(s0, s, mmu.st, done, pages, rs[i], AttrsOf(flags), r.error);
          FewerStop(sw, sw1, tracker.swapped, done, pages, rs[i]);
          return;
        }
        GrantedStep(c, c1, tracker.committed, done, rs[i], Grant(flags, owner));
        FilledStep(s0, s, mmu.st, done, rs[i], AttrsOf(flags));
        FewerStep(sw, sw1, done, pages, rs[i]);
        done := done + Pages(rs[i].first, rs[i].count);
      }
      assert rs[..|rs|] == rs;
      ListedPages(rs, pages);
      return Ok(Unit), done;
    }

    /** Every page of the range committed with `flags`: pages that already were
        keep their frames, all others get fresh zeroed ones. That includes
        swapped pages, whose contents are thrown away. A refusal part way
        leaves the pages `done` so far, and every other page as it was. */
    method EnsureAccessibleSubranges(virt: VirtRange, flags: PageFlags, owner: nat) returns (r: Result<Unit>, ghost done: set<PageNo>)
      requires Valid()
      modifies this, mmu, mmu.pt, mmu.log, tracker
      ensures Valid() && Steady() && Grows(old(mmu.st), mmu.st) && KeepsBytes(old(mmu.st), mmu.st)
      ensures forall p :: p in done ==> virt.Paged().Has(p)
      ensures r.Ok? ==> Validate(virt).Ok? && Encloses(old(tracker.Ranges()), virt.Paged()) && forall p: PageNo :: virt.Paged().Has(p) ==> p in done
      ensures forall p: PageNo :: p in done ==> Accessed(old(mmu.st), mmu.st, old(tracker.committed), tracker.committed, flags, owner, p)
      ensures forall p: PageNo :: p !in done ==> LeftAsIs(old(mmu.st), mmu.st, old(tracker.committed), tracker.committed, p)
      ensures forall p :: p in old(tracker.swapped) && !virt.Paged().Has(p) ==> p in tracker.swapped
      ensures forall p :: p in tracker.swapped ==> p !in done && p in old(tracker.swapped) && tracker.swapped[p] == old(tracker.swapped)[p]
      ensures r.Err? ==> AccessRefused(old(mmu.st), old(tracker.committed), old(tracker.Ranges()), virt, flags, r.error)
      ensures Answered(old(mmu.log.refusals), mmu.log.refusals, r) && mmu.log.runs == old(mmu.log.runs)
    {
      hide AddressSpace.Valid, Lists, Flagged, Painted, Granted, Filled, Encloses, Accessed, LeftAsIs, Fewer, OneGrant;
      done := {};
      ghost var s0, c, sw := mmu.st, tracker.committed, tracker.swapped;
      NothingAccessed(s0, c, flags);
      var v := Validate(virt);
      if v.Err? { return v, {}; }
      var range := virt.Paged();
      var plan := PlanAccess(range);
      if plan.Err? { return Err(plan.error), {}; }
      ghost var some, rest := Keys(c, range), Ungranted(c, range);
      r, done := ProtectEach(plan.value.protect, flags, some);
      ghost var s1, c1 := mmu.st, tracker.committed;
      AccessProtected(s0, s1, c, c1, done, flags, owner);
      if r.Err? { return; }
      PaintedPages(s0, s1, rest, some, AttrsOf(flags));
      ghost var more;
      r, more := CommitEach(plan.value.commit, flags, owner, rest);
      AccessOutcome(s0, s1, mmu.st, c, c1, tracker.committed, sw, tracker.swapped, more, range, flags, owner);
      done := done + more;
    }

    method PlanAccess(range: Range) returns (r: Result<Plan>)
      requires Valid()
      ensures r.Ok? <==> Encloses(tracker.Ranges(), range)
      ensures r.Err? ==> r.error == NotReserved
      ensures r.Ok? ==> Lists(r.value.protect, Keys(tracker.committed, range)) && Lists(r.value.commit, Ungranted(tracker.committed, range))
      ensures r.Ok? ==> forall i :: 0 <= i < |r.value.protect| ==> Encloses(tracker.Ranges(), r.value.protect[i])
      ensures r.Ok? ==> forall i :: 0 <= i < |r.value.commit| ==> Encloses(tracker.Ranges(), r.value.commit[i])
      ensures r.Ok? ==> forall p :: p in tracker.swapped ==> p !in tracker.committed
      ensures r.Ok? ==> forall i :: 0 <= i < |r.value.protect| ==> OneGrant(tracker.committed, r.value.protect[i])
    {
      hide Core, Fresh, Agree, DeviceOk, Ledger, PageTable.Valid, Accounted, Lists;
      r := tracker.AccessibilityPlan(range);
      if r.Ok? {
        ListedInside(tracker.Ranges(), range, r.value.protect, Keys(tracker.committed, range));
        ListedInside(tracker.Ranges(), range, r.value.commit, Ungranted(tracker.committed, range));
      }
    }

    // ---- Demand commit

    /** Leaf tables for the whole range and an entry on the record, no page
        mapped. Swap tokens in the range are orphaned without their descriptors
        being cleared, so page table and record agree afterwards exactly when
        the range held no swapped page and no device page. */
    method PrepareDemandCommit(virt: VirtRange, flags: PageFlags) returns (r: Result<Unit>)
      requires Valid()
      modifies this, mmu, mmu.pt, tracker
      ensures Grows(old(mmu.st), mmu.st) && Steady()
      ensures r.Ok? <==> Validate(virt).Ok? && !flags.IsEmpty() && Encloses(old(tracker.Ranges()), virt.Paged())
                         && forall p :: virt.Paged().Has(p) ==> p !in old(tracker.committed)
      ensures r.Err? ==> Valid() && mmu.st == old(mmu.st) && unchanged(this) && unchanged(tracker)
      ensures r.Ok? ==> mmu.st == old(mmu.st).(leaf := mmu.st.leaf) && forall p: PageNo :: At(mmu.st.leaf, p) == At(old(mmu.st).leaf, p)
      ensures r.Ok? ==> forall p: PageNo :: virt.Paged().Has(p) ==> p in mmu.st.leaf && p in demand
      ensures r.Ok? ==> tracker.committed == Plus(old(tracker.committed), virt.Paged(), Grant(flags, NO_OWNER))
                        && tracker.swapped == Minus(old(tracker.swapped), virt.Paged())
      ensures r.Ok? ==> mmu.Valid() && tracker.Pieces(virt.Paged()) == [virt.Paged()]
      ensures r.Ok? ==> (Valid() <==> forall p: PageNo :: virt.Paged().Has(p) ==> p !in old(tracker.swapped) && p !in old(mmu.st).dev)
      ensures r.Err? ==> r.error == if Validate(virt).Err? then Validate(virt).error
                                    else if flags.IsEmpty() then InvalidFlags
                                    else if Encloses(old(tracker.Ranges()), virt.Paged()) then Overlap else NotReserved
    {
      hide Core, Fresh, Agree, DeviceOk, Ledger, PageTable.Valid, ReservationTracker.Valid, Accounted;
      var v := Validate(virt);
      if v.Err? { return v; }
      var pte := PageFlagsToPte(flags);
      if pte.Err? { return Err(pte.error); }
      var range := virt.Paged();
      var check := tracker.PrecheckCommit(range);
      if check.Err? { return check; }
      InWindow(range);
      PrepareAdmitted(range, flags);
      return Ok(Unit);
    }

    method PrepareAdmitted(range: Range, flags: PageFlags)
      requires Valid() && range.count > 0 && !flags.IsEmpty() && Encloses(tracker.Ranges(), range) && UserRange(range.first, range.count)
      requires forall p: PageNo :: range.Has(p) ==> p !in tracker.committed
      modifies this`orphans, this`demand, mmu, mmu.pt, tracker
      ensures Grows(old(mmu.st), mmu.st) && tracker.Ranges() == old(tracker.Ranges()) && tracker.freeList == old(tracker.freeList)
      ensures mmu.st == old(mmu.st).(leaf := mmu.st.leaf) && forall p: PageNo :: At(mmu.st.leaf, p) == At(old(mmu.st).leaf, p)
      ensures forall p: PageNo :: range.Has(p) ==> p in mmu.st.leaf && p in demand
      ensures tracker.committed == Plus(old(tracker.committed), range, Grant(flags, NO_OWNER))
      ensures tracker.swapped == Minus(old(tracker.swapped), range)
      ensures mmu.Valid() && tracker.Pieces(range) == [range]
      ensures Valid() <==> forall p: PageNo :: range.Has(p) ==> p !in old(tracker.swapped) && p !in old(mmu.st).dev
    {
      hide Core, Fresh, Agree, DeviceOk, Ledger, PageTable.Valid, ReservationTracker.Valid, Accounted, Records;
      ghost var s0, c, sw := mmu.st, tracker.committed, tracker.swapped;
      mmu.PrepareBlocks(range.first, range.count);
      assert forall p: PageNo :: range.Has(p) <==> In(p, range.first, range.count);
      var taken := tracker.RecordCommit(range, Grant(flags, NO_OWNER));
      LedgerOrphan(sw, orphans, issued, settled, range, taken.value);
      Orphan(taken.value);
      AgreeDemand(s0, mmu.st, c, sw, demand, range, Grant(flags, NO_OWNER));
      DeviceSame(devices, s0, mmu.st, mmu.pool);
      demand := demand + Pages(range.first, range.count);
    }

    /** The fault-time commit. It reports a range that was never prepared only
        when the page has no leaf table, and it overwrites a swap descriptor:
        the record stays right exactly when the page is not on it as swapped. */
    method CommitDemandPage(addr: nat, frame: Frame, flags: PageFlags) returns (r: Result<Unit>)
      requires Valid() && UserPage(addr / PAGE) && frame in mmu.st.lent
      modifies mmu, mmu.pt
      ensures mmu.Valid() && (r.Err? ==> Valid())
      ensures r.Ok? ==> (Valid() <==> addr / PAGE !in tracker.swapped)
      ensures r == if addr % PAGE != 0 then Err(Misaligned)
                   else if flags.IsEmpty() then Err(InvalidFlags)
                   else if addr / PAGE !in old(mmu.st).leaf then Err(NotDemandCommit)
                   else if old(mmu.st).leaf[addr / PAGE].Page? then Err(Overlap)
                   else Ok(Unit)
      ensures mmu.st == if r.Ok? then MapLent(old(mmu.st), addr / PAGE, frame, AttrsOf(flags)) else old(mmu.st)
    {
      hide Core, Fresh, Agree, DeviceOk, Ledger, PageTable.Valid, ReservationTracker.Valid, Accounted;
      if addr % PAGE != 0 { return Err(Misaligned); }
      var pte := PageFlagsToPte(flags);
      if pte.Err? { return Err(pte.error); }
      var p := addr / PAGE;
      ghost var s0 := mmu.st;
      r := mmu.CommitLent(p, frame, pte.value);
      if r.Ok? {
        AgreeLent(s0, mmu.st, mmu.pool, tracker.committed, tracker.swapped, demand, p, frame, pte.value);
        DevicePageOnly(devices, s0, mmu.st, mmu.pool, p);
      }
    }

    /** The region goes off the record and its mapped pages are unmapped. No
        frame went back under a live translation, and the address space is as
        good as before, exactly when no batch of its mapped pages has a gap. */
    method EndDemandCommit(virt: VirtRange, mapped: VirtRange) returns (r: Result<Unit>)
      requires Valid()
      modifies this, mmu, mmu.pt, tracker
      ensures mmu.st.leaf.Keys == old(mmu.st).leaf.Keys && orphans == old(orphans) && Steady() && tracker.swapped == old(tracker.swapped)
      ensures r.Ok? <==> Validate(virt).Ok? && virt.Encloses(mapped) && Encloses(old(tracker.Ranges()), virt.Paged())
                         && forall p: PageNo :: virt.Paged().Has(p) ==> p in old(tracker.committed)
      ensures r.Err? ==> Valid() && mmu.st == old(mmu.st) && tracker.committed == old(tracker.committed)
      ensures r.Ok? ==> mmu.st.leaf == Gone(old(mmu.st).leaf, mapped.Stepped().first, mapped.Stepped().count)
                        && tracker.committed == Minus(old(tracker.committed), virt.Paged())
      ensures r.Ok? ==> mmu.st.dev == old(mmu.st).dev
      ensures r.Ok? ==> mmu.Valid() && (mmu.st.tainted <==> !OneRun(Hits(old(mmu.st).leaf, mapped.Stepped().first, mapped.Stepped().count)))
      ensures r.Ok? ==> (Valid() <==> OneRun(Hits(old(mmu.st).leaf, mapped.Stepped().first, mapped.Stepped().count)))
      ensures r.Err? ==> r.error == if Validate(virt).Err? then Validate(virt).error
                                    else if !virt.Encloses(mapped) then NotDemandCommit
                                    else if Encloses(old(tracker.Ranges()), virt.Paged()) then NotCommitted else NotReserved
    {
      hide AddressSpace.Valid, OneRun, Hits, Gone;
      var v := Validate(virt);
      if v.Err? { return v; }
      if !virt.Encloses(mapped) { return Err(NotDemandCommit); }
      SteppedInside(virt, mapped);
      var range, inner := virt.Paged(), mapped.Stepped();
      ghost var s0 := mmu.st;
      var recorded := RecordDecommitted(range);
      if recorded.Err? { return Err(recorded.error); }
      UnmapDemandRecorded(range, inner);
      GoneKeys(s0.leaf, inner.first, inner.count);
      return Ok(Unit);
    }

    /** `unmap_demand_pages` on a region that is off the record. */
    method UnmapDemandRecorded(range: Range, inner: Range)
      requires Valid() && UserRange(range.first, range.count) && range.Encloses(inner)
      requires forall p: PageNo :: range.Has(p) ==> p !in mmu.st.dev && p !in tracker.committed
      modifies this`demand, mmu, mmu.pt
      ensures mmu.Valid() && mmu.st.leaf == Gone(old(mmu.st).leaf, inner.first, inner.count) && mmu.st.dev == old(mmu.st).dev
      ensures mmu.st.tainted <==> !OneRun(Hits(old(mmu.st).leaf, inner.first, inner.count))
      ensures Valid() <==> OneRun(Hits(old(mmu.st).leaf, inner.first, inner.count))
    {
      hide Core, Fresh, Agree, DeviceOk, Ledger, PageTable.Valid, ReservationTracker.Valid, Accounted, OneRun, Hits, Gone;
      ghost var s0, c := mmu.st, tracker.committed;
      assert forall p :: In(p, inner.first, inner.count) ==> range.Has(p);
      mmu.UnmapDemandPages(inner.first, inner.count);
      AgreeGoneDemand(s0, mmu.st, c, tracker.swapped, demand, range, inner);
      assert Minus(c, range) == c;
      DeviceGoneDemand(devices, s0, mmu.st, mmu.pool, inner);
      demand := demand - Pages(range.first, range.count);
    }

    /** A zeroed frame for the fault-time reserve. */
    method Lend() returns (r: Option<Frame>)
      requires Valid()
      modifies mmu, mmu.log
      ensures Valid()
      ensures r.None? ==> mmu.st == old(mmu.st)
      ensures r.Some? ==> r.value in old(mmu.st).free && mmu.st == Machine.Lend(old(mmu.st), r.value)
      ensures mmu.log.refusals == old(mmu.log.refusals) + (if r.None? then 1 else 0) && mmu.log.runs == old(mmu.log.runs)
    {
      hide Core, Fresh, Agree, DeviceOk, Ledger, PageTable.Valid, ReservationTracker.Valid, Accounted;
      ghost var s0 := mmu.st;
      r := mmu.LendFrame();
      LentQuiet(s0, mmu.st);
      AgreeSame(s0, mmu.st, tracker.committed, tracker.swapped, demand);
      DeviceSame(devices, s0, mmu.st, mmu.pool);
    }

    /** `translate`: what the record grants, if a page stands behind it. */
    method Translate(addr: nat) returns (r: Translation)
      requires Valid()
      ensures var p := addr / PAGE;
              r == if !(USER_FIRST <= p < USER_END) || !InSome(tracker.Ranges(), p) then Translation.Unmapped
                   else if p in tracker.committed && Mapped(mmu.st.leaf, p)
                        then Translation.Committed(mmu.st.leaf[p].frame, tracker.committed[p].flags)
                   else Translation.Reserved
    {
      hide Core, Fresh, Agree, DeviceOk, Ledger, PageTable.Valid, Accounted;
      var p := addr / PAGE;
      if !(USER_FIRST <= p < USER_END) { return Translation.Unmapped; }
      var found := tracker.LookupPage(p);
      match found {
        case Unreserved => return Translation.Unmapped;
        case Reserved => return Translation.Reserved;
        case Committed(grant) =>
          GrantedSomewhere(p);
          var entry := mmu.pt.Translate4k(p);
          if entry.None? { return Translation.Reserved; }
          return Translation.Committed(entry.value.frame, grant.flags);
      }
    }

    lemma GrantedSomewhere(p: PageNo)
      requires tracker.Valid() && p in tracker.committed
      ensures InSome(tracker.Ranges(), p)
    {
    }
  }
}
