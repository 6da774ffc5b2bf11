/** Page-table stores, frame traffic and TLB maintenance together: the
    multi-page loops of the address space with their batches and rollbacks.
    Everything is stated on `st`, one `Machine.State`. */
module Mmus {
  import opened Options
  import opened Blocks
  import opened PageWalk
  import opened PageTables
  import opened Machine
  import opened Runs
  import opened DemandRuns
  import opened DeviceRuns

  /** What the frame pool has answered: how often it refused, and the runs it
      gave out. */
  class PoolLog {
    var refusals: nat
    var runs: seq<Frame>

    constructor ()
      ensures refusals == 0 && runs == []
    {
      refusals, runs := 0, [];
    }
  }

  /** The pool refused once if `OutOfFrames` is reported, and not at all
      otherwise. */
  predicate Answered<T>(before: nat, after: nat, r: Result<T>) {
    after == before + if r.Err? && r.error == OutOfFrames then 1 else 0
  }

  class Mmu {
    const pt: PageTable
    const log: PoolLog
    ghost const pool: set<Frame>
    var free: set<Frame>
    var lent: set<Frame>
    var mem: map<Frame, Bytes>
    ghost var st: State

    ghost predicate Valid()
      reads this, pt
    {
      && pt.Valid() && Core(st, pool)
      && st.leaf == pt.flat && st.free == free && st.lent == lent && st.mem == mem
    }

    constructor (table: PageTable, frames: map<Frame, Bytes>)
      requires table.Valid() && table.flat == map[]
      ensures pt == table && pool == frames.Keys && Valid() && fresh(log) && log.refusals == 0 && log.runs == []
      ensures st == State(map[], {}, frames.Keys, {}, {}, {}, map[], frames, {}, false)
    {
      pt := table;
      log := new PoolLog();
      pool, free, lent, mem := frames.Keys, frames.Keys, {}, frames;
      st := State(map[], {}, frames.Keys, {}, {}, {}, map[], frames, {}, false);
    }

    // ---- Elementary operations

    /** The pool may refuse at any time, and must when it is empty. */
    method AllocUserFrame() returns (r: Result<Frame>)
      requires Valid()
      modifies this, log
      ensures Valid()
      ensures r.Err? ==> r.error == OutOfFrames && st == old(st)
      ensures r.Ok? ==> r.value in old(st).free && st == Alloc(old(st), r.value)
      ensures log.refusals == old(log.refusals) + (if r.Err? then 1 else 0) && log.runs == old(log.runs)
    {
      var declined := free == {};
      if * { declined := true; }
      if declined {
        log.refusals := log.refusals + 1;
        return Err(OutOfFrames);
      }
      var f :| f in free;
      AllocKeeps(st, pool, f);
      st := Alloc(st, f);
      free, mem := free - {f}, mem[f := Zeroed()];
      return Ok(f);
    }

    method DeallocUserPhys(f: Frame)
      requires Valid() && f in st.limbo
      modifies this
      ensures Valid() && st == Dealloc(old(st), f)
    {
      DeallocKeeps(st, pool, f);
      st := Dealloc(st, f);
      free := free + {f};
    }

    method FlushTlbPages(first: PageNo, n: nat)
      requires Valid()
      modifies this
      ensures Valid() && st == Flush(old(st), first, n)
    {
      FlushKeeps(st, pool, first, n);
      st := Flush(st, first, n);
    }

    method MapPage(p: PageNo, f: Frame, attrs: Attrs) returns (r: Result<Unit>)
      requires Valid() && UserPage(p) && f in st.limbo
      modifies this, pt
      ensures Valid()
      ensures r == if Mapped(old(st).leaf, p) then Err(Overlap) else Ok(Unit)
      ensures st == if r.Ok? then Map(old(st), p, f, attrs) else old(st)
    {
      r := pt.Map4kNoFlush(p, f, attrs);
      if r.Ok? {
        MapKeeps(st, pool, p, f, attrs);
        st := Map(st, p, f, attrs);
      }
    }

    method UnmapPage(p: PageNo, ghost lo: int, ghost hi: int) returns (r: Result<Descriptor>)
      requires Valid() && UserPage(p) && p !in st.dev
      requires StaleWithin(st, lo, hi) && lo <= p < hi
      modifies this, pt
      ensures Valid() && StaleWithin(st, lo, hi)
      ensures r == if Mapped(old(st).leaf, p) then Ok(old(st).leaf[p]) else Err(NotCommitted)
      ensures st == if r.Ok? then Detach(old(st), p, Absent) else old(st)
      ensures r.Ok? ==> r.value.frame !in old(st).limbo
    {
      r := pt.Unmap4kNoFlush(p);
      if r.Ok? {
        DetachKeeps(st, pool, p, Absent, lo, hi);
        st := Detach(st, p, Absent);
      }
    }

    /** Invalidates first, gives the frames back second. */
    method FlushAndDealloc(first: PageNo, entries: seq<Descriptor>)
      requires Valid() && DistinctFrames(entries) && FramesOf(entries) <= st.limbo
      modifies this
      ensures Valid() && st == GiveBack(Flush(old(st), first, |entries|), FramesOf(entries))
    {
      FlushTlbPages(first, |entries|);
      ghost var s := st;
      assert entries[..0] == [] && GiveBack(s, FramesOf([])) == s;
      for i := 0 to |entries|
        invariant Valid()
        invariant st == GiveBack(s, FramesOf(entries[..i]))
      {
        var f := entries[i].frame;
        assert f in FramesOf(entries);
        assert entries[..i + 1] == entries[..i] + [entries[i]];
        FramesAppend(entries[..i], entries[i]);
        GiveBackStep(s, FramesOf(entries[..i]), f);
        DeallocUserPhys(f);
      }
      assert entries[..|entries|] == entries;
    }

    // ---- Batched unmapping

    method UnmapInto(ghost s0: State, ghost first: PageNo, ghost done: nat, ghost start: PageNo, ghost batch: seq<Descriptor>, page: PageNo)
      returns (r: Result<Descriptor>)
      requires Valid() && Batching(s0, st, pool, first, done, start, batch)
      requires page == first + done == start + |batch| && UserPage(page) && page !in s0.dev
      modifies this, pt
      ensures Valid()
      ensures r == if Mapped(s0.leaf, page) then Ok(s0.leaf[page]) else Err(NotCommitted)
      ensures r.Err? ==> st == old(st)
      ensures r.Ok? ==> Batching(s0, st, pool, first, done + 1, start, batch + [r.value])
    {
      ghost var s := st;
      r := UnmapPage(page, start, page + 1);
      if r.Ok? { BatchPush(s0, s, pool, first, done, start, batch, page); }
    }

    /** `decommit_mapped_range`: unmaps until the end or the first hole. */
    method DecommitMappedRange(first: PageNo, n: nat) returns (r: Result<Unit>, done: nat)
      requires Valid() && Fresh(st) && UserRange(first, n)
      requires forall p :: In(p, first, n) ==> p !in st.dev
      modifies this, pt
      ensures Valid() && Fresh(st)
      ensures done <= n && AllMapped(old(st).leaf, first, done)
      ensures r == if done == n then Ok(Unit) else Err(NotCommitted)
      ensures done < n ==> !Mapped(old(st).leaf, first + done)
      ensures st == old(st).(leaf := Blanked(old(st).leaf, first, done), free := st.free, home := st.home, tlb := st.tlb)
    {
      hide Core, Batching, Fresh, PageTable.Valid;
      ghost var s0 := st;
      var batch := new Descriptor[BATCH](_ => Absent);
      var count: nat, start: PageNo := 0, first;
      BatchStart(st, pool, first);
      done := 0;
      while done < n
        invariant 0 <= done <= n && 0 <= count < BATCH
        invariant Valid() && Batching(s0, st, pool, first, done, start, batch[..count])
        invariant count > 0 ==> start + count == first + done
        invariant AllMapped(s0.leaf, first, done)
      {
        var page := first + done;
        if count == 0 {
          BatchRestart(s0, st, pool, first, done, start, page);
          start := page;
        }
        var entry := UnmapInto(s0, first, done, start, batch[..count], page);
        if entry.Err? {
          FlushBatch(s0, first, done, start, batch[..count]);
          BatchDone(s0, st, pool, first, done, start);
          return Err(NotCommitted), done;
        }
        ghost var held := batch[..count];
        batch[count] := entry.value;
        count := count + 1;
        assert batch[..count] == held + [entry.value];
        done := done + 1;
        if count == BATCH {
          FlushBatch(s0, first, done, start, batch[..count]);
          count := 0;
        }
      }
      FlushBatch(s0, first, done, start, batch[..count]);
      BatchDone(s0, st, pool, first, done, start);
      return Ok(Unit), done;
    }

    method FlushBatch(ghost s0: State, ghost first: PageNo, ghost done: nat, start: PageNo, batch: seq<Descriptor>)
      requires Valid() && Batching(s0, st, pool, first, done, start, batch)
      modifies this
      ensures Valid() && Batching(s0, st, pool, first, done, start, [])
    {
      if batch == [] { return; }
      BatchFlush(s0, st, pool, first, done, start, batch);
      FlushAndDealloc(start, batch);
    }

    /** `rollback_partial_commit`: every page it is given is mapped, so its
        panic is out of reach. */
    method RollbackPartialCommit(first: PageNo, n: nat)
      requires Valid() && Fresh(st) && UserRange(first, n) && AllMapped(st.leaf, first, n)
      requires forall p :: In(p, first, n) ==> p !in st.dev
      modifies this, pt
      ensures Valid() && Fresh(st)
      ensures st == old(st).(leaf := Blanked(old(st).leaf, first, n), free := st.free, home := st.home, tlb := st.tlb)
    {
      hide Core, Batching, Fresh, PageTable.Valid;
      ghost var s0 := st;
      AllMappedMeans(st.leaf, first, n);
      var batch := new Descriptor[BATCH](_ => Absent);
      var count: nat, start: PageNo := 0, first;
      BatchStart(st, pool, first);
      for done := 0 to n
        invariant 0 <= count < BATCH
        invariant Valid() && Batching(s0, st, pool, first, done, start, batch[..count])
        invariant count > 0 ==> start + count == first + done
      {
        var page := first + done;
        if count == 0 {
          BatchRestart(s0, st, pool, first, done, start, page);
          start := page;
        }
        var entry := UnmapInto(s0, first, done, start, batch[..count], page);
        assert Mapped(s0.leaf, page) && entry.Ok?;
        ghost var held := batch[..count];
        batch[count] := entry.value;
        count := count + 1;
        assert batch[..count] == held + [entry.value];
        if count == BATCH {
          FlushBatch(s0, first, done + 1, start, batch[..count]);
          count := 0;
        }
      }
      FlushBatch(s0, first, n, start, batch[..count]);
      BatchDone(s0, st, pool, first, n, start);
    }

    // ---- Commit

    /** The mapping loop of `commit_locked`, after the swap descriptors of the
        range are gone. */
    method CommitPages(first: PageNo, n: nat, attrs: Attrs) returns (r: Result<Unit>)
      requires Valid() && Fresh(st) && st.limbo == {} && UserRange(first, n)
      requires forall p :: In(p, first, n) ==> !At(st.leaf, p).Swap?
      modifies this, pt, log
      ensures Valid()
      ensures r.Ok? ==> Committing(old(st), st, pool, first, n, attrs)
      ensures r.Err? ==> Untouched(old(st), st)
      ensures r.Err? ==> r.error == OutOfFrames || (r.error == Overlap && exists p :: In(p, first, n) && At(old(st).leaf, p).Page?)
      ensures Answered(old(log.refusals), log.refusals, r) && log.runs == old(log.runs)
    {
      assert forall p :: p in st.leaf ==> st.leaf[p].IsLeaf();
      hide Core, Fresh, Committing, PageTable.Valid;
      ghost var s0 := st;
      CommitStart(st, pool, first, attrs);
      for done := 0 to n
        invariant Valid() && Committing(s0, st, pool, first, done, attrs)
        invariant log.refusals == old(log.refusals) && log.runs == old(log.runs)
      {
        var page := first + done;
        var frame := CommitOne(s0, first, done, attrs, page);
        if frame.Err? {
          UndoCommit(s0, first, done, attrs);
          assert frame.error == Overlap ==> In(page, first, n);
          return frame;
        }
      }
      ghost var s := st;
      CommitFresh(s0, st, pool, first, n, attrs);
      FlushTlbPages(first, n);
      FlushFresh(s, first, n);
      return Ok(Unit);
    }

    method CommitOne(ghost s0: State, ghost first: PageNo, ghost done: nat, attrs: Attrs, page: PageNo) returns (r: Result<Unit>)
      requires Valid() && Committing(s0, st, pool, first, done, attrs) && s0.limbo == {}
      requires page == first + done && UserPage(page) && !At(s0.leaf, page).Swap? && forall p :: p in s0.leaf ==> s0.leaf[p].IsLeaf()
      modifies this, pt, log
      ensures Valid()
      ensures r.Ok? ==> Committing(s0, st, pool, first, done + 1, attrs)
      ensures r.Err? ==> Committing(s0, st, pool, first, done, attrs)
      ensures r.Err? ==> r.error == OutOfFrames || (r.error == Overlap && At(s0.leaf, page).Page?)
      ensures Answered(old(log.refusals), log.refusals, r) && log.runs == old(log.runs)
    {
      hide Core, Fresh, PageTable.Valid;
      ghost var s := st;
      assert At(s.leaf, page) == At(s0.leaf, page);
      var frame := AllocUserFrame();
      if frame.Err? { return Err(OutOfFrames); }
      var mapped := MapPage(page, frame.value, attrs);
      if mapped.Err? {
        DeallocUserPhys(frame.value);
        CommitOneBack(s0, s, pool, first, done, attrs, frame.value);
        return Err(Overlap);
      }
      CommitStep(s0, s, pool, first, done, attrs, frame.value);
      return Ok(Unit);
    }

    method UndoCommit(ghost s0: State, first: PageNo, done: nat, ghost attrs: Attrs)
      requires Valid() && Core(s0, pool) && Committing(s0, st, pool, first, done, attrs) && UserRange(first, done)
      modifies this, pt
      ensures Valid() && Untouched(s0, st)
    {
      ghost var s := st;
      CommittedMapped(s0, s, pool, first, done, attrs);
      RollbackPartialCommit(first, done);
      CommitUndone(s0, s, st, pool, first, done, attrs);
    }

    // ---- Protect

    /** New attributes for every page, or, when a page has no valid leaf, the
        old attributes back on every page already changed. */
    method ProtectPages(first: PageNo, n: nat, attrs: Attrs) returns (r: Result<Unit>)
      requires Valid() && Fresh(st) && UserRange(first, n)
      modifies this, pt
      ensures Valid() && Fresh(st)
      ensures r.Ok? <==> forall p: PageNo :: In(p, first, n) ==> Mapped(old(st).leaf, p)
      ensures r.Ok? ==> st == old(st).(leaf := Repainted(old(st).leaf, first, n, attrs), tlb := st.tlb)
      ensures r.Err? ==> r.error == NotCommitted && st == old(st).(tlb := st.tlb)
    {
      hide Core, Fresh, Protecting, PageTable.Valid;
      ghost var s0 := st;
      var entries: seq<Descriptor> := [];
      ProtectStart(st, pool, first, first, attrs);
      for done := 0 to n
        invariant Valid() && |entries| == done
        invariant Protecting(s0, st, pool, first, done, first + done, attrs, entries)
        invariant forall p: PageNo :: In(p, first, done) ==> Mapped(s0.leaf, p)
      {
        var entry := ProtectOne(s0, first, attrs, entries, first + done);
        if entry.Err? {
          assert In(first + done, first, n);
          RollbackPartialProtect(s0, first, attrs, entries);
          FlushKeeps(st, pool, first, done);
          FlushTlbPages(first, done);
          return Err(NotCommitted);
        }
        entries := entries + [entry.value];
      }
      ProtectFlush(s0, st, pool, first, n, first + n, attrs, entries);
      FlushTlbPages(first, n);
      return Ok(Unit);
    }

    method ProtectOne(ghost s0: State, ghost first: PageNo, attrs: Attrs, ghost entries: seq<Descriptor>, page: PageNo)
      returns (r: Result<Descriptor>)
      requires page == first + |entries| && UserPage(page)
      requires Valid() && Protecting(s0, st, pool, first, |entries|, page, attrs, entries)
      modifies this, pt
      ensures Valid()
      ensures r == if Mapped(s0.leaf, page) then Ok(s0.leaf[page]) else Err(NotCommitted)
      ensures r.Err? ==> st == old(st)
      ensures r.Ok? ==> Protecting(s0, st, pool, first, |entries| + 1, page + 1, attrs, entries + [r.value])
    {
      hide Core;
      ProtectWiden(s0, st, pool, first, |entries|, page, attrs, entries);
      r := pt.Protect4kNoFlush(page, attrs);
      if r.Ok? {
        ReprotectKeeps(st, pool, page, attrs, first, page + 1);
        ProtectStep(s0, st, pool, first, |entries|, page + 1, attrs, entries);
        st := Reprotect(st, page, attrs);
      }
    }

    /** `rollback_partial_protect`: last page first, each replace finding the
        valid leaf it needs. */
    method RollbackPartialProtect(ghost s0: State, first: PageNo, ghost attrs: Attrs, entries: seq<Descriptor>)
      requires Valid() && Protecting(s0, st, pool, first, |entries|, first + |entries|, attrs, entries)
      requires UserRange(first, |entries|)
      modifies this, pt
      ensures Valid() && st == s0.(tlb := st.tlb) && StaleWithin(st, first, first + |entries|)
    {
      hide Core, Protecting, PageTable.Valid;
      var left := |entries|;
      assert entries[..left] == entries;
      while left > 0
        invariant 0 <= left <= |entries| && Valid()
        invariant Protecting(s0, st, pool, first, left, first + |entries|, attrs, entries[..left])
      {
        left := left - 1;
        UnprotectOne(s0, first, first + |entries|, attrs, entries[..left + 1], first + left, entries[left]);
        assert entries[..left + 1][..left] == entries[..left];
      }
      ProtectNone(s0, st, pool, first, first + |entries|, attrs, entries[..0]);
    }

    method UnprotectOne(ghost s0: State, ghost first: PageNo, ghost hi: nat, ghost attrs: Attrs, ghost entries: seq<Descriptor>, page: PageNo, entry: Descriptor)
      requires Valid() && |entries| > 0 && Protecting(s0, st, pool, first, |entries|, hi, attrs, entries)
      requires page == first + |entries| - 1 && UserPage(page) && entry == entries[|entries| - 1]
      modifies this, pt
      ensures Valid() && Protecting(s0, st, pool, first, |entries| - 1, hi, attrs, entries[..|entries| - 1])
    {
      hide Core, Protecting, PageTable.Valid;
      UnprotectStep(s0, st, pool, first, |entries|, hi, attrs, entries);
      var replaced := pt.Replace4k(page, entry);
      assert replaced.Ok?;
      ProtectingCore(s0, Reprotect(st, page, entry.attrs), pool, first, |entries| - 1, hi, attrs, entries[..|entries| - 1]);
      st := Reprotect(st, page, entry.attrs);
      ProtectingFlush(s0, st, pool, first, |entries| - 1, hi, attrs, entries[..|entries| - 1], page);
      FlushTlbPages(page, 1);
    }

    // ---- Relocate

    method CopyFrame(from: Frame, to: Frame)
      requires Valid() && from in mem && to in pool
      modifies this
      ensures Valid() && st == Fill(old(st), to, old(st).mem[from])
    {
      FillKeeps(st, pool, to, mem[from]);
      st := Fill(st, to, mem[from]);
      mem := mem[to := mem[from]];
    }

    /** Gives back frames the operation still holds, one by one. */
    method DeallocAll(frames: seq<Frame>, ghost all: set<Frame>)
      requires Valid() && all == (set i | 0 <= i < |frames| :: frames[i]) && all <= st.limbo
      requires forall i, j :: 0 <= i < j < |frames| ==> frames[i] != frames[j]
      modifies this
      ensures Valid() && st == GiveBack(old(st), all)
    {
      ghost var s := st;
      ghost var done: set<Frame> := {};
      assert GiveBack(s, {}) == s;
      for i := 0 to |frames|
        invariant Valid() && st == GiveBack(s, done)
        invariant done == set j | 0 <= j < i :: frames[j]
      {
        assert frames[i] in all;
        GiveBackStep(s, done, frames[i]);
        DeallocUserPhys(frames[i]);
        done := done + {frames[i]};
      }
    }

    method DeallocTargets(plan: seq<PlanPage>)
      requires Valid() && Targets(plan) <= st.limbo
      requires forall i, j :: 0 <= i < j < |plan| ==> plan[i].to != plan[j].to
      modifies this
      ensures Valid() && st == GiveBack(old(st), Targets(plan))
    {
      var frames := seq(|plan|, i requires 0 <= i < |plan| => plan[i].to);
      TargetsAsList(plan, frames);
      DeallocAll(frames, Targets(plan));
    }

    method DeallocSources(plan: seq<PlanPage>, ghost s0: State, ghost first: PageNo)
      requires Valid() && Sources(plan) <= st.limbo && Core(s0, pool) && PlanFor(s0, first, plan)
      modifies this
      ensures Valid() && st == GiveBack(old(st), Sources(plan))
    {
      SourcesDistinct(s0, pool, first, plan);
      var frames := seq(|plan|, i requires 0 <= i < |plan| => if plan[i].old_.Page? then plan[i].old_.frame else 0);
      assert forall i :: 0 <= i < |plan| ==> plan[i].old_.Page? && frames[i] == plan[i].old_.frame;
      SourcesAsList(plan, frames);
      DeallocAll(frames, Sources(plan));
    }

    /** A fresh copy of every page, or nothing held. */
    method BuildRelocationPlan(first: PageNo, n: nat) returns (r: Result<seq<PlanPage>>)
      requires Valid() && Fresh(st) && UserRange(first, n)
      requires forall p :: In(p, first, n) ==> p !in st.dev
      modifies this, log
      ensures Valid()
      ensures r.Ok? ==> |r.value| == n && Planning(old(st), st, pool, first, r.value)
      ensures r.Err? ==> Untouched(old(st), st)
      ensures r.Err? ==> r.error == OutOfFrames || (r.error == NotCommitted && exists p :: In(p, first, n) && !At(old(st).leaf, p).Page?)
      ensures Answered(old(log.refusals), log.refusals, r) && log.runs == old(log.runs)
    {
      hide Core, Fresh, Planning, PageTable.Valid;
      ghost var s0 := st;
      var plan: seq<PlanPage> := [];
      PlanStart(st, pool, first);
      for done := 0 to n
        invariant Valid() && |plan| == done && Planning(s0, st, pool, first, plan)
        invariant log.refusals == old(log.refusals) && log.runs == old(log.runs)
      {
        assert In(first + done, first, n);
        var next := PlanOne(s0, first, plan, first + done);
        if next.Err? {
          PlanHeld(s0, st, pool, first, plan);
          ghost var s := st;
          DeallocTargets(plan);
          PlanAborted(s0, s, pool, first, plan);
          return Err(next.error);
        }
        plan := plan + [next.value];
      }
      return Ok(plan);
    }

    method PlanOne(ghost s0: State, ghost first: PageNo, ghost plan: seq<PlanPage>, page: PageNo) returns (r: Result<PlanPage>)
      requires Valid() && Core(s0, pool) && Planning(s0, st, pool, first, plan)
      requires page == first + |plan| && UserPage(page) && page !in s0.dev
      modifies this, log
      ensures Valid()
      ensures r.Err? ==> Planning(s0, st, pool, first, plan)
      ensures r.Err? ==> r.error == OutOfFrames || (r.error == NotCommitted && !At(s0.leaf, page).Page?)
      ensures r.Ok? ==> Planning(s0, st, pool, first, plan + [r.value])
      ensures Answered(old(log.refusals), log.refusals, r) && log.runs == old(log.runs)
    {
      hide Core, Fresh, PageTable.Valid;
      var entry := pt.Translate4k(page);
      if entry.None? { return Err(NotCommitted); }
      ghost var s := st;
      var frame := AllocUserFrame();
      if frame.Err? { return Err(OutOfFrames); }
      PlanStep(s0, s, pool, first, plan, frame.value, entry.value);
      PoolKnown(s, pool, frame.value);
      CopyFrame(entry.value.frame, frame.value);
      return Ok(PlanPage(page, entry.value, frame.value));
    }

    /** `relocate` below the tracker check. No replace can fail once the plan
        stands, because the plan saw every page valid. */
    method RelocatePages(first: PageNo, n: nat) returns (r: Result<Unit>)
      requires Valid() && Fresh(st) && UserRange(first, n)
      requires forall p :: In(p, first, n) ==> p !in st.dev
      modifies this, pt, log
      ensures Valid()
      ensures r.Ok? ==> Relocated(old(st), st, first, n)
      ensures r.Err? ==> Untouched(old(st), st)
      ensures r.Err? ==> r.error == OutOfFrames || (r.error == NotCommitted && exists p :: In(p, first, n) && !At(old(st).leaf, p).Page?)
      ensures Answered(old(log.refusals), log.refusals, r) && log.runs == old(log.runs)
    {
      hide Core, Fresh, Planning, Installing, PageTable.Valid;
      ghost var s0 := st;
      var plan := BuildRelocationPlan(first, n);
      if plan.Err? { return Err(plan.error); }
      var pages := plan.value;
      InstallStart(s0, st, pool, first, pages);
      for k := 0 to n
        invariant Valid() && Installing(s0, st, pool, first, pages, k)
        invariant log.refusals == old(log.refusals) && log.runs == old(log.runs)
      {
        InstallOne(s0, first, pages, k);
      }
      PlanOf(s0, st, pool, first, pages, n);
      RelocateDone(s0, st, pool, first, pages);
      DeallocSources(pages, s0, first);
      return Ok(Unit);
    }

    method InstallOne(ghost s0: State, ghost first: PageNo, plan: seq<PlanPage>, k: nat)
      requires Valid() && Core(s0, pool) && Installing(s0, st, pool, first, plan, k) && k < |plan|
      requires UserPage(first + k)
      modifies this, pt
      ensures Valid() && Installing(s0, st, pool, first, plan, k + 1)
    {
      hide Core, Fresh, Installing, PageTable.Valid;
      InstallReady(s0, st, pool, first, plan, k);
      PlanOf(s0, st, pool, first, plan, k);
      var p := plan[k].page;
      assert p == first + k;
      var d := Page(plan[k].to, plan[k].old_.attrs);
      InstallStep(s0, st, pool, first, plan, k, p);
      RetargetFresh(st, pool, p, d);
      var replaced := pt.Replace4k(p, d);
      assert replaced.Ok?;
      st := Installed(st, p, plan[k].to);
    }

    /** `rollback_relocation`, from any number of installed pages. */
    method RollbackRelocation(ghost s0: State, ghost first: PageNo, plan: seq<PlanPage>, installed: nat)
      requires Valid() && Core(s0, pool) && Installing(s0, st, pool, first, plan, installed)
      requires UserRange(first, installed)
      modifies this, pt
      ensures Valid() && Untouched(s0, st)
    {
      hide Core, Fresh, Installing, PageTable.Valid;
      var left := installed;
      while left > 0
        invariant 0 <= left <= installed
        invariant Valid() && Installing(s0, st, pool, first, plan, left)
      {
        left := left - 1;
        UninstallOne(s0, first, plan, left);
      }
      PlanOf(s0, st, pool, first, plan, 0);
      RelocateUndone(s0, st, pool, first, plan);
      DeallocTargets(plan);
    }

    method UninstallOne(ghost s0: State, ghost first: PageNo, plan: seq<PlanPage>, k: nat)
      requires Valid() && Core(s0, pool) && Installing(s0, st, pool, first, plan, k + 1)
      requires UserPage(first + k)
      modifies this, pt
      ensures Valid() && Installing(s0, st, pool, first, plan, k)
    {
      hide Core, Fresh, Installing, PageTable.Valid;
      PlanOf(s0, st, pool, first, plan, k + 1);
      UninstallReady(s0, st, pool, first, plan, k);
      var p := plan[k].page;
      assert p == first + k;
      UninstallStep(s0, st, pool, first, plan, k);
      RetargetFresh(st, pool, p, plan[k].old_);
      var replaced := pt.Replace4k(p, plan[k].old_);
      assert replaced.Ok?;
      st := Flush(Retarget(st, p, plan[k].old_), p, 1);
    }

    // ---- Swap

    /** `clear_swap_descriptor`. */
    method ClearSwapDescriptor(p: PageNo)
      requires Valid() && Fresh(st) && UserPage(p)
      modifies this, pt
      ensures Valid() && Fresh(st)
      ensures st == if At(old(st).leaf, p).Swap? then Clear(old(st), p) else old(st)
    {
      var t, entry := pt.LeafPtr(p);
      if t.None? || !entry.Swap? { return; }
      ClearKeeps(st, pool, p);
      pt.StoreLeaf(p, t.value, Absent);
      st := Clear(st, p);
      FlushFresh(st, p, 1);
      FlushTlbPages(p, 1);
    }

    /** A mapped page becomes a swap descriptor; its bytes go to the caller and
        its frame, flushed first, to the pool. */
    method SwapOutLeaf(p: PageNo, token: Token) returns (bytes: Bytes)
      requires Valid() && Fresh(st) && UserPage(p) && Mapped(st.leaf, p) && p !in st.dev
      modifies this, pt
      ensures Valid() && Fresh(st)
      ensures old(st).leaf[p].frame in old(st).mem && bytes == old(st).mem[old(st).leaf[p].frame]
      ensures st == old(st).(leaf := old(st).leaf[p := Swap(token)], free := st.free, home := st.home, tlb := st.tlb)
      ensures st.free == old(st).free + {old(st).leaf[p].frame}
    {
      ghost var s := st;
      EvictKeeps(s, pool, p, Swap(token));
      hide Core;
      var t, entry := pt.LeafPtr(p);
      bytes := mem[entry.frame];
      var replaced := pt.Replace4k(p, Swap(token));
      assert replaced.Ok?;
      st := Detach(st, p, Swap(token));
      FlushTlbPages(p, 1);
      DeallocUserPhys(entry.frame);
    }

    /** A fresh frame, filled first, goes behind the swapped page. */
    method SwapInLeaf(p: PageNo, attrs: Attrs, bytes: Bytes) returns (r: Result<Unit>)
      requires Valid() && Fresh(st) && UserPage(p) && !Mapped(st.leaf, p) && st.limbo == {}
      modifies this, pt, log
      ensures Valid() && Fresh(st)
      ensures r.Err? ==> Untouched(old(st), st)
      ensures r.Err? ==> r.error == OutOfFrames || (r.error == NotSwapped && p !in old(st).leaf)
      ensures r.Ok? ==> p in old(st).leaf && SwappedIn(old(st), st, p, attrs, bytes)
      ensures Answered(old(log.refusals), log.refusals, r) && log.runs == old(log.runs)
    {
      hide Core, PageTable.Valid;
      ghost var s := st;
      var frame := AllocUserFrame();
      if frame.Err? { return Err(OutOfFrames); }
      var f := frame.value;
      SwapInKeeps(s, pool, p, f, attrs, bytes);
      st := Fill(st, f, bytes);
      mem := mem[f := bytes];
      var t, entry := pt.LeafPtr(p);
      if t.None? {
        DeallocUserPhys(f);
        return Err(NotSwapped);
      }
      pt.StoreLeaf(p, t.value, Page(f, attrs));
      st := Attach(st, p, f, attrs);
      FlushFresh(st, p, 1);
      FlushTlbPages(p, 1);
      return Ok(Unit);
    }

    // ---- Demand commit

    /** `commit_demand_page` below the flag check: one store, no flush. */
    method CommitLent(p: PageNo, f: Frame, attrs: Attrs) returns (r: Result<Unit>)
      requires Valid() && Fresh(st) && UserPage(p) && f in st.lent
      modifies this, pt
      ensures Valid() && Fresh(st)
      ensures r == if p !in old(st).leaf then Err(NotDemandCommit)
                   else if old(st).leaf[p].Page? then Err(Overlap) else Ok(Unit)
      ensures st == if r.Ok? then MapLent(old(st), p, f, attrs) else old(st)
    {
      var t, entry := pt.LeafPtr(p);
      if t.None? { return Err(NotDemandCommit); }
      if entry.Page? { return Err(Overlap); }
      MapLentKeeps(st, pool, p, f, attrs);
      pt.StoreLeaf(p, t.value, Page(f, attrs));
      st := MapLent(st, p, f, attrs);
      lent := lent - {f};
      return Ok(Unit);
    }

    /** A leaf table, and nothing else, for the block of `p`. */
    method PrepareBlock(p: PageNo)
      requires Valid() && Fresh(st) && UserPage(p)
      modifies this, pt
      ensures Valid() && Fresh(st)
      ensures st == old(st).(leaf := WithLeafTable(old(st).leaf, p))
    {
      PrepareKeeps(st, pool, p);
      var l3 := pt.EnsureLeafTable(p);
      st := st.(leaf := WithLeafTable(st.leaf, p));
    }

    /** `unmap_demand_pages`. The frames freed while still reachable are the
        ones behind a gap: `tainted` is raised exactly when some batch has one. */
    method UnmapDemandPages(first: PageNo, n: nat)
      requires Valid() && Fresh(st) && UserRange(first, n)
      requires forall p :: In(p, first, n) ==> p !in st.dev
      modifies this, pt
      ensures Valid()
      ensures st == old(st).(leaf := Gone(old(st).leaf, first, n), free := st.free, home := st.home, tlb := st.tlb, tainted := st.tainted)
      ensures st.tainted == (old(st).tainted || !OneRun(Hits(old(st).leaf, first, n)))
      ensures OneRun(Hits(old(st).leaf, first, n)) ==> Fresh(st)
    {
      hide Core, Demanding, PageTable.Valid, OneRun, Fresh;
      ghost var s0 := st;
      DemandStart(st, pool, first);
      var batch := new Descriptor[BATCH](_ => Absent);
      var count: nat, start: PageNo := 0, first;
      for done := 0 to n
        invariant 0 <= count < BATCH && Valid() && Demanding(s0, st, pool, first, done, batch[..count])
        invariant count > 0 ==> StartOf(s0, first, done, count, start)
      {
        var page := first + done;
        ghost var held := batch[..count];
        var entry := DemandOne(s0, first, done, held, page);
        if entry.Err? {
          if count > 0 { StartSkip(s0, first, done, count, start); }
          continue;
        }
        if count == 0 { start := page; }
        StartPush(s0, first, done, count, start);
        batch[count] := entry.value;
        count := count + 1;
        assert batch[..count] == held + [entry.value];
        if count == BATCH {
          FlushDemandBatch(s0, first, done + 1, start, batch[..count]);
          DemandResume(s0, st, pool, first, done + 1);
          count := 0;
        }
      }
      if count != 0 {
        FlushDemandBatch(s0, first, n, start, batch[..count]);
      } else {
        DemandEnd(s0, st, pool, first, n);
      }
    }

    method DemandOne(ghost s0: State, ghost first: PageNo, ghost done: nat, ghost batch: seq<Descriptor>, page: PageNo) returns (r: Result<Descriptor>)
      requires Valid() && Demanding(s0, st, pool, first, done, batch) && |batch| < BATCH
      requires page == first + done && UserPage(page) && page !in s0.dev
      modifies this, pt
      ensures Valid()
      ensures r.Ok? <==> Mapped(s0.leaf, page)
      ensures r.Err? ==> Demanding(s0, st, pool, first, done + 1, batch)
      ensures r.Ok? ==> Demanding(s0, st, pool, first, done + 1, batch + [r.value])
    {
      r := pt.Unmap4kNoFlush(page);
      if r.Ok? {
        DemandPush(s0, st, pool, first, done, batch, page);
        DetachCore(st, pool, page);
        st := Detach(st, page, Absent);
      } else {
        DemandSkip(s0, st, pool, first, done, batch);
      }
    }

    method FlushDemandBatch(ghost s0: State, ghost first: PageNo, ghost done: nat, start: PageNo, batch: seq<Descriptor>)
      requires Valid() && batch != [] && Demanding(s0, st, pool, first, done, batch) && StartOf(s0, first, done, |batch|, start)
      modifies this
      ensures Valid()
      ensures st == s0.(leaf := Gone(s0.leaf, first, done), free := st.free, home := st.home, tlb := st.tlb, tainted := st.tainted)
      ensures st.tainted == (s0.tainted || !OneRun(Hits(s0.leaf, first, done)))
      ensures OneRun(Hits(s0.leaf, first, done)) ==> Fresh(st)
      ensures |batch| == BATCH ==> |Hits(s0.leaf, first, done)| % BATCH == 0
    {
      hide OneRun, Core, Fresh, PageTable.Valid;
      DemandFlush(s0, st, pool, first, done, batch, start);
      FlushAndDealloc(start, batch);
    }

    // ---- Device mappings

    /** Maps a run of device frames; any valid leaf in the way undoes it. */
    method MapDevicePages(first: PageNo, n: nat, frame: Frame, attrs: Attrs) returns (r: Result<Unit>)
      requires Valid() && Fresh(st) && UserRange(first, n) && Nameable(st, pool, frame, n)
      requires forall p :: In(p, first, n) ==> !At(st.leaf, p).Swap?
      modifies this, pt
      ensures Valid()
      ensures r.Ok? <==> forall p :: In(p, first, n) ==> At(old(st).leaf, p).Absent?
      ensures r.Ok? ==> Devicing(old(st), st, pool, first, n, frame, attrs)
      ensures r.Err? ==> r.error == Overlap && Untouched(old(st), st)
    {
      assert forall p :: p in st.leaf ==> st.leaf[p].IsLeaf();
      hide Core, Fresh, Devicing, PageTable.Valid;
      ghost var s0 := st;
      DeviceStart(st, pool, first, frame, attrs);
      for done := 0 to n
        invariant Valid() && Devicing(s0, st, pool, first, done, frame, attrs)
        invariant forall p :: In(p, first, done) ==> At(s0.leaf, p).Absent?
      {
        assert In(first + done, first, n);
        var mapped := DeviceOne(s0, first, done, n, frame, attrs, first + done);
        if mapped.Err? {
          ghost var s := st;
          DeviceReady(s0, s, pool, first, done, frame, attrs);
          TearDownDeviceRange(first, done);
          DeviceUndone(s0, s, st, pool, first, done, frame, attrs);
          return Err(Overlap);
        }
      }
      ghost var s := st;
      DeviceReady(s0, s, pool, first, n, frame, attrs);
      FlushFresh(s, first, n);
      FlushTlbPages(first, n);
      return Ok(Unit);
    }

    method DeviceOne(ghost s0: State, ghost first: PageNo, done: nat, ghost n: nat, frame: Frame, attrs: Attrs, page: PageNo) returns (r: Result<Unit>)
      requires Valid() && Devicing(s0, st, pool, first, done, frame, attrs) && Nameable(s0, pool, frame, n) && done < n
      requires page == first + done && UserPage(page) && !At(s0.leaf, page).Swap? && forall p :: p in s0.leaf ==> s0.leaf[p].IsLeaf()
      modifies this, pt
      ensures Valid()
      ensures r == if At(s0.leaf, page).Absent? then Ok(Unit) else Err(Overlap)
      ensures Devicing(s0, st, pool, first, if r.Ok? then done + 1 else done, frame, attrs)
    {
      assert At(st.leaf, page) == At(s0.leaf, page);
      r := pt.Map4kNoFlush(page, frame + done, attrs);
      if r.Ok? {
        DeviceStep(s0, st, pool, first, done, n, frame, attrs, page);
        DeviceStepCore(s0, st, pool, first, done, n, frame, attrs, page);
        st := MapDevice(st, page, frame + done, attrs);
      }
    }

    /** `tear_down_device_range`: every page is valid, so it never stops early. */
    method TearDownDeviceRange(first: PageNo, n: nat)
      requires Valid() && Fresh(st) && UserRange(first, n) && Pages(first, n) <= st.dev
      modifies this, pt
      ensures Valid() && Fresh(st)
      ensures st == old(st).(leaf := Blanked(old(st).leaf, first, n), dev := old(st).dev - Pages(first, n), tlb := st.tlb)
    {
      hide Core, Fresh, PageTable.Valid;
      ghost var s0 := st;
      TearStart(st, pool, first);
      for done := 0 to n
        invariant Valid() && Tearing(s0, st, pool, first, done)
      {
        var page := first + done;
        assert page in st.dev;
        TearStep(s0, st, pool, first, done, page);
        var entry := pt.Unmap4kNoFlush(page);
        assert entry.Ok?;
        st := UnmapDevice(st, page);
        TearingCore(s0, st, pool, first, done + 1);
      }
      TearFlush(s0, st, pool, first, n);
      FlushTlbPages(first, n);
    }

    // ---- Clearing swap descriptors

    method ClearOne(ghost s0: State, ghost pages: set<PageNo>, p: PageNo)
      requires Valid() && Fresh(st) && UserPage(p) && st == s0.(leaf := Cleared(s0.leaf, pages))
      modifies this, pt
      ensures Valid() && Fresh(st) && st == s0.(leaf := Cleared(s0.leaf, pages + {p}))
    {
      hide Core, Fresh, PageTable.Valid;
      ClearedAt(s0.leaf, pages, p);
      ClearedStep(s0.leaf, pages, p);
      ClearSwapDescriptor(p);
    }

    method ClearSwapRange(first: PageNo, n: nat)
      requires Valid() && Fresh(st) && UserRange(first, n)
      modifies this, pt
      ensures Valid() && Fresh(st) && st == old(st).(leaf := Cleared(old(st).leaf, Pages(first, n)))
    {
      hide Core, Fresh, PageTable.Valid;
      ghost var s0 := st;
      assert Cleared(s0.leaf, Pages(first, 0)) == s0.leaf;
      for i := 0 to n
        invariant Valid() && Fresh(st) && st == s0.(leaf := Cleared(s0.leaf, Pages(first, i)))
      {
        assert Pages(first, i) + {first + i} == Pages(first, i + 1);
        ClearOne(s0, Pages(first, i), first + i);
      }
    }

    method ClearSwapPages(pages: seq<PageNo>)
      requires Valid() && Fresh(st) && forall i :: 0 <= i < |pages| ==> UserPage(pages[i])
      modifies this, pt
      ensures Valid() && Fresh(st) && st == old(st).(leaf := Cleared(old(st).leaf, set p | p in pages))
    {
      hide Core, Fresh, PageTable.Valid;
      ghost var s0 := st;
      ghost var done: set<PageNo> := {};
      assert Cleared(s0.leaf, {}) == s0.leaf;
      for i := 0 to |pages|
        invariant Valid() && Fresh(st) && st == s0.(leaf := Cleared(s0.leaf, done))
        invariant done == set p | p in pages[..i]
      {
        ClearOne(s0, done, pages[i]);
        done := done + {pages[i]};
        assert pages[..i + 1] == pages[..i] + [pages[i]];
      }
      assert pages[..|pages|] == pages;
    }

    // ---- The fault-time reserve

    /** One frame from the pool to the reserve a fault may draw on. */
    method LendFrame() returns (r: Option<Frame>)
      requires Valid()
      modifies this, log
      ensures Valid()
      ensures r.None? ==> st == old(st)
      ensures r.Some? ==> r.value in old(st).free && st == Lend(old(st), r.value)
      ensures log.refusals == old(log.refusals) + (if r.None? then 1 else 0) && log.runs == old(log.runs)
    {
      var declined := free == {};
      if * { declined := true; }
      if declined {
        log.refusals := log.refusals + 1;
        return None;
      }
      var f :| f in free;
      LendKeeps(st, pool, f);
      st := Lend(st, f);
      free, lent, mem := free - {f}, lent + {f}, mem[f := Zeroed()];
      return Some(f);
    }

    // ---- Pinned runs

    /** One contiguous zeroed allocation, wherever the pool chooses. */
    method AllocRun(n: nat, align: nat) returns (r: Result<Frame>)
      requires Valid() && n > 0 && align > 0
      modifies this, log
      ensures Valid()
      ensures r.Err? ==> r.error == OutOfFrames && st == old(st)
      ensures r.Ok? ==> r.value * PAGE % align == 0 && Run(r.value, n) <= old(st).free && st == Pin(old(st), Run(r.value, n))
      ensures r.Err? ==> log.refusals == old(log.refusals) + 1 && log.runs == old(log.runs)
      ensures r.Ok? ==> log.refusals == old(log.refusals) && log.runs == old(log.runs) + [r.value]
    {
      var f: Frame;
      var declined := free == {};
      if !declined {
        f :| f in free;
        declined := f * PAGE % align != 0 || !(Run(f, n) <= free);
      }
      if * { declined := true; }
      if declined {
        log.refusals := log.refusals + 1;
        return Err(OutOfFrames);
      }
      log.runs := log.runs + [f];
      PinKeeps(st, pool, Run(f, n));
      st := Pin(st, Run(f, n));
      free := free - Run(f, n);
      mem := map g | g in mem :: if g in Run(f, n) then Zeroed() else mem[g];
      return Ok(f);
    }

    method FreeRun(frame: Frame, n: nat)
      requires Valid() && Run(frame, n) <= st.pinned
      modifies this
      ensures Valid() && st == Unpin(old(st), Run(frame, n))
      ensures Fresh(old(st)) ==> Fresh(st)
      ensures Fresh(old(st)) ==> (st.tainted <==> old(st).tainted || Named(old(st), Run(frame, n)))
    {
      UnpinKeeps(st, pool, Run(frame, n));
      st := Unpin(st, Run(frame, n));
      free := free + Run(frame, n);
    }

    // ---- Release

    /** The page loop of `release`: a valid page is unmapped, invalidated and
        its frame given back; a hole is passed over. */
    method UnmapEach(first: PageNo, n: nat, ghost before: set<PageNo>, ghost s0: State)
      requires Valid() && Fresh(st) && UserRange(first, n) && (forall p :: In(p, first, n) ==> p !in s0.dev)
      requires st == s0.(leaf := Dropped(s0.leaf, before), free := st.free, home := st.home, tlb := st.tlb)
      modifies this, pt
      ensures Valid() && Fresh(st)
      ensures st == s0.(leaf := Dropped(s0.leaf, before + Pages(first, n)), free := st.free, home := st.home, tlb := st.tlb)
    {
      hide Core, Fresh, PageTable.Valid;
      assert before + Pages(first, 0) == before;
      for i := 0 to n
        invariant Valid() && Fresh(st)
        invariant st == s0.(leaf := Dropped(s0.leaf, before + Pages(first, i)), free := st.free, home := st.home, tlb := st.tlb)
      {
        assert before + Pages(first, i + 1) == before + Pages(first, i) + {first + i};
        UnmapOne(first + i, before + Pages(first, i), s0);
      }
    }

    method UnmapOne(p: PageNo, ghost before: set<PageNo>, ghost s0: State)
      requires Valid() && Fresh(st) && UserPage(p) && p !in s0.dev
      requires st == s0.(leaf := Dropped(s0.leaf, before), free := st.free, home := st.home, tlb := st.tlb)
      modifies this, pt
      ensures Valid() && Fresh(st)
      ensures st == s0.(leaf := Dropped(s0.leaf, before + {p}), free := st.free, home := st.home, tlb := st.tlb)
    {
      hide Core, PageTable.Valid;
      DroppedAt(s0.leaf, before, p);
      DroppedStep(s0.leaf, before, p);
      if Mapped(st.leaf, p) { EvictKeeps(st, pool, p, Absent); }
      var entry := pt.Unmap4kNoFlush(p);
      if entry.Err? { return; }
      st := Detach(st, p, Absent);
      FlushTlbPages(p, 1);
      DeallocUserPhys(entry.value.frame);
    }

    // ---- Demand-commit preparation

    /** One walk per leaf table: the first page, then every block boundary. */
    method PrepareBlocks(first: PageNo, n: nat)
      requires Valid() && Fresh(st) && UserRange(first, n)
      modifies this, pt
      ensures Valid() && Fresh(st) && st == old(st).(leaf := st.leaf) && old(st).leaf.Keys <= st.leaf.Keys
      ensures forall p: PageNo :: At(st.leaf, p) == At(old(st).leaf, p)
      ensures forall p: PageNo :: In(p, first, n) ==> p in st.leaf
    {
      hide Core, Fresh, PageTable.Valid, BlockStarts;
      ghost var s0 := st;
      var starts := BlockStarts(first, n, FANOUT);
      for i := 0 to |starts|
        invariant Valid() && Fresh(st) && st == s0.(leaf := st.leaf) && s0.leaf.Keys <= st.leaf.Keys
        invariant forall q: PageNo :: At(st.leaf, q) == At(s0.leaf, q)
        invariant forall q: PageNo :: In(q, first, n) && q / FANOUT < first / FANOUT + i ==> q in st.leaf
      {
        BlockOf(first, n, FANOUT, i);
        PrepareBlock(starts[i]);
      }
      forall p: PageNo | In(p, first, n) ensures p in st.leaf {
        BlocksEnough(first, n, FANOUT, p);
      }
    }
  }
}
