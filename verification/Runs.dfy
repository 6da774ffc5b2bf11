/** What the multi-page loops of the address space hold on to between two
    pages, as predicates on machine states, and the lemmas that carry them over
    one page, one flush or one rollback step. */
module Runs {
  import opened PageWalk
  import opened PageTables
  import opened Machine

  /** The descriptor a walk of `p` ends at; no leaf table reads as absent. */
  function At(leaf: Flat, p: int): Descriptor {
    if p >= 0 && p in leaf then leaf[p] else Absent
  }

  predicate In(p: int, first: int, n: int) {
    first <= p < first + n
  }

  function Blanked(leaf: Flat, first: int, n: int): Flat {
    map p | p in leaf :: if In(p, first, n) then Absent else leaf[p]
  }

  ghost predicate AllMapped(leaf: Flat, first: PageNo, n: nat) {
    n == 0 || (AllMapped(leaf, first, n - 1) && Mapped(leaf, first + n - 1))
  }

  lemma {:induction false} AllMappedMeans(leaf: Flat, first: PageNo, n: nat)
    ensures AllMapped(leaf, first, n) <==> forall p: PageNo :: first <= p < first + n ==> Mapped(leaf, p)
  {
    if n > 0 { AllMappedMeans(leaf, first, n - 1); }
  }

  ghost predicate UserRange(first: PageNo, n: nat) {
    USER_FIRST <= first && first + n <= USER_END
  }

  // ---- Lists of descriptors whose frames the running operation holds

  ghost function FramesOf(entries: seq<Descriptor>): set<Frame> {
    set i | 0 <= i < |entries| && entries[i].Page? :: entries[i].frame
  }

  ghost predicate DistinctFrames(entries: seq<Descriptor>) {
    && (forall i :: 0 <= i < |entries| ==> entries[i].Page?)
    && (forall i, j :: 0 <= i < j < |entries| ==> entries[i].frame != entries[j].frame)
  }

  lemma FramesAppend(entries: seq<Descriptor>, d: Descriptor)
    requires DistinctFrames(entries) && d.Page? && d.frame !in FramesOf(entries)
    ensures DistinctFrames(entries + [d])
    ensures FramesOf(entries + [d]) == FramesOf(entries) + {d.frame}
  {
    var e := entries + [d];
    forall f | f in FramesOf(entries) + {d.frame} ensures f in FramesOf(e) {
      if f != d.frame {
        var i :| 0 <= i < |entries| && entries[i].Page? && entries[i].frame == f;
        assert e[i].frame == f;
      } else {
        assert e[|entries|].frame == f;
      }
    }
  }

  ghost function GiveBack(s: State, frames: set<Frame>): State {
    s.(free := s.free + frames, limbo := s.limbo - frames,
       tainted := s.tainted || exists f :: f in frames && Reachable(s, f))
  }

  lemma GiveBackStep(s: State, done: set<Frame>, f: Frame)
    requires f in s.limbo && f !in done
    ensures f in GiveBack(s, done).limbo
    ensures Dealloc(GiveBack(s, done), f) == GiveBack(s, done + {f})
  {
  }

  lemma GiveBackSafe(s: State, pool: set<Frame>, frames: set<Frame>)
    requires Core(s, pool) && Fresh(s) && frames <= s.limbo
    ensures GiveBack(s, frames).tainted == s.tainted && Fresh(GiveBack(s, frames))
  {
  }

  // ---- What a settled state is determined by

  /** With the same leaves and the same outstanding frames, the same frames are
      mapped and the same frames are free. */
  lemma CoreDetermined(s: State, t: State, pool: set<Frame>)
    requires Core(s, pool) && Core(t, pool)
    requires s.dev == t.dev && s.limbo == t.limbo && s.lent == t.lent && s.pinned == t.pinned
    requires forall p: PageNo :: Mapped(s.leaf, p) || Mapped(t.leaf, p) ==> At(s.leaf, p) == At(t.leaf, p)
    ensures s.home == t.home && s.free == t.free
  {
    HomesInclude(s, t, pool);
    HomesInclude(t, s, pool);
    assert s.home == t.home;
  }

  lemma HomesInclude(s: State, t: State, pool: set<Frame>)
    requires Core(s, pool) && Core(t, pool) && s.dev == t.dev
    requires forall p: PageNo :: Mapped(s.leaf, p) || Mapped(t.leaf, p) ==> At(s.leaf, p) == At(t.leaf, p)
    ensures forall f :: f in s.home ==> f in t.home && t.home[f] == s.home[f]
  {
  }

  // ---- Batched unmapping

  const BATCH := 128

  /** `done` pages of a run are unmapped; the last `|batch|` of them, which are
      the pages from `start` on, wait for the flush that frees them. */
  ghost predicate Batching(s0: State, s: State, pool: set<Frame>, first: PageNo, done: nat, start: PageNo, batch: seq<Descriptor>) {
    && Core(s, pool)
    && s == s0.(leaf := Blanked(s0.leaf, first, done), limbo := s.limbo, free := s.free, home := s.home, tlb := s.tlb)
    && s.limbo == s0.limbo + FramesOf(batch) && s0.limbo !! FramesOf(batch) && DistinctFrames(batch)
    && StaleWithin(s, start, start + |batch|)
    && (batch != [] ==> start + |batch| == first + done)
  }

  lemma BatchStart(s: State, pool: set<Frame>, first: PageNo)
    requires Core(s, pool) && Fresh(s)
    ensures Batching(s, s, pool, first, 0, first, [])
  {
  }

  lemma BatchRestart(s0: State, s: State, pool: set<Frame>, first: PageNo, done: nat, start: PageNo, start': PageNo)
    requires Batching(s0, s, pool, first, done, start, [])
    ensures Batching(s0, s, pool, first, done, start', [])
  {
  }

  lemma BatchPush(s0: State, s: State, pool: set<Frame>, first: PageNo, done: nat, start: PageNo, batch: seq<Descriptor>, p: PageNo)
    requires Batching(s0, s, pool, first, done, start, batch)
    requires p == first + done == start + |batch| && Mapped(s.leaf, p) && p !in s.dev
    ensures Batching(s0, Detach(s, p, Absent), pool, first, done + 1, start, batch + [s.leaf[p]])
    ensures s.leaf[p] == s0.leaf[p]
  {
    hide Core;
    var d := s.leaf[p];
    DetachKeeps(s, pool, p, Absent, start, start + |batch| + 1);
    FramesAppend(batch, d);
    BlankedStep(s0.leaf, first, done);
  }

  lemma BlankedStep(leaf: Flat, first: PageNo, done: nat)
    requires first + done in leaf
    ensures Blanked(leaf, first, done)[first + done := Absent] == Blanked(leaf, first, done + 1)
    ensures Blanked(leaf, first, done)[first + done] == leaf[first + done]
  {
  }

  lemma BatchFlush(s0: State, s: State, pool: set<Frame>, first: PageNo, done: nat, start: PageNo, batch: seq<Descriptor>)
    requires Batching(s0, s, pool, first, done, start, batch)
    ensures var s' := GiveBack(Flush(s, start, |batch|), FramesOf(batch));
            Core(s', pool) ==> Batching(s0, s', pool, first, done, start, [])
  {
  }

  lemma BatchDone(s0: State, s: State, pool: set<Frame>, first: PageNo, done: nat, start: PageNo)
    requires Batching(s0, s, pool, first, done, start, [])
    ensures Fresh(s) && s.tainted == s0.tainted
    ensures s == s0.(leaf := Blanked(s0.leaf, first, done), free := s.free, home := s.home, tlb := s.tlb)
  {
  }

  // ---- Committing

  lemma FlushFresh(s: State, lo: int, n: int)
    requires Fresh(s)
    ensures Flush(s, lo, n) == s
  {
  }

  /** A page that was absent and now has a zeroed frame that was free. */
  ghost predicate NewPage(s0: State, s: State, p: PageNo, attrs: Attrs) {
    && At(s0.leaf, p).Absent? && Mapped(s.leaf, p) && s.leaf[p].attrs == attrs
    && s.leaf[p].frame in s0.free && s.leaf[p].frame in s.mem && s.mem[s.leaf[p].frame] == Zeroed()
  }

  /** Contents of every frame that was in use are as they were. */
  ghost predicate KeepsBytes(s0: State, s: State) {
    forall f :: f in s0.mem && f !in s0.free ==> f in s.mem && s.mem[f] == s0.mem[f]
  }

  /** The first `done` pages are new; nothing else differs. */
  ghost predicate Committing(s0: State, s: State, pool: set<Frame>, first: PageNo, done: nat, attrs: Attrs) {
    && Core(s, pool) && Fresh(s) && s.free <= s0.free
    && s == s0.(leaf := s.leaf, free := s.free, home := s.home, mem := s.mem, tlb := s.tlb)
    && s0.leaf.Keys <= s.leaf.Keys
    && (forall p: PageNo {:trigger At(s.leaf, p)} {:trigger At(s0.leaf, p)} {:trigger CommitAt(s0, s, first, done, attrs, p)} ::
          CommitAt(s0, s, first, done, attrs, p))
    && KeepsBytes(s0, s)
  }

  ghost predicate CommitAt(s0: State, s: State, first: PageNo, done: nat, attrs: Attrs, p: PageNo) {
    if In(p, first, done) then NewPage(s0, s, p, attrs) else At(s.leaf, p) == At(s0.leaf, p)
  }

  lemma CommitStart(s: State, pool: set<Frame>, first: PageNo, attrs: Attrs)
    requires Core(s, pool) && Fresh(s)
    ensures Committing(s, s, pool, first, 0, attrs)
  {
  }

  lemma CommitStep(s0: State, s: State, pool: set<Frame>, first: PageNo, done: nat, attrs: Attrs, f: Frame)
    requires Committing(s0, s, pool, first, done, attrs) && f in s.free && s.limbo == {}
    requires At(s0.leaf, first + done).Absent?
    ensures Committing(s0, Map(Alloc(s, f), first + done, f, attrs), pool, first, done + 1, attrs)
  {
    hide Core, Fresh;
    var p := first + done;
    var t := Alloc(s, f);
    var u := Map(t, p, f, attrs);
    assert !In(p, first, done) && At(s.leaf, p) == At(s0.leaf, p);
    AllocKeeps(s, pool, f);
    MapKeeps(t, pool, p, f, attrs);
    assert u.limbo == {};
    AllocFresh(s, f);
    var n := done + 1;
    forall q: PageNo
      ensures CommitAt(s0, u, first, n, attrs, q)
    {
      CommitStepAt(s0, s, pool, first, done, attrs, f, q);
    }
  }

  lemma FillFresh(s: State, f: Frame, b: Bytes)
    requires Fresh(s)
    ensures Fresh(Fill(s, f, b))
  {
  }

  lemma AllocFresh(s: State, f: Frame)
    requires Fresh(s)
    ensures Fresh(Alloc(s, f))
  {
  }

  lemma CommitStepAt(s0: State, s: State, pool: set<Frame>, first: PageNo, done: nat, attrs: Attrs, f: Frame, q: PageNo)
    requires Committing(s0, s, pool, first, done, attrs) && f in s.free && s.limbo == {}
    requires At(s0.leaf, first + done).Absent?
    ensures CommitAt(s0, Map(Alloc(s, f), first + done, f, attrs), first, done + 1, attrs, q)
  {
  }

  /** A frame taken and given straight back, because the page was mapped. */
  lemma CommitOneBack(s0: State, s: State, pool: set<Frame>, first: PageNo, done: nat, attrs: Attrs, f: Frame)
    requires Committing(s0, s, pool, first, done, attrs) && f in s.free
    ensures Committing(s0, Dealloc(Alloc(s, f), f), pool, first, done, attrs)
  {
    var t := Alloc(s, f);
    AllocKeeps(s, pool, f);
    DeallocKeeps(t, pool, f);
    var u := Dealloc(t, f);
    assert u.free == s.free && u.limbo == s.limbo;
    forall p: PageNo
      ensures CommitAt(s0, u, first, done, attrs, p)
    {
      assert CommitAt(s0, s, first, done, attrs, p);
    }
  }

  lemma CommitFresh(s0: State, s: State, pool: set<Frame>, first: PageNo, done: nat, attrs: Attrs)
    requires Committing(s0, s, pool, first, done, attrs)
    ensures Fresh(s)
  {
  }

  /** All or nothing, the nothing half: every page reads as before, the same
      frames are mapped and free, and no translation is stale. New leaf tables
      may exist, all of whose new entries are absent. */
  ghost predicate Untouched(s0: State, s: State) {
    && s == s0.(leaf := s.leaf, mem := s.mem, tlb := s.tlb) && Fresh(s)
    && s0.leaf.Keys <= s.leaf.Keys
    && (forall p: PageNo {:trigger At(s.leaf, p)} {:trigger At(s0.leaf, p)} :: At(s.leaf, p) == At(s0.leaf, p))
    && KeepsBytes(s0, s)
  }

  lemma CommitUndone(s0: State, s: State, s': State, pool: set<Frame>, first: PageNo, done: nat, attrs: Attrs)
    requires Core(s0, pool) && Committing(s0, s, pool, first, done, attrs)
    requires Core(s', pool) && Fresh(s')
    requires s' == s.(leaf := Blanked(s.leaf, first, done), free := s'.free, home := s'.home, tlb := s'.tlb)
    ensures Untouched(s0, s')
  {
    forall p: PageNo ensures At(s'.leaf, p) == At(s0.leaf, p) {
      assert At(s.leaf, p) == At(s.leaf, p);
    }
    CoreDetermined(s0, s', pool);
  }

  lemma CommittedMapped(s0: State, s: State, pool: set<Frame>, first: PageNo, done: nat, attrs: Attrs)
    requires Core(s0, pool) && Committing(s0, s, pool, first, done, attrs)
    ensures AllMapped(s.leaf, first, done)
    ensures forall p :: In(p, first, done) ==> p !in s.dev
  {
    forall p: PageNo | first <= p < first + done ensures Mapped(s.leaf, p) && p !in s.dev {
      assert In(p, first, done) && At(s.leaf, p) == At(s.leaf, p);
      assert p in s0.dev ==> Mapped(s0.leaf, p);
    }
    AllMappedMeans(s.leaf, first, done);
  }

  // ---- Protecting

  function Repainted(leaf: Flat, first: int, n: int, attrs: Attrs): Flat {
    map p | p in leaf :: if In(p, first, n) && leaf[p].Page? then Page(leaf[p].frame, attrs) else leaf[p]
  }

  /** The first `done` pages carry the new attributes and `old` remembers what
      they carried; only those pages may be cached stale, below `hi`. */
  ghost predicate Protecting(s0: State, s: State, pool: set<Frame>, first: PageNo, done: nat, hi: int, attrs: Attrs, old_: seq<Descriptor>) {
    && Core(s, pool) && StaleWithin(s, first, hi) && first + done <= hi && |old_| == done
    && s == s0.(leaf := Repainted(s0.leaf, first, done, attrs), tlb := s.tlb)
    && (forall i {:trigger old_[i]} :: 0 <= i < done ==> old_[i].Page? && old_[i] == At(s0.leaf, first + i))
  }

  lemma ProtectStart(s: State, pool: set<Frame>, first: PageNo, hi: int, attrs: Attrs)
    requires Core(s, pool) && Fresh(s) && first <= hi
    ensures Protecting(s, s, pool, first, 0, hi, attrs, [])
  {
  }

  lemma ProtectStep(s0: State, s: State, pool: set<Frame>, first: PageNo, done: nat, hi: int, attrs: Attrs, old_: seq<Descriptor>)
    requires Protecting(s0, s, pool, first, done, hi, attrs, old_)
    requires Mapped(s.leaf, first + done) && first + done < hi
    ensures Mapped(s0.leaf, first + done) && s.leaf[first + done] == s0.leaf[first + done]
    ensures Protecting(s0, Reprotect(s, first + done, attrs), pool, first, done + 1, hi, attrs, old_ + [s.leaf[first + done]])
  {
    var p := first + done;
    ReprotectKeeps(s, pool, p, attrs, first, hi);
    assert Repainted(s0.leaf, first, done, attrs)[p := Page(s.leaf[p].frame, attrs)] == Repainted(s0.leaf, first, done + 1, attrs);
  }

  /** Putting the last remembered descriptor back. */
  lemma UnprotectStep(s0: State, s: State, pool: set<Frame>, first: PageNo, done: nat, hi: int, attrs: Attrs, old_: seq<Descriptor>)
    requires Protecting(s0, s, pool, first, done, hi, attrs, old_) && done > 0
    ensures var p := first + done - 1;
            && Mapped(s.leaf, p) && old_[done - 1].Page? && old_[done - 1].frame == s.leaf[p].frame
            && Protecting(s0, Reprotect(s, p, old_[done - 1].attrs), pool, first, done - 1, hi, attrs, old_[..done - 1])
  {
    var p := first + (done - 1);
    var d := old_[done - 1];
    assert Mapped(s0.leaf, p) && d == s0.leaf[p];
    assert Mapped(s.leaf, p);
    ReprotectKeeps(s, pool, p, old_[done - 1].attrs, first, hi);
    assert Repainted(s0.leaf, first, done, attrs)[p := s0.leaf[p]] == Repainted(s0.leaf, first, done - 1, attrs);
  }

  lemma ProtectingCore(s0: State, s: State, pool: set<Frame>, first: PageNo, done: nat, hi: int, attrs: Attrs, old_: seq<Descriptor>)
    requires Protecting(s0, s, pool, first, done, hi, attrs, old_)
    ensures Core(s, pool)
  {
  }

  lemma ProtectFlush(s0: State, s: State, pool: set<Frame>, first: PageNo, done: nat, hi: nat, attrs: Attrs, old_: seq<Descriptor>)
    requires Protecting(s0, s, pool, first, done, hi, attrs, old_) && first <= hi
    ensures var s' := Flush(s, first, hi - first);
            Core(s', pool) && Fresh(s') && s' == s0.(leaf := Repainted(s0.leaf, first, done, attrs), tlb := s'.tlb)
  {
  }

  lemma ProtectingFlush(s0: State, s: State, pool: set<Frame>, first: PageNo, done: nat, hi: int, attrs: Attrs, old_: seq<Descriptor>, p: PageNo)
    requires Protecting(s0, s, pool, first, done, hi, attrs, old_)
    ensures Protecting(s0, Flush(s, p, 1), pool, first, done, hi, attrs, old_)
  {
  }

  lemma ProtectWiden(s0: State, s: State, pool: set<Frame>, first: PageNo, done: nat, hi: int, attrs: Attrs, old_: seq<Descriptor>)
    requires Protecting(s0, s, pool, first, done, hi, attrs, old_)
    ensures Protecting(s0, s, pool, first, done, hi + 1, attrs, old_)
  {
  }

  lemma ProtectNone(s0: State, s: State, pool: set<Frame>, first: PageNo, hi: int, attrs: Attrs, old_: seq<Descriptor>)
    requires Protecting(s0, s, pool, first, 0, hi, attrs, old_)
    ensures s == s0.(tlb := s.tlb) && StaleWithin(s, first, hi)
  {
  }

  // ---- Relocating

  datatype PlanPage = PlanPage(page: PageNo, old_: Descriptor, to: Frame)

  ghost predicate PlanFor(s0: State, first: PageNo, plan: seq<PlanPage>) {
    && (forall i {:trigger plan[i]} :: 0 <= i < |plan| ==>
          plan[i].page == first + i && plan[i].old_.Page? && plan[i].old_ == At(s0.leaf, plan[i].page)
          && plan[i].page !in s0.dev && plan[i].to in s0.free)
    && (forall i, j :: 0 <= i < j < |plan| ==> plan[i].to != plan[j].to)
  }

  ghost function Targets(plan: seq<PlanPage>): set<Frame> {
    set i | 0 <= i < |plan| :: plan[i].to
  }

  /** Every new frame holds the bytes of the page it will replace. */
  ghost predicate Copied(s0: State, s: State, plan: seq<PlanPage>) {
    forall i :: 0 <= i < |plan| ==>
      plan[i].old_.Page? && plan[i].old_.frame in s0.mem && plan[i].to in s.mem
      && s.mem[plan[i].to] == s0.mem[plan[i].old_.frame]
  }

  ghost predicate Planning(s0: State, s: State, pool: set<Frame>, first: PageNo, plan: seq<PlanPage>) {
    && Core(s, pool) && Fresh(s) && PlanFor(s0, first, plan) && Copied(s0, s, plan) && KeepsBytes(s0, s)
    && s == s0.(free := s0.free - Targets(plan), limbo := s0.limbo + Targets(plan), mem := s.mem)
  }

  lemma TargetsAppend(plan: seq<PlanPage>, x: PlanPage)
    ensures Targets(plan + [x]) == Targets(plan) + {x.to}
  {
    var all := plan + [x];
    forall f | f in Targets(plan) + {x.to} ensures f in Targets(all) {
      if f == x.to {
        assert all[|plan|].to == f;
      } else {
        var i :| 0 <= i < |plan| && plan[i].to == f;
        assert all[i].to == f;
      }
    }
  }

  lemma PlanStart(s: State, pool: set<Frame>, first: PageNo)
    requires Core(s, pool) && Fresh(s)
    ensures Planning(s, s, pool, first, [])
  {
  }

  lemma PlanGrows(s0: State, s: State, first: PageNo, plan: seq<PlanPage>, d: Descriptor, f: Frame, b: Bytes)
    requires PlanFor(s0, first, plan) && Copied(s0, s, plan)
    requires d.Page? && d == At(s0.leaf, first + |plan|) && first + |plan| !in s0.dev
    requires f in s0.free && f !in Targets(plan) && d.frame in s0.mem && b == s0.mem[d.frame]
    ensures var plan' := plan + [PlanPage(first + |plan|, d, f)];
            PlanFor(s0, first, plan') && Copied(s0, s.(mem := s.mem[f := b]), plan')
  {
  }

  lemma PlanSource(s0: State, s: State, pool: set<Frame>, first: PageNo, plan: seq<PlanPage>, d: Descriptor)
    requires Planning(s0, s, pool, first, plan) && Core(s0, pool)
    requires d.Page? && d == At(s0.leaf, first + |plan|) && first + |plan| !in s0.dev
    ensures d.frame in s0.mem && d.frame !in s0.free && d.frame !in s.free && s.mem.Keys == s0.mem.Keys
    ensures d.frame in s.mem && s.mem[d.frame] == s0.mem[d.frame]
  {
    assert Mapped(s0.leaf, first + |plan|);
  }

  lemma PlanStep(s0: State, s: State, pool: set<Frame>, first: PageNo, plan: seq<PlanPage>, f: Frame, d: Descriptor)
    requires Planning(s0, s, pool, first, plan) && f in s.free && Core(s0, pool)
    requires d.Page? && d == At(s0.leaf, first + |plan|) && first + |plan| !in s0.dev
    ensures d.frame in s.mem && d.frame in s0.mem && s.mem[d.frame] == s0.mem[d.frame] && d.frame != f
    ensures Planning(s0, Fill(Alloc(s, f), f, s.mem[d.frame]), pool, first, plan + [PlanPage(first + |plan|, d, f)])
  {
    PlanSource(s0, s, pool, first, plan, d);
    hide Core, Fresh;
    AllocFresh(s, f);
    AllocKeeps(s, pool, f);
    FillKeeps(Alloc(s, f), pool, f, s.mem[d.frame]);
    FillFresh(Alloc(s, f), f, s.mem[d.frame]);
    TargetsAppend(plan, PlanPage(first + |plan|, d, f));
    PlanGrows(s0, s, first, plan, d, f, s.mem[d.frame]);
    hide PlanFor, Copied, KeepsBytes;
    var u := Fill(Alloc(s, f), f, s.mem[d.frame]);
    assert s.mem[f := Zeroed()][f := s.mem[d.frame]] == s.mem[f := s.mem[d.frame]];
    CopiedMem(s0, s.(mem := s.mem[f := s.mem[d.frame]]), u, plan + [PlanPage(first + |plan|, d, f)]);
    BytesKept(s0, s, u, f);
  }

  lemma BytesKept(s0: State, s: State, u: State, f: Frame)
    requires KeepsBytes(s0, s) && f in s0.free && f in u.mem && u.mem == s.mem[f := u.mem[f]]
    ensures KeepsBytes(s0, u)
  {
  }

  lemma CopiedMem(s0: State, s: State, t: State, plan: seq<PlanPage>)
    requires Copied(s0, s, plan) && s.mem == t.mem
    ensures Copied(s0, t, plan)
  {
  }

  lemma PlanAborted(s0: State, s: State, pool: set<Frame>, first: PageNo, plan: seq<PlanPage>)
    requires Planning(s0, s, pool, first, plan) && Core(s0, pool)
    requires Core(GiveBack(s, Targets(plan)), pool)
    ensures Untouched(s0, GiveBack(s, Targets(plan)))
  {
  }

  ghost function Sources(plan: seq<PlanPage>): set<Frame> {
    set i | 0 <= i < |plan| && plan[i].old_.Page? :: plan[i].old_.frame
  }

  function Moved(leaf: Flat, plan: seq<PlanPage>, k: nat): Flat
    requires k <= |plan|
  {
    if k == 0 then leaf
    else
      var m := plan[k - 1];
      Moved(leaf, plan, k - 1)[m.page := if m.old_.Page? then Page(m.to, m.old_.attrs) else m.old_]
  }

  lemma {:induction false} MovedAt(s0: State, first: PageNo, plan: seq<PlanPage>, k: nat, p: PageNo)
    requires PlanFor(s0, first, plan) && k <= |plan|
    ensures At(Moved(s0.leaf, plan, k), p) ==
            if In(p, first, k) then Page(plan[p - first].to, At(s0.leaf, p).attrs) else At(s0.leaf, p)
    ensures Moved(s0.leaf, plan, k).Keys == s0.leaf.Keys
  {
    if k > 0 {
      MovedAt(s0, first, plan, k - 1, p);
      assert plan[k - 1].page == first + (k - 1);
    }
  }

  /** `k` pages already point at their new frames; the frames they left and
      the new frames still unused are in hand. */
  ghost predicate Installing(s0: State, s: State, pool: set<Frame>, first: PageNo, plan: seq<PlanPage>, k: nat) {
    && k <= |plan| && Core(s, pool) && Fresh(s) && PlanFor(s0, first, plan) && Copied(s0, s, plan) && KeepsBytes(s0, s)
    && s == s0.(leaf := Moved(s0.leaf, plan, k), free := s0.free - Targets(plan),
                limbo := s0.limbo + (Targets(plan) - Targets(plan[..k])) + Sources(plan[..k]),
                home := s.home, mem := s.mem, tlb := s.tlb)
  }

  lemma InstallStart(s0: State, s: State, pool: set<Frame>, first: PageNo, plan: seq<PlanPage>)
    requires Planning(s0, s, pool, first, plan)
    ensures Installing(s0, s, pool, first, plan, 0)
  {
  }

  /** Page `k` still reads as in `s0` before its own turn, and again after the
      turn is undone. */
  lemma MovedStep(s0: State, first: PageNo, plan: seq<PlanPage>, k: nat)
    requires PlanFor(s0, first, plan) && k < |plan|
    ensures plan[k].old_.Page? && plan[k].page == first + k
    ensures var leaf := Moved(s0.leaf, plan, k);
            Mapped(leaf, first + k) && leaf[first + k] == plan[k].old_
            && Moved(s0.leaf, plan, k + 1)[first + k := plan[k].old_] == leaf
  {
    MovedAt(s0, first, plan, k, first + k);
    assert plan[k].page == first + k;
    assert Mapped(s0.leaf, first + k);
  }

  /** The sets on either side of one installation. */
  lemma InstallSets(s0: State, pool: set<Frame>, first: PageNo, plan: seq<PlanPage>, k: nat)
    requires Core(s0, pool) && PlanFor(s0, first, plan) && k < |plan|
    ensures plan[k].old_.Page? && plan[k].to in Targets(plan) && plan[k].to !in Targets(plan[..k])
    ensures Targets(plan[..k + 1]) == Targets(plan[..k]) + {plan[k].to}
    ensures Sources(plan[..k + 1]) == Sources(plan[..k]) + {plan[k].old_.frame}
    ensures plan[k].old_.frame in s0.home && plan[k].old_.frame !in Sources(plan[..k])
    ensures Sources(plan[..k]) <= s0.home.Keys && Targets(plan) <= s0.free
  {
  }

  /** `replace_4k` with its own one-page invalidation. */
  lemma RetargetFresh(s: State, pool: set<Frame>, p: PageNo, d: Descriptor)
    requires Core(s, pool) && Fresh(s) && Mapped(s.leaf, p) && p !in s.dev && d.Page? && d.frame in s.limbo
    ensures var t := Flush(Retarget(s, p, d), p, 1);
            Core(t, pool) && Fresh(t) && t == Retarget(s, p, d).(tlb := t.tlb)
  {
    RetargetKeeps(s, pool, p, d, p, p + 1);
    FlushKeeps(Retarget(s, p, d), pool, p, 1);
  }

  /** Page `p` with frame `to` in place of its own, same attributes. */
  function Installed(s: State, p: PageNo, to: Frame): State
    requires Mapped(s.leaf, p)
  {
    Flush(Retarget(s, p, Page(to, s.leaf[p].attrs)), p, 1)
  }

  lemma LimboStep(held: set<Frame>, all: set<Frame>, used: set<Frame>, left: set<Frame>, new_: Frame, old_: Frame)
    requires new_ in all && new_ !in held && new_ !in used && new_ !in left && new_ != old_
    requires old_ !in held && old_ !in all && old_ !in left
    ensures held + (all - used) + left - {new_} + {old_} == held + (all - (used + {new_})) + (left + {old_})
    ensures held + (all - (used + {new_})) + (left + {old_}) - {old_} + {new_} == held + (all - used) + left
  {
  }

  /** What is in hand before page `k` is installed, and after. */
  lemma InstallSides(s0: State, pool: set<Frame>, first: PageNo, plan: seq<PlanPage>, k: nat)
    requires Core(s0, pool) && PlanFor(s0, first, plan) && k < |plan|
    ensures var before := s0.limbo + (Targets(plan) - Targets(plan[..k])) + Sources(plan[..k]);
            var after := s0.limbo + (Targets(plan) - Targets(plan[..k + 1])) + Sources(plan[..k + 1]);
            && plan[k].old_.Page? && plan[k].to in before && plan[k].old_.frame in after
            && before - {plan[k].to} + {plan[k].old_.frame} == after
            && after - {plan[k].old_.frame} + {plan[k].to} == before
  {
    InstallSets(s0, pool, first, plan, k);
    DisjointHome(s0, pool, plan[k].old_.frame);
    DisjointFree(s0, pool, plan[k].to);
    LimboStep(s0.limbo, Targets(plan), Targets(plan[..k]), Sources(plan[..k]), plan[k].to, plan[k].old_.frame);
  }

  lemma InstallReady(s0: State, s: State, pool: set<Frame>, first: PageNo, plan: seq<PlanPage>, k: nat)
    requires Core(s0, pool) && Installing(s0, s, pool, first, plan, k) && k < |plan|
    ensures plan[k].old_.Page? && Mapped(s.leaf, first + k) && s.leaf[first + k] == plan[k].old_ && first + k !in s.dev
    ensures plan[k].to in s.limbo
  {
    hide Core, Fresh;
    InstallSides(s0, pool, first, plan, k);
    MovedStep(s0, first, plan, k);
  }

  lemma InstallStep(s0: State, s: State, pool: set<Frame>, first: PageNo, plan: seq<PlanPage>, k: nat, p: PageNo)
    requires k < |plan| && Mapped(s.leaf, p) && s.leaf[p] == plan[k].old_ && p !in s.dev
    requires plan[k].to in s.limbo && p == first + k
    requires Core(s0, pool) && Installing(s0, s, pool, first, plan, k)
    ensures Installing(s0, Installed(s, p, plan[k].to), pool, first, plan, k + 1)
  {
    hide Core, Fresh;
    InstallSides(s0, pool, first, plan, k);
    MovedStep(s0, first, plan, k);
    RetargetFresh(s, pool, p, Page(plan[k].to, s.leaf[p].attrs));
  }

  lemma UninstallReady(s0: State, s: State, pool: set<Frame>, first: PageNo, plan: seq<PlanPage>, k: nat)
    requires Core(s0, pool) && Installing(s0, s, pool, first, plan, k + 1)
    ensures Mapped(s.leaf, first + k) && s.leaf[first + k].frame == plan[k].to && first + k !in s.dev
    ensures plan[k].old_.Page? && plan[k].old_.frame in s.limbo
  {
    hide Core, Fresh;
    InstallSides(s0, pool, first, plan, k);
    MovedStep(s0, first, plan, k);
  }

  /** Undoing the last installation. */
  lemma UninstallStep(s0: State, s: State, pool: set<Frame>, first: PageNo, plan: seq<PlanPage>, k: nat)
    requires Core(s0, pool) && Installing(s0, s, pool, first, plan, k + 1)
    requires Mapped(s.leaf, first + k) && s.leaf[first + k].frame == plan[k].to && first + k !in s.dev
    requires plan[k].old_.Page? && plan[k].old_.frame in s.limbo
    ensures Installing(s0, Flush(Retarget(s, first + k, plan[k].old_), first + k, 1), pool, first, plan, k)
  {
    hide Core, Fresh;
    InstallSides(s0, pool, first, plan, k);
    MovedStep(s0, first, plan, k);
    RetargetFresh(s, pool, first + k, plan[k].old_);
  }

  lemma DisjointHome(s: State, pool: set<Frame>, f: Frame)
    requires Core(s, pool) && f in s.home
    ensures f !in s.free && f !in s.limbo && f !in s.lent && f !in s.pinned && f in pool
  {
  }

  lemma DisjointFree(s: State, pool: set<Frame>, f: Frame)
    requires Core(s, pool) && f in s.free
    ensures f !in s.home && f !in s.limbo && f !in s.lent && f !in s.pinned && f in pool
  {
  }

  /** Success of `relocate`: same pages, same attributes, same bytes, frames
      that were free before. */
  ghost predicate Relocated(s0: State, s: State, first: PageNo, n: nat) {
    && Fresh(s) && s == s0.(leaf := s.leaf, free := s.free, home := s.home, mem := s.mem, tlb := s.tlb)
    && s.leaf.Keys == s0.leaf.Keys
    && (forall p: PageNo {:trigger At(s.leaf, p)} {:trigger At(s0.leaf, p)} ::
          if In(p, first, n) then SameBytes(s0, s, p) else At(s.leaf, p) == At(s0.leaf, p))
    && KeepsBytes(s0, s)
  }

  ghost predicate SameBytes(s0: State, s: State, p: PageNo) {
    && Mapped(s0.leaf, p) && Mapped(s.leaf, p) && s.leaf[p].attrs == s0.leaf[p].attrs
    && s.leaf[p].frame in s0.free && s.leaf[p].frame in s.mem && s0.leaf[p].frame in s0.mem
    && s.mem[s.leaf[p].frame] == s0.mem[s0.leaf[p].frame]
  }

  lemma RelocatedAt(s0: State, s: State, pool: set<Frame>, first: PageNo, plan: seq<PlanPage>, p: PageNo)
    requires Installing(s0, s, pool, first, plan, |plan|)
    ensures if In(p, first, |plan|) then SameBytes(s0, s, p) else At(s.leaf, p) == At(s0.leaf, p)
  {
    hide Core, Fresh;
    MovedAt(s0, first, plan, |plan|, p);
    if In(p, first, |plan|) {
      var i := p - first;
      assert plan[i].page == first + i;
      assert plan[i].old_ == s0.leaf[first + i];
    }
  }

  lemma SourcesMapped(s0: State, pool: set<Frame>, first: PageNo, plan: seq<PlanPage>)
    requires Core(s0, pool) && PlanFor(s0, first, plan)
    ensures Sources(plan) !! s0.limbo
  {
  }

  lemma RelocateDone(s0: State, s: State, pool: set<Frame>, first: PageNo, plan: seq<PlanPage>)
    requires Core(s0, pool) && Installing(s0, s, pool, first, plan, |plan|)
    ensures Sources(plan) <= s.limbo
    ensures Relocated(s0, GiveBack(s, Sources(plan)), first, |plan|)
  {
    hide Core, Fresh;
    assert plan[..|plan|] == plan;
    SourcesMapped(s0, pool, first, plan);
    assert s.limbo == s0.limbo + Sources(plan);
    var s' := GiveBack(s, Sources(plan));
    GiveBackSafe(s, pool, Sources(plan));
    assert s'.limbo == s0.limbo;
    forall p: PageNo
      ensures if In(p, first, |plan|) then SameBytes(s0, s', p) else At(s'.leaf, p) == At(s0.leaf, p)
    {
      RelocatedAt(s0, s, pool, first, plan, p);
      assert s'.leaf == s.leaf && s'.mem == s.mem;
    }
    MovedAt(s0, first, plan, |plan|, first);
  }

  lemma RelocateUndone(s0: State, s: State, pool: set<Frame>, first: PageNo, plan: seq<PlanPage>)
    requires Core(s0, pool) && Installing(s0, s, pool, first, plan, 0)
    ensures Targets(plan) <= s.limbo
    ensures Core(GiveBack(s, Targets(plan)), pool) ==> Untouched(s0, GiveBack(s, Targets(plan)))
  {
  }

  lemma PlanOf(s0: State, s: State, pool: set<Frame>, first: PageNo, plan: seq<PlanPage>, k: nat)
    requires Installing(s0, s, pool, first, plan, k)
    ensures k <= |plan| && PlanFor(s0, first, plan) && Fresh(s)
  {
  }

  lemma PlanHeld(s0: State, s: State, pool: set<Frame>, first: PageNo, plan: seq<PlanPage>)
    requires Planning(s0, s, pool, first, plan)
    ensures Targets(plan) <= s.limbo && forall i, j :: 0 <= i < j < |plan| ==> plan[i].to != plan[j].to
  {
  }

  lemma PoolKnown(s: State, pool: set<Frame>, f: Frame)
    requires Core(s, pool) && f in s.free
    ensures f in pool
  {
  }

  lemma SourcesDistinct(s0: State, pool: set<Frame>, first: PageNo, plan: seq<PlanPage>)
    requires Core(s0, pool) && PlanFor(s0, first, plan)
    ensures forall i, j :: 0 <= i < j < |plan| ==> plan[i].old_.frame != plan[j].old_.frame
  {
  }

  lemma TargetsAsList(plan: seq<PlanPage>, frames: seq<Frame>)
    requires |frames| == |plan| && forall i :: 0 <= i < |plan| ==> frames[i] == plan[i].to
    ensures Targets(plan) == set i | 0 <= i < |frames| :: frames[i]
  {
  }

  lemma SourcesAsList(plan: seq<PlanPage>, frames: seq<Frame>)
    requires |frames| == |plan|
    requires forall i :: 0 <= i < |plan| ==> plan[i].old_.Page? && frames[i] == plan[i].old_.frame
    ensures Sources(plan) == set i | 0 <= i < |frames| :: frames[i]
  {
  }

  // ---- Clearing swap descriptors

  /** `leaf` with the swap descriptors of `pages` cleared. */
  function Cleared(leaf: Flat, pages: set<PageNo>): Flat {
    map p | p in leaf :: if p in pages && leaf[p].Swap? then Absent else leaf[p]
  }

  lemma ClearedAt(leaf: Flat, pages: set<PageNo>, p: PageNo)
    ensures At(Cleared(leaf, pages), p) == if p in pages && At(leaf, p).Swap? then Absent else At(leaf, p)
  {
  }

  lemma ClearedStep(leaf: Flat, pages: set<PageNo>, p: PageNo)
    ensures At(leaf, p).Swap? && p !in pages ==> p in Cleared(leaf, pages) && Cleared(leaf, pages)[p := Absent] == Cleared(leaf, pages + {p})
    ensures !At(leaf, p).Swap? || p in pages ==> Cleared(leaf, pages) == Cleared(leaf, pages + {p})
  {
  }

  // ---- Swapping one page

  /** A page leaves its slot, is invalidated, and its frame goes back. */
  lemma EvictKeeps(s: State, pool: set<Frame>, p: PageNo, d: Descriptor)
    requires Core(s, pool) && Fresh(s) && Mapped(s.leaf, p) && p !in s.dev && !d.Page?
    ensures var f, t := s.leaf[p].frame, Detach(s, p, d);
            && Core(t, pool) && f in s.mem && f in Flush(t, p, 1).limbo
            && Dealloc(Flush(t, p, 1), f)
                 == s.(leaf := s.leaf[p := d], free := s.free + {f}, home := s.home - {f}, tlb := Flush(t, p, 1).tlb)
            && Fresh(Dealloc(Flush(t, p, 1), f))
  {
    var f, t := s.leaf[p].frame, Detach(s, p, d);
    DetachKeeps(s, pool, p, d, p, p + 1);
    FlushKeeps(t, pool, p, 1);
    DeallocKeeps(Flush(t, p, 1), pool, f);
    assert Dealloc(Flush(t, p, 1), f).limbo == s.limbo;
  }

  /** `leaf` with the valid pages among `pages` unmapped. */
  function Dropped(leaf: Flat, pages: set<PageNo>): Flat {
    map p | p in leaf :: if p in pages && leaf[p].Page? then Absent else leaf[p]
  }

  lemma DroppedAt(leaf: Flat, pages: set<PageNo>, p: PageNo)
    ensures At(Dropped(leaf, pages), p) == if p in pages && At(leaf, p).Page? then Absent else At(leaf, p)
  {
  }

  lemma DroppedStep(leaf: Flat, pages: set<PageNo>, p: PageNo)
    ensures At(leaf, p).Page? && p !in pages ==> p in Dropped(leaf, pages) && Dropped(leaf, pages)[p := Absent] == Dropped(leaf, pages + {p})
    ensures !At(leaf, p).Page? || p in pages ==> Dropped(leaf, pages) == Dropped(leaf, pages + {p})
  {
  }

  /** The page is back with the given bytes, on a frame that was free. */
  ghost predicate SwappedIn(s0: State, s: State, p: PageNo, attrs: Attrs, bytes: Bytes) {
    && s == s0.(leaf := s.leaf, free := s.free, home := s.home, mem := s.mem, tlb := s.tlb)
    && Mapped(s.leaf, p) && s.leaf == s0.leaf[p := s.leaf[p]] && s.leaf[p].attrs == attrs
    && s.leaf[p].frame in s0.free && s.leaf[p].frame in s.mem && s.mem[s.leaf[p].frame] == bytes
    && KeepsBytes(s0, s)
  }

  lemma SwapInKeeps(s: State, pool: set<Frame>, p: PageNo, f: Frame, attrs: Attrs, bytes: Bytes)
    requires Core(s, pool) && Fresh(s) && f in s.free && !Mapped(s.leaf, p) && s.limbo == {}
    ensures var t := Fill(Alloc(s, f), f, bytes);
            && Core(t, pool) && Fresh(t) && f in t.limbo
            && Core(Attach(t, p, f, attrs), pool) && Fresh(Attach(t, p, f, attrs))
            && SwappedIn(s, Attach(t, p, f, attrs), p, attrs, bytes)
            && Untouched(s, Dealloc(t, f))
  {
    var t := Fill(Alloc(s, f), f, bytes);
    AllocKeeps(s, pool, f);
    AllocFresh(s, f);
    FillKeeps(Alloc(s, f), pool, f, bytes);
    FillFresh(Alloc(s, f), f, bytes);
    AttachKeeps(t, pool, p, f, attrs);
    DeallocKeeps(t, pool, f);
    assert Attach(t, p, f, attrs).limbo == {} && Dealloc(t, f).limbo == {};
    assert Dealloc(t, f).free == s.free;
  }
}
