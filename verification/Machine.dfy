/** Frames, leaves and cached translations as one value, the elementary steps
    the address space is made of, and what every one of those steps keeps.

    `pool` is the set of user frames. A frame is always in exactly one place:
    free, held by the running operation (`limbo`), handed to the fault-time
    reserve (`lent`), part of a pinned run, or mapped by one ordinary leaf
    (`home`). `tlb` holds every translation some processor may still have
    cached; `tainted` records that a frame was ever given back while such a
    translation to it survived. */
module Machine {
  import opened PageWalk
  import opened PageTables

  const PAGE := 4096

  /** What one frame holds. */
  type Bytes = b: seq<bv8> | |b| == PAGE witness seq(PAGE, _ => 0)

  function Zeroed(): (b: Bytes)
    ensures forall i :: 0 <= i < PAGE ==> b[i] == 0
  {
    seq(PAGE, _ => 0)
  }

  type Cached = (PageNo, Descriptor)

  datatype State = State(
    leaf: Flat,
    dev: set<PageNo>,
    free: set<Frame>,
    limbo: set<Frame>,
    lent: set<Frame>,
    pinned: set<Frame>,
    home: map<Frame, PageNo>,
    mem: map<Frame, Bytes>,
    tlb: set<Cached>,
    tainted: bool)

  predicate Mapped(leaf: Flat, p: PageNo) {
    p in leaf && leaf[p].Page?
  }

  // ---- What always holds

  /** Conservation: the five places partition the pool. */
  ghost predicate Partition(s: State, pool: set<Frame>) {
    && s.free + s.limbo + s.lent + s.pinned + s.home.Keys == pool
    && s.free !! s.limbo !! s.lent !! s.pinned !! s.home.Keys
    && s.mem.Keys == pool
  }

  /** `home` is the inverse of the ordinary leaves, so no frame is mapped by
      two of them; while nothing has been freed under a live translation, a
      device leaf never names an ordinary or free pool frame. */
  ghost predicate Homes(s: State, pool: set<Frame>) {
    && (forall f :: f in s.home ==>
          Mapped(s.leaf, s.home[f]) && s.leaf[s.home[f]].frame == f && s.home[f] !in s.dev)
    && (forall p :: Mapped(s.leaf, p) && p !in s.dev ==>
          s.leaf[p].frame in s.home && s.home[s.leaf[p].frame] == p)
    && (forall p :: p in s.dev ==>
          && Mapped(s.leaf, p)
          && (s.leaf[p].frame in pool && !s.tainted ==> s.leaf[p].frame in s.pinned))
  }

  ghost predicate Tlb(s: State) {
    && (forall p, d :: (p, d) in s.tlb ==> d.Page?)
    && (forall p :: Mapped(s.leaf, p) ==> (p, s.leaf[p]) in s.tlb)
  }

  ghost predicate Core(s: State, pool: set<Frame>) {
    Partition(s, pool) && Homes(s, pool) && Tlb(s)
  }

  predicate Current(s: State, p: PageNo, d: Descriptor) {
    p in s.leaf && s.leaf[p] == d
  }

  /** Every stale translation is for a page of `[lo, hi)`. */
  ghost predicate StaleWithin(s: State, lo: int, hi: int) {
    forall p, d :: (p, d) in s.tlb ==> Current(s, p, d) || lo <= p < hi
  }

  /** No processor holds a stale translation. */
  ghost predicate Fresh(s: State) {
    forall p, d :: (p, d) in s.tlb ==> Current(s, p, d)
  }

  ghost predicate Reachable(s: State, f: Frame) {
    exists p, d :: (p, d) in s.tlb && d.Page? && d.frame == f
  }

  // ---- The steps

  function Alloc(s: State, f: Frame): State {
    s.(free := s.free - {f}, limbo := s.limbo + {f}, mem := s.mem[f := Zeroed()])
  }

  ghost function Dealloc(s: State, f: Frame): State {
    s.(limbo := s.limbo - {f}, free := s.free + {f}, tainted := s.tainted || Reachable(s, f))
  }

  function Map(s: State, p: PageNo, f: Frame, a: Attrs): State {
    s.(leaf := WithLeafTable(s.leaf, p)[p := Page(f, a)],
       limbo := s.limbo - {f}, home := s.home[f := p],
       tlb := s.tlb + {(p, Page(f, a))})
  }

  /** An ordinary page leaves its slot, which then reads `d`. */
  function Detach(s: State, p: PageNo, d: Descriptor): State
    requires Mapped(s.leaf, p)
  {
    var f := s.leaf[p].frame;
    s.(leaf := s.leaf[p := d], home := s.home - {f}, limbo := s.limbo + {f})
  }

  function Reprotect(s: State, p: PageNo, a: Attrs): State
    requires Mapped(s.leaf, p)
  {
    var d := Page(s.leaf[p].frame, a);
    s.(leaf := s.leaf[p := d], tlb := s.tlb + {(p, d)})
  }

  /** An ordinary page changes frames. */
  function Retarget(s: State, p: PageNo, d: Descriptor): State
    requires Mapped(s.leaf, p) && d.Page?
  {
    var f := s.leaf[p].frame;
    s.(leaf := s.leaf[p := d], home := (s.home - {f})[d.frame := p],
       limbo := s.limbo - {d.frame} + {f}, tlb := s.tlb + {(p, d)})
  }

  function Clear(s: State, p: PageNo): State {
    s.(leaf := s.leaf[p := Absent])
  }

  function Fill(s: State, f: Frame, b: Bytes): State {
    s.(mem := s.mem[f := b])
  }

  function Flush(s: State, lo: int, n: int): State {
    s.(tlb := set e | e in s.tlb && (!(lo <= e.0 < lo + n) || Current(s, e.0, e.1)))
  }

  /** A device leaf: registers, a pinned run, or a second view of one. */
  function MapDevice(s: State, p: PageNo, f: Frame, a: Attrs): State {
    s.(leaf := WithLeafTable(s.leaf, p)[p := Page(f, a)], dev := s.dev + {p},
       tlb := s.tlb + {(p, Page(f, a))})
  }

  function UnmapDevice(s: State, p: PageNo): State {
    s.(leaf := s.leaf[p := Absent], dev := s.dev - {p})
  }

  /** One contiguous allocation of whole frames, zeroed. */
  function Pin(s: State, run: set<Frame>): State {
    s.(free := s.free - run, pinned := s.pinned + run,
       mem := map f | f in s.mem :: if f in run then Zeroed() else s.mem[f])
  }

  ghost function Unpin(s: State, run: set<Frame>): State {
    s.(pinned := s.pinned - run, free := s.free + run,
       tainted := s.tainted || exists f :: f in run && Reachable(s, f))
  }

  /** A fault-time commit: a lent frame goes behind an existing leaf slot. */
  function MapLent(s: State, p: PageNo, f: Frame, a: Attrs): State {
    s.(leaf := s.leaf[p := Page(f, a)], lent := s.lent - {f}, home := s.home[f := p],
       tlb := s.tlb + {(p, Page(f, a))})
  }

  /** A zeroed frame moves to the fault-time reserve. */
  function Lend(s: State, f: Frame): State {
    s.(free := s.free - {f}, lent := s.lent + {f}, mem := s.mem[f := Zeroed()])
  }

  /** A frame in hand goes behind an existing leaf slot. */
  function Attach(s: State, p: PageNo, f: Frame, a: Attrs): State {
    s.(leaf := s.leaf[p := Page(f, a)], limbo := s.limbo - {f}, home := s.home[f := p],
       tlb := s.tlb + {(p, Page(f, a))})
  }

  // ---- What every step keeps

  lemma AllocKeeps(s: State, pool: set<Frame>, f: Frame)
    requires Core(s, pool) && f in s.free
    ensures Core(Alloc(s, f), pool)
  {
  }

  lemma FillKeeps(s: State, pool: set<Frame>, f: Frame, b: Bytes)
    requires Core(s, pool) && f in pool
    ensures Core(Fill(s, f, b), pool)
  {
  }

  lemma DeallocKeeps(s: State, pool: set<Frame>, f: Frame)
    requires Core(s, pool) && f in s.limbo
    ensures Core(Dealloc(s, f), pool)
    ensures Fresh(s) ==> Fresh(Dealloc(s, f)) && Dealloc(s, f).tainted == s.tainted
  {
  }

  lemma MapKeeps(s: State, pool: set<Frame>, p: PageNo, f: Frame, a: Attrs)
    requires Core(s, pool) && f in s.limbo && !Mapped(s.leaf, p)
    ensures Core(Map(s, p, f, a), pool)
    ensures Fresh(s) ==> Fresh(Map(s, p, f, a))
  {
    var s' := Map(s, p, f, a);
    assert p !in s.dev;
    forall q | Mapped(s'.leaf, q) && q != p ensures Mapped(s.leaf, q) && s.leaf[q] == s'.leaf[q] {}
    forall q | Mapped(s.leaf, q) ensures Mapped(s'.leaf, q) && s.leaf[q] == s'.leaf[q] {}
    assert Homes(s', pool);
    if Fresh(s) {
      forall q, d | (q, d) in s'.tlb ensures Current(s', q, d) {
        if (q, d) in s.tlb { assert Current(s, q, d); assert Mapped(s.leaf, q); }
      }
    }
  }

  lemma DetachKeeps(s: State, pool: set<Frame>, p: PageNo, d: Descriptor, lo: int, hi: int)
    requires Core(s, pool) && Mapped(s.leaf, p) && p !in s.dev && !d.Page?
    requires StaleWithin(s, lo, hi) && lo <= p < hi
    ensures Core(Detach(s, p, d), pool)
    ensures StaleWithin(Detach(s, p, d), lo, hi)
    ensures s.leaf[p].frame !in s.limbo
  {
  }

  lemma ReprotectKeeps(s: State, pool: set<Frame>, p: PageNo, a: Attrs, lo: int, hi: int)
    requires Core(s, pool) && Mapped(s.leaf, p)
    requires StaleWithin(s, lo, hi) && lo <= p < hi
    ensures Core(Reprotect(s, p, a), pool)
    ensures StaleWithin(Reprotect(s, p, a), lo, hi)
  {
  }

  lemma RetargetKeeps(s: State, pool: set<Frame>, p: PageNo, d: Descriptor, lo: int, hi: int)
    requires Core(s, pool) && Mapped(s.leaf, p) && p !in s.dev
    requires d.Page? && d.frame in s.limbo
    requires StaleWithin(s, lo, hi) && lo <= p < hi
    ensures Core(Retarget(s, p, d), pool)
    ensures StaleWithin(Retarget(s, p, d), lo, hi)
  {
    var s' := Retarget(s, p, d);
    forall q ensures Mapped(s'.leaf, q) <==> Mapped(s.leaf, q) {}
    assert Homes(s', pool);
    forall q, e | (q, e) in s'.tlb ensures Current(s', q, e) || lo <= q < hi {
      if (q, e) in s.tlb { assert Current(s, q, e) || lo <= q < hi; }
    }
  }

  lemma ClearKeeps(s: State, pool: set<Frame>, p: PageNo)
    requires Core(s, pool) && !Mapped(s.leaf, p)
    ensures Core(Clear(s, p), pool)
    ensures Fresh(s) ==> Fresh(Clear(s, p))
  {
  }

  lemma FlushKeeps(s: State, pool: set<Frame>, lo: int, n: int)
    requires Core(s, pool)
    ensures Core(Flush(s, lo, n), pool)
    ensures StaleWithin(s, lo, lo + n) ==> Fresh(Flush(s, lo, n))
  {
  }

  lemma MapDeviceKeeps(s: State, pool: set<Frame>, p: PageNo, f: Frame, a: Attrs)
    requires Core(s, pool) && !Mapped(s.leaf, p) && (f in pool ==> f in s.pinned)
    ensures Core(MapDevice(s, p, f, a), pool)
    ensures Fresh(s) ==> Fresh(MapDevice(s, p, f, a))
  {
  }

  lemma UnmapDeviceKeeps(s: State, pool: set<Frame>, p: PageNo, lo: int, hi: int)
    requires Core(s, pool) && p in s.dev
    requires StaleWithin(s, lo, hi) && lo <= p < hi
    ensures Core(UnmapDevice(s, p), pool)
    ensures StaleWithin(UnmapDevice(s, p), lo, hi)
  {
  }

  lemma PinKeeps(s: State, pool: set<Frame>, run: set<Frame>)
    requires Core(s, pool) && run <= s.free
    ensures Core(Pin(s, run), pool)
  {
  }

  /** Some device leaf names a frame of `run`. */
  ghost predicate Named(s: State, run: set<Frame>) {
    exists p :: p in s.dev && Mapped(s.leaf, p) && s.leaf[p].frame in run
  }

  /** A run goes back: it is then reachable through a cached translation
      exactly when a device leaf still names one of its frames. */
  lemma UnpinKeeps(s: State, pool: set<Frame>, run: set<Frame>)
    requires Core(s, pool) && run <= s.pinned
    ensures Core(Unpin(s, run), pool)
    ensures Fresh(s) ==> Fresh(Unpin(s, run))
    ensures Fresh(s) ==> (Unpin(s, run).tainted <==> s.tainted || Named(s, run))
  {
    UnpinTaints(s, pool, run);
    var t := Unpin(s, run);
    forall p | p in t.dev && t.leaf[p].frame in pool && !t.tainted ensures t.leaf[p].frame in t.pinned {
      assert p in s.dev && Mapped(s.leaf, p);
      assert s.leaf[p].frame in run ==> Named(s, run);
    }
  }

  lemma UnpinTaints(s: State, pool: set<Frame>, run: set<Frame>)
    requires Core(s, pool) && run <= s.pinned
    ensures Named(s, run) ==> Unpin(s, run).tainted
    ensures Fresh(s) && Unpin(s, run).tainted ==> s.tainted || Named(s, run)
  {
    if Named(s, run) {
      var p :| p in s.dev && Mapped(s.leaf, p) && s.leaf[p].frame in run;
      var f := s.leaf[p].frame;
      assert (p, s.leaf[p]) in s.tlb;
      assert Reachable(s, f);
    }
    if Fresh(s) && Unpin(s, run).tainted && !s.tainted {
      var f :| f in run && Reachable(s, f);
      var p, d :| (p, d) in s.tlb && d.Page? && d.frame == f;
      assert Current(s, p, d);
      assert p !in s.dev ==> f in s.home;
    }
  }

  lemma MapLentKeeps(s: State, pool: set<Frame>, p: PageNo, f: Frame, a: Attrs)
    requires Core(s, pool) && f in s.lent && p in s.leaf && !s.leaf[p].Page?
    ensures Core(MapLent(s, p, f, a), pool)
    ensures Fresh(s) ==> Fresh(MapLent(s, p, f, a))
  {
  }

  lemma AttachKeeps(s: State, pool: set<Frame>, p: PageNo, f: Frame, a: Attrs)
    requires Core(s, pool) && f in s.limbo && !Mapped(s.leaf, p)
    ensures Core(Attach(s, p, f, a), pool)
    ensures Fresh(s) ==> Fresh(Attach(s, p, f, a))
  {
  }

  lemma PrepareKeeps(s: State, pool: set<Frame>, p: PageNo)
    requires Core(s, pool) && Fresh(s)
    ensures var t := s.(leaf := WithLeafTable(s.leaf, p)); Core(t, pool) && Fresh(t)
  {
  }

  lemma LendKeeps(s: State, pool: set<Frame>, f: Frame)
    requires Core(s, pool) && f in s.free
    ensures Core(Lend(s, f), pool) && (Fresh(s) ==> Fresh(Lend(s, f)))
  {
  }
}
