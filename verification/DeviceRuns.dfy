/** Mapping a run of device frames page by page, and taking one down. */
module DeviceRuns {
  import opened PageWalk
  import opened PageTables
  import opened Machine
  import opened Runs

  function Pages(first: PageNo, n: nat): (s: set<PageNo>)
    ensures forall p: PageNo :: p in s <==> first <= p < first + n
  {
    set p: PageNo | first <= p < first + n && In(p, first, n)
  }

  function Run(frame: Frame, n: nat): (s: set<Frame>)
    ensures forall f: Frame :: f in s <==> frame <= f < frame + n
  {
    set f: Frame | frame <= f < frame + n && In(f, frame, n)
  }

  /** The frames of a device run may be named: outside the pool, or pinned. */
  ghost predicate Nameable(s: State, pool: set<Frame>, frame: Frame, n: nat) {
    forall f: Frame :: frame <= f < frame + n && f in pool ==> f in s.pinned
  }

  ghost predicate DevicePage(s0: State, s: State, p: PageNo, f: Frame, attrs: Attrs) {
    At(s0.leaf, p).Absent? && At(s.leaf, p) == Page(f, attrs)
  }

  ghost predicate Devicing(s0: State, s: State, pool: set<Frame>, first: PageNo, done: nat, frame: Frame, attrs: Attrs) {
    && Core(s, pool) && Fresh(s)
    && s == s0.(leaf := s.leaf, dev := s0.dev + Pages(first, done), tlb := s.tlb)
    && s0.leaf.Keys <= s.leaf.Keys
    && Devices(s0, s, first, done, frame, attrs)
  }

  ghost predicate DeviceAt(s0: State, s: State, first: PageNo, done: nat, frame: Frame, attrs: Attrs, p: PageNo) {
    if In(p, first, done) then DevicePage(s0, s, p, frame + (p - first), attrs) else At(s.leaf, p) == At(s0.leaf, p)
  }

  ghost predicate Devices(s0: State, s: State, first: PageNo, done: nat, frame: Frame, attrs: Attrs) {
    forall p: PageNo {:trigger At(s.leaf, p)} {:trigger At(s0.leaf, p)} {:trigger DeviceAt(s0, s, first, done, frame, attrs, p)} ::
      DeviceAt(s0, s, first, done, frame, attrs, p)
  }

  lemma DeviceStart(s: State, pool: set<Frame>, first: PageNo, frame: Frame, attrs: Attrs)
    requires Core(s, pool) && Fresh(s)
    ensures Devicing(s, s, pool, first, 0, frame, attrs)
  {
  }

  lemma DeviceStep(s0: State, s: State, pool: set<Frame>, first: PageNo, done: nat, n: nat, frame: Frame, attrs: Attrs, p: PageNo)
    requires Devicing(s0, s, pool, first, done, frame, attrs) && Nameable(s0, pool, frame, n) && done < n
    requires p == first + done && At(s0.leaf, p).Absent?
    ensures Devicing(s0, MapDevice(s, p, frame + done, attrs), pool, first, done + 1, frame, attrs)
  {
    assert At(s.leaf, p) == At(s0.leaf, p);
    MapDeviceKeeps(s, pool, p, frame + done, attrs);
    assert s0.dev + Pages(first, done) + {p} == s0.dev + Pages(first, done + 1);
    DevicesStep(s0, s, pool, first, done, frame, attrs);
  }

  lemma DevicesStep(s0: State, s: State, pool: set<Frame>, first: PageNo, done: nat, frame: Frame, attrs: Attrs)
    requires Devicing(s0, s, pool, first, done, frame, attrs) && At(s0.leaf, first + done).Absent?
    ensures Devices(s0, MapDevice(s, first + done, frame + done, attrs), first, done + 1, frame, attrs)
  {
    var t, n := MapDevice(s, first + done, frame + done, attrs), done + 1;
    forall q: PageNo
      ensures DeviceAt(s0, t, first, n, frame, attrs, q)
    {
      DeviceStepAt(s0, s, pool, first, done, frame, attrs, q);
    }
  }

  lemma DeviceStepAt(s0: State, s: State, pool: set<Frame>, first: PageNo, done: nat, frame: Frame, attrs: Attrs, q: PageNo)
    requires Devicing(s0, s, pool, first, done, frame, attrs) && At(s0.leaf, first + done).Absent?
    ensures DeviceAt(s0, MapDevice(s, first + done, frame + done, attrs), first, done + 1, frame, attrs, q)
  {
  }

  /** `done` pages of a device range are unmapped, none flushed yet. */
  ghost predicate Tearing(s0: State, s: State, pool: set<Frame>, first: PageNo, done: nat) {
    && Core(s, pool) && StaleWithin(s, first, first + done)
    && s == s0.(leaf := Blanked(s0.leaf, first, done), dev := s0.dev - Pages(first, done))
  }

  lemma TearStart(s: State, pool: set<Frame>, first: PageNo)
    requires Core(s, pool) && Fresh(s)
    ensures Tearing(s, s, pool, first, 0)
  {
  }

  lemma TearStep(s0: State, s: State, pool: set<Frame>, first: PageNo, done: nat, p: PageNo)
    requires Tearing(s0, s, pool, first, done) && p == first + done && p in s.dev
    ensures Mapped(s.leaf, p)
    ensures Tearing(s0, UnmapDevice(s, p), pool, first, done + 1)
  {
    assert Mapped(s.leaf, p);
    UnmapDeviceKeeps(s, pool, p, first, first + done + 1);
    BlankedStep(s0.leaf, first, done);
    assert s0.dev - Pages(first, done) - {p} == s0.dev - Pages(first, done + 1);
  }

  lemma TearFlush(s0: State, s: State, pool: set<Frame>, first: PageNo, n: nat)
    requires Tearing(s0, s, pool, first, n)
    ensures var t := Flush(s, first, n);
            Core(t, pool) && Fresh(t)
            && t == s0.(leaf := Blanked(s0.leaf, first, n), dev := s0.dev - Pages(first, n), tlb := t.tlb)
  {
  }

  /** A mapping undone half-way leaves every page reading as before. */
  lemma DeviceUndone(s0: State, s: State, s': State, pool: set<Frame>, first: PageNo, done: nat, frame: Frame, attrs: Attrs)
    requires Core(s0, pool) && Devicing(s0, s, pool, first, done, frame, attrs)
    requires Core(s', pool) && Fresh(s')
    requires s' == s.(leaf := Blanked(s.leaf, first, done), dev := s.dev - Pages(first, done), tlb := s'.tlb)
    ensures Untouched(s0, s')
  {
    forall p: PageNo ensures At(s'.leaf, p) == At(s0.leaf, p) {
      assert At(s.leaf, p) == At(s.leaf, p);
    }
    forall p | p in s0.dev ensures p !in Pages(first, done) {
      assert Mapped(s0.leaf, p);
      assert At(s0.leaf, p).Page?;
    }
    assert s0.dev + Pages(first, done) - Pages(first, done) == s0.dev;
  }

  lemma TearingCore(s0: State, s: State, pool: set<Frame>, first: PageNo, done: nat)
    requires Tearing(s0, s, pool, first, done)
    ensures Core(s, pool)
  {
  }

  lemma DeviceReady(s0: State, s: State, pool: set<Frame>, first: PageNo, done: nat, frame: Frame, attrs: Attrs)
    requires Devicing(s0, s, pool, first, done, frame, attrs)
    ensures Fresh(s) && Pages(first, done) <= s.dev
  {
  }

  lemma DeviceStepCore(s0: State, s: State, pool: set<Frame>, first: PageNo, done: nat, n: nat, frame: Frame, attrs: Attrs, p: PageNo)
    requires Devicing(s0, MapDevice(s, p, frame + done, attrs), pool, first, done + 1, frame, attrs)
    ensures Core(MapDevice(s, p, frame + done, attrs), pool)
  {
  }
}
