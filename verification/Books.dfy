/** The address space's own records against the machine: swap entries against
    leaf descriptors, grants against leaves, the device list against device
    leaves and pinned frames, and the ledger of swap tokens. */
module Books {
  import opened PageWalk
  import opened PageTables
  import opened Machine
  import opened Runs
  import opened DeviceRuns
  import opened Regions

  /** `page_flags_to_pte`, on decoded attributes. */
  function PageFlagsToPte(flags: PageFlags): Result<Attrs> {
    if flags.IsEmpty() then Err(InvalidFlags) else Ok(AttrsOf(flags))
  }

  // ---- Leaves against the tracker's maps

  /** The page table is the swap map: a leaf is a swap descriptor exactly for
      the pages on record as swapped, with the recorded token. */
  ghost predicate SwapAgree(leaf: Flat, s: Swaps) {
    forall p: PageNo {:trigger At(leaf, p)} {:trigger p in s} ::
      if p in s then At(leaf, p) == Swap(s[p].token) else !At(leaf, p).Swap?
  }

  ghost predicate EntriesOk(s: Swaps) {
    forall p :: p in s ==> s[p].page == p && !s[p].grant.flags.IsEmpty()
  }

  ghost predicate GrantOk(st: State, demand: set<PageNo>, p: PageNo, g: Grant) {
    && p !in st.dev && !g.flags.IsEmpty()
    && (p in demand || (At(st.leaf, p).Page? && At(st.leaf, p).attrs == AttrsOf(g.flags)))
  }

  /** Every ordinary mapped page is on the record. */
  ghost predicate OnRecord(s: State, c: Grants) {
    forall p: PageNo :: Mapped(s.leaf, p) && p !in s.dev ==> p in c
  }

  /** A committed page is never a device page, and outside the demand-commit
      regions it is mapped with exactly the attributes its flags call for. */
  ghost predicate GrantAgree(st: State, c: Grants, demand: set<PageNo>) {
    forall p :: p in c ==> GrantOk(st, demand, p, c[p])
  }

  ghost predicate Agree(st: State, c: Grants, s: Swaps, demand: set<PageNo>) {
    SwapAgree(st.leaf, s) && EntriesOk(s) && GrantAgree(st, c, demand)
  }

  lemma AgreeSame(s0: State, s: State, c: Grants, sw: Swaps, demand: set<PageNo>)
    requires Agree(s0, c, sw, demand) && s.dev == s0.dev
    requires forall p: PageNo :: At(s.leaf, p) == At(s0.leaf, p)
    ensures Agree(s, c, sw, demand)
  {
  }

  /** Dropping the swap entries of a range together with their descriptors. */
  lemma AgreeDrop(s0: State, s: State, c: Grants, sw: Swaps, demand: set<PageNo>, pages: set<PageNo>, range: Range)
    requires Agree(s0, c, sw, demand) && c.Keys !! sw.Keys
    requires s == s0.(leaf := Cleared(s0.leaf, pages))
    requires forall p :: p in pages ==> range.Has(p)
    requires forall p :: p in sw && range.Has(p) ==> p in pages
    ensures Agree(s, c, Minus(sw, range), demand)
  {
  }

  lemma AgreeDecommit(s0: State, s: State, c: Grants, sw: Swaps, demand: set<PageNo>, range: Range, done: nat)
    requires Agree(s0, c, sw, demand) && done <= range.count && AllMapped(s0.leaf, range.first, done)
    requires s.dev == s0.dev && s.leaf == Blanked(s0.leaf, range.first, done)
    ensures Agree(s, Minus(c, range), sw, demand)
  {
    AllMappedMeans(s0.leaf, range.first, done);
    forall p: PageNo ensures At(s.leaf, p) == if In(p, range.first, done) then Absent else At(s0.leaf, p) {
      assert In(p, range.first, done) ==> Mapped(s0.leaf, p);
    }
    forall p | p in Minus(c, range) ensures GrantOk(s, demand, p, c[p]) {
      assert GrantOk(s0, demand, p, c[p]);
    }
    forall p: PageNo ensures if p in sw then At(s.leaf, p) == Swap(sw[p].token) else !At(s.leaf, p).Swap? {
      assert if p in sw then At(s0.leaf, p) == Swap(sw[p].token) else !At(s0.leaf, p).Swap?;
      assert In(p, range.first, done) ==> Mapped(s0.leaf, p);
    }
  }

  lemma AgreeRelocate(s0: State, s: State, c: Grants, sw: Swaps, demand: set<PageNo>, first: PageNo, n: nat)
    requires Agree(s0, c, sw, demand) && Relocated(s0, s, first, n)
    ensures Agree(s, c, sw, demand)
  {
  }

  lemma AgreeSwapOut(s0: State, s: State, c: Grants, sw: Swaps, demand: set<PageNo>, p: PageNo, e: SwapEntry)
    requires Agree(s0, c, sw, demand) && p in c && p !in sw && e.page == p && e.grant == c[p]
    requires p in s0.leaf && s.dev == s0.dev && s.leaf == s0.leaf[p := Swap(e.token)]
    ensures Agree(s, c - {p}, sw[p := e], demand)
  {
  }

  lemma AgreeSwapIn(s0: State, s: State, pool: set<Frame>, c: Grants, sw: Swaps, demand: set<PageNo>, p: PageNo, bytes: Bytes)
    requires Agree(s0, c, sw, demand) && p in sw && p !in c && Core(s0, pool)
    requires SwappedIn(s0, s, p, AttrsOf(sw[p].grant.flags), bytes)
    ensures Agree(s, c[p := sw[p].grant], sw - {p}, demand)
  {
  }

  // ---- Device mappings

  datatype Backing = Registers | Pinned(frame: Frame, align: nat) | Shared

  datatype DeviceMapping = DeviceMapping(range: Range, backing: Backing)

  ghost predicate BackingOk(m: DeviceMapping, s: State, pool: set<Frame>) {
    match m.backing
    case Registers => forall p: PageNo :: m.range.Has(p) ==> At(s.leaf, p).Page? && At(s.leaf, p).frame !in pool
    case Shared =>
      forall p: PageNo :: m.range.Has(p) ==> At(s.leaf, p).Page? && (At(s.leaf, p).frame in s.pinned || s.tainted)
    case Pinned(frame, _) =>
      Run(frame, m.range.count) <= s.pinned &&
      forall p: PageNo :: m.range.Has(p) ==> At(s.leaf, p).Page? && At(s.leaf, p).frame == frame + (p - m.range.first)
  }

  ghost predicate MappingOk(m: DeviceMapping, s: State, pool: set<Frame>) {
    && m.range.count > 0 && UserRange(m.range.first, m.range.count)
    && (forall p: PageNo :: m.range.Has(p) ==> p in s.dev)
    && BackingOk(m, s, pool)
  }

  /** Two mappings share no page, and two pinned runs share no frame. */
  ghost predicate Separate(a: DeviceMapping, b: DeviceMapping) {
    && !a.range.Overlaps(b.range)
    && (a.backing.Pinned? && b.backing.Pinned? ==>
          Run(a.backing.frame, a.range.count) !! Run(b.backing.frame, b.range.count))
  }

  ghost predicate Listed(ds: seq<DeviceMapping>, p: PageNo) {
    exists i :: 0 <= i < |ds| && ds[i].range.Has(p)
  }

  /** Some mapping of the list overlaps `range`. */
  ghost predicate Claimed(ds: seq<DeviceMapping>, range: Range) {
    exists i :: 0 <= i < |ds| && ds[i].range.Overlaps(range)
  }

  ghost predicate PinnedBy(m: DeviceMapping, f: Frame) {
    m.backing.Pinned? && f in Run(m.backing.frame, m.range.count)
  }

  ghost predicate Held(ds: seq<DeviceMapping>, f: Frame) {
    exists i :: 0 <= i < |ds| && PinnedBy(ds[i], f)
  }

  /** The list is exactly the device leaves and exactly the pinned frames; a
      shared view names pinned frames until something is freed under it. */
  ghost predicate DeviceOk(ds: seq<DeviceMapping>, s: State, pool: set<Frame>) {
    && (forall i :: 0 <= i < |ds| ==> MappingOk(ds[i], s, pool))
    && (forall i, j :: 0 <= i < j < |ds| ==> Separate(ds[i], ds[j]))
    && (forall p :: p in s.dev ==> Listed(ds, p))
    && (forall f :: f in s.pinned ==> Held(ds, f))
  }

  lemma MappingSame(m: DeviceMapping, s0: State, s: State, pool: set<Frame>)
    requires MappingOk(m, s0, pool) && s0.pinned <= s.pinned && (s0.tainted ==> s.tainted)
    requires forall p: PageNo :: m.range.Has(p) ==> p in s.dev && At(s.leaf, p) == At(s0.leaf, p)
    ensures MappingOk(m, s, pool)
  {
  }

  lemma DeviceSame(ds: seq<DeviceMapping>, s0: State, s: State, pool: set<Frame>)
    requires DeviceOk(ds, s0, pool) && s.dev == s0.dev && s.pinned == s0.pinned && (s0.tainted ==> s.tainted)
    requires forall p: PageNo :: p in s.dev ==> At(s.leaf, p) == At(s0.leaf, p)
    ensures DeviceOk(ds, s, pool)
  {
  }

  /** A mapped device page cannot be overlapped by a new mapping: the leaf
      would have refused. */
  lemma NewMappingApart(ds: seq<DeviceMapping>, s: State, pool: set<Frame>, range: Range, i: nat)
    requires Core(s, pool) && DeviceOk(ds, s, pool) && i < |ds| && range.count > 0
    requires forall p: PageNo :: range.Has(p) ==> At(s.leaf, p).Absent?
    ensures !ds[i].range.Overlaps(range)
  {
    assert MappingOk(ds[i], s, pool);
    var q := if ds[i].range.first < range.first then range.first else ds[i].range.first;
    assert ds[i].range.Overlaps(range) ==> ds[i].range.Has(q) && range.Has(q);
    assert ds[i].range.Has(q) ==> q in s.dev;
    assert q in s.dev ==> Mapped(s.leaf, q);
  }

  lemma AddMapping(ds: seq<DeviceMapping>, s0: State, s: State, pool: set<Frame>, m: DeviceMapping, frame: Frame, attrs: Attrs)
    requires Core(s0, pool) && DeviceOk(ds, s0.(pinned := s0.pinned - (if m.backing.Pinned? then Run(m.backing.frame, m.range.count) else {})), pool)
    requires m.range.count > 0 && UserRange(m.range.first, m.range.count)
    requires Devicing(s0, s, pool, m.range.first, m.range.count, frame, attrs)
    requires m.backing.Registers? ==> forall f: Frame :: f in Run(frame, m.range.count) ==> f !in pool
    requires m.backing.Shared? ==> Run(frame, m.range.count) <= s0.pinned
    requires m.backing.Pinned? ==> m.backing.frame == frame && Run(frame, m.range.count) <= s0.pinned
    ensures DeviceOk(ds + [m], s, pool)
  {
    var first, n := m.range.first, m.range.count;
    var run := if m.backing.Pinned? then Run(m.backing.frame, n) else {};
    var s1 := s0.(pinned := s0.pinned - run);
    var all := ds + [m];
    forall p: PageNo ensures DeviceAt(s0, s, first, n, frame, attrs, p) {
      assert At(s.leaf, p) == At(s.leaf, p);
    }
    forall p: PageNo | m.range.Has(p) ensures At(s0.leaf, p).Absent? && At(s.leaf, p) == Page(frame + (p - first), attrs) && p in s.dev {
      assert DeviceAt(s0, s, first, n, frame, attrs, p);
    }
    forall i | 0 <= i < |ds| ensures MappingOk(ds[i], s, pool) && Separate(ds[i], m) {
      AddKeepsOld(ds, s0, s, pool, m, frame, attrs, i);
    }
    assert MappingOk(m, s, pool);
    forall p | p in s.dev ensures Listed(all, p) {
      if p in s0.dev {
        assert Listed(ds, p);
        var i :| 0 <= i < |ds| && ds[i].range.Has(p);
        assert all[i].range.Has(p);
      } else {
        assert all[|ds|].range.Has(p);
      }
    }
    forall f | f in s.pinned ensures Held(all, f) {
      if f in run {
        assert PinnedBy(all[|ds|], f);
      } else {
        assert Held(ds, f);
        var i :| 0 <= i < |ds| && PinnedBy(ds[i], f);
        assert PinnedBy(all[i], f);
      }
    }
  }

  lemma AddKeepsOld(ds: seq<DeviceMapping>, s0: State, s: State, pool: set<Frame>, m: DeviceMapping, frame: Frame, attrs: Attrs, i: nat)
    requires Core(s0, pool) && m.range.count > 0 && i < |ds|
    requires DeviceOk(ds, s0.(pinned := s0.pinned - (if m.backing.Pinned? then Run(m.backing.frame, m.range.count) else {})), pool)
    requires Devicing(s0, s, pool, m.range.first, m.range.count, frame, attrs)
    ensures MappingOk(ds[i], s, pool) && Separate(ds[i], m)
  {
    var first, n := m.range.first, m.range.count;
    var s1 := s0.(pinned := s0.pinned - (if m.backing.Pinned? then Run(m.backing.frame, n) else {}));
    assert MappingOk(ds[i], s1, pool);
    forall p: PageNo | m.range.Has(p) ensures At(s0.leaf, p).Absent? {
      assert DeviceAt(s0, s, first, n, frame, attrs, p) by { assert At(s.leaf, p) == At(s.leaf, p); }
    }
    forall p: PageNo | ds[i].range.Has(p) ensures p in s.dev && At(s.leaf, p) == At(s0.leaf, p) && !m.range.Has(p) {
      assert p in s0.dev;
      assert Mapped(s0.leaf, p);
      assert DeviceAt(s0, s, first, n, frame, attrs, p) by { assert At(s.leaf, p) == At(s.leaf, p); }
    }
    var q := if ds[i].range.first < first then first else ds[i].range.first;
    assert ds[i].range.Overlaps(m.range) ==> ds[i].range.Has(q) && m.range.Has(q);
    MappingSame(ds[i], s1, s, pool);
  }

  function RunOf(m: DeviceMapping): set<Frame> {
    if m.backing.Pinned? then Run(m.backing.frame, m.range.count) else {}
  }

  /** Page `p` of shared view `j` names a frame of mapping `i`'s pinned run. */
  ghost predicate Views(ds: seq<DeviceMapping>, i: nat, s: State, j: int, p: PageNo)
    requires i < |ds|
  {
    0 <= j < |ds| && ds[j].backing.Shared? && ds[j].range.Has(p) && At(s.leaf, p).Page? && At(s.leaf, p).frame in RunOf(ds[i])
  }

  /** No shared view still names a frame of mapping `i`'s pinned run. */
  ghost predicate NoViews(ds: seq<DeviceMapping>, i: nat, s: State)
    requires i < |ds|
  {
    forall j, p: PageNo {:trigger Views(ds, i, s, j, p)} {:trigger ds[j].range.Has(p)} :: !Views(ds, i, s, j, p)
  }

  /** The machine once mapping `m` is torn down. */
  ghost predicate TornDown(s0: State, t: State, m: DeviceMapping) {
    t == s0.(leaf := Blanked(s0.leaf, m.range.first, m.range.count),
             dev := s0.dev - Pages(m.range.first, m.range.count), tlb := t.tlb)
  }

  /** The run of mapping `i` goes back; the machine is tainted if a view of it
      was left. */
  ghost predicate Unpinned(ds: seq<DeviceMapping>, i: nat, s0: State, t: State, u: State)
    requires i < |ds|
  {
    && u == t.(pinned := t.pinned - RunOf(ds[i]), free := u.free, tainted := u.tainted)
    && (u.tainted <==> s0.tainted || !NoViews(ds, i, s0))
  }

  lemma DropOther(ds: seq<DeviceMapping>, i: nat, j: nat, s0: State, t: State, u: State, pool: set<Frame>)
    requires DeviceOk(ds, s0, pool) && i < |ds| && j < |ds| && i != j && TornDown(s0, t, ds[i]) && Unpinned(ds, i, s0, t, u)
    ensures Separate(ds[i], ds[j]) && MappingOk(ds[j], u, pool)
  {
    if i < j { assert Separate(ds[i], ds[j]); } else { assert Separate(ds[j], ds[i]); }
    assert MappingOk(ds[j], s0, pool);
    forall p: PageNo | ds[j].range.Has(p) ensures p in u.dev && At(u.leaf, p) == At(s0.leaf, p) {
      assert !ds[i].range.Has(p);
    }
  }

  lemma DropApart(ds: seq<DeviceMapping>, i: nat, s0: State, pool: set<Frame>)
    requires DeviceOk(ds, s0, pool) && i < |ds|
    ensures var rest := SwapRemove(ds, i); forall k, l :: 0 <= k < l < |rest| ==> Separate(rest[k], rest[l])
  {
  }

  lemma DropHeld(ds: seq<DeviceMapping>, i: nat, f: Frame)
    requires i < |ds| && Held(ds, f) && f !in RunOf(ds[i])
    ensures Held(SwapRemove(ds, i), f)
  {
  }

  lemma DropListed(ds: seq<DeviceMapping>, i: nat, s0: State, t: State, pool: set<Frame>, p: PageNo)
    requires DeviceOk(ds, s0, pool) && i < |ds| && TornDown(s0, t, ds[i]) && p in t.dev
    ensures Listed(SwapRemove(ds, i), p)
  {
  }

  /** A device page left after mapping `i` is torn down names a frame of its
      run only by being a page of a shared view. */
  lemma DropNamed(ds: seq<DeviceMapping>, i: nat, s0: State, t: State, pool: set<Frame>, p: PageNo)
    requires DeviceOk(ds, s0, pool) && i < |ds| && TornDown(s0, t, ds[i]) && RunOf(ds[i]) <= pool
    requires p in t.dev && Mapped(t.leaf, p) && t.leaf[p].frame in RunOf(ds[i])
    ensures !NoViews(ds, i, s0)
  {
    assert p in s0.dev && At(s0.leaf, p) == t.leaf[p];
    assert Listed(ds, p);
    var j :| 0 <= j < |ds| && ds[j].range.Has(p);
    assert MappingOk(ds[j], s0, pool);
    assert j < i ==> Separate(ds[j], ds[i]);
    assert i < j ==> Separate(ds[i], ds[j]);
    assert Views(ds, i, s0, j, p);
  }

  lemma DropViews(ds: seq<DeviceMapping>, i: nat, s0: State, t: State, pool: set<Frame>)
    requires DeviceOk(ds, s0, pool) && i < |ds| && TornDown(s0, t, ds[i]) && RunOf(ds[i]) <= pool
    ensures Named(t, RunOf(ds[i])) <==> !NoViews(ds, i, s0)
  {
    hide DeviceOk, TornDown, Views, RunOf;
    if Named(t, RunOf(ds[i])) {
      var p :| p in t.dev && Mapped(t.leaf, p) && t.leaf[p].frame in RunOf(ds[i]);
      DropNamed(ds, i, s0, t, pool, p);
    }
    if !NoViews(ds, i, s0) {
      var j, p: PageNo :| Views(ds, i, s0, j, p);
      DropSeen(ds, i, s0, t, pool, j, p);
    }
  }

  lemma DropSeen(ds: seq<DeviceMapping>, i: nat, s0: State, t: State, pool: set<Frame>, j: int, p: PageNo)
    requires DeviceOk(ds, s0, pool) && i < |ds| && TornDown(s0, t, ds[i]) && Views(ds, i, s0, j, p)
    ensures p in t.dev && Mapped(t.leaf, p) && t.leaf[p].frame in RunOf(ds[i])
  {
    assert MappingOk(ds[j], s0, pool);
    assert j < i ==> Separate(ds[j], ds[i]);
    assert i < j ==> Separate(ds[i], ds[j]);
  }

  /** Removing mapping `i` from the list, its pages from the machine and its
      run from the pinned frames. */
  lemma DropMapping(ds: seq<DeviceMapping>, i: nat, s0: State, t: State, u: State, pool: set<Frame>)
    requires DeviceOk(ds, s0, pool) && i < |ds| && TornDown(s0, t, ds[i]) && Unpinned(ds, i, s0, t, u)
    ensures DeviceOk(SwapRemove(ds, i), u, pool)
  {
    hide NoViews, MappingOk, Separate, Listed, Held, RunOf;
    var rest := SwapRemove(ds, i);
    forall k | 0 <= k < |rest| ensures MappingOk(rest[k], u, pool) {
      DropOther(ds, i, if k == i then |ds| - 1 else k, s0, t, u, pool);
    }
    DropApart(ds, i, s0, pool);
    forall p | p in u.dev ensures Listed(rest, p) {
      DropListed(ds, i, s0, t, pool, p);
    }
    forall f | f in u.pinned ensures Held(rest, f) {
      assert Held(ds, f);
      DropHeld(ds, i, f);
    }
  }

  // ---- Swap tokens

  ghost function Live(s: Swaps): set<Token> {
    set p | p in s :: s[p].token
  }

  ghost predicate OneEach(ts: seq<Token>) {
    forall i, j :: 0 <= i < j < |ts| ==> ts[i] != ts[j]
  }

  ghost predicate OneHome(s: Swaps) {
    forall p, q :: p in s && q in s && p != q ==> s[p].token != s[q].token
  }

  /** Conservation of tokens: everything ever issued is on record as swapped at
      one page, waits once in the orphan list, or has been handed back. */
  ghost predicate Ledger(s: Swaps, orphans: seq<Token>, issued: multiset<Token>, settled: multiset<Token>) {
    && OneHome(s) && OneEach(orphans) && (forall t :: t in orphans ==> t !in Live(s))
    && issued == settled + multiset(orphans) + multiset(Live(s))
  }

  /** No token was issued twice. */
  ghost predicate Once(issued: multiset<Token>) {
    forall t :: issued[t] <= 1
  }

  ghost predicate InOnePlace(t: Token, s: Swaps, orphans: seq<Token>, settled: multiset<Token>) {
    || (t in settled && settled[t] == 1 && t !in orphans && t !in Live(s))
    || (t !in settled && t in orphans && t !in Live(s))
    || (t !in settled && t !in orphans && t in Live(s))
  }

  /** A token issued once is handed back once, or waits in one place. */
  lemma TokenInOnePlace(s: Swaps, orphans: seq<Token>, issued: multiset<Token>, settled: multiset<Token>, t: Token)
    requires Ledger(s, orphans, issued, settled) && issued[t] == 1
    ensures InOnePlace(t, s, orphans, settled)
  {
    var waiting, live := multiset(orphans), multiset(Live(s));
    assert issued[t] == settled[t] + waiting[t] + live[t];
    assert t in orphans <==> waiting[t] > 0;
    assert t in Live(s) <==> live[t] > 0;
  }

  function Tokens(entries: seq<SwapEntry>): (ts: seq<Token>)
    ensures |ts| == |entries| && forall i :: 0 <= i < |ts| ==> ts[i] == entries[i].token
  {
    seq(|entries|, i requires 0 <= i < |entries| => entries[i].token)
  }

  lemma {:induction false} ListCounts(ts: seq<Token>)
    requires OneEach(ts)
    ensures multiset(ts) == multiset(set t | t in ts)
  {
    if ts != [] {
      var n := |ts| - 1;
      ListCounts(ts[..n]);
      assert ts == ts[..n] + [ts[n]];
      assert (set t | t in ts) == (set t | t in ts[..n]) + {ts[n]};
      assert ts[n] !in ts[..n];
    }
  }

  /** Dropping the swap entries of a range moves exactly their tokens. */
  lemma LedgerOrphan(s: Swaps, orphans: seq<Token>, issued: multiset<Token>, settled: multiset<Token>, range: Range, taken: seq<SwapEntry>)
    requires Ledger(s, orphans, issued, settled) && Records(taken, range, s)
    ensures Ledger(Minus(s, range), orphans + Tokens(taken), issued, settled)
  {
    var ts, s' := Tokens(taken), Minus(s, range);
    TakenTokens(s, range, taken);
    FewerLive(s, range);
    hide Records, Tokens, Live, Minus;
    LiveCounts(Live(s), Live(s'), ts);
    assert multiset(orphans + ts) == multiset(orphans) + multiset(ts);
    OneEachConcat(orphans, ts);
  }

  lemma FewerLive(s: Swaps, range: Range)
    requires OneHome(s)
    ensures Live(Minus(s, range)) <= Live(s) && OneHome(Minus(s, range))
  {
  }

  lemma LiveCounts(live: set<Token>, rest: set<Token>, ts: seq<Token>)
    requires OneEach(ts) && rest <= live && (forall t :: t in ts ==> t in live && t !in rest) && forall t :: t in live ==> t in ts || t in rest
    ensures multiset(live) == multiset(rest) + multiset(ts)
  {
    ListCounts(ts);
    var moved := set t | t in ts;
    assert live == rest + moved;
  }

  lemma OneEachConcat(a: seq<Token>, b: seq<Token>)
    requires OneEach(a) && OneEach(b) && forall t :: t in a ==> t !in b
    ensures OneEach(a + b)
  {
    var c := a + b;
    forall i, j | 0 <= i < j < |c| ensures c[i] != c[j] {
      if i < |a| <= j { assert c[i] in a && c[j] == b[j - |a|]; }
    }
  }

  lemma TakenTokens(s: Swaps, range: Range, taken: seq<SwapEntry>)
    requires OneHome(s) && Records(taken, range, s)
    ensures OneEach(Tokens(taken))
    ensures forall t :: t in Tokens(taken) ==> t in Live(s) && t !in Live(Minus(s, range))
    ensures forall t :: t in Live(s) ==> t in Tokens(taken) || t in Live(Minus(s, range))
  {
    var ts := Tokens(taken);
    forall i, j | 0 <= i < j < |ts| ensures ts[i] != ts[j] {
      assert taken[i].page != taken[j].page;
    }
    forall t | t in ts ensures t in Live(s) && t !in Live(Minus(s, range)) {
      var i :| 0 <= i < |ts| && ts[i] == t;
      assert s[taken[i].page] == taken[i];
    }
    forall t | t in Live(s) ensures t in ts || t in Live(Minus(s, range)) {
      var p :| p in s && s[p].token == t;
      if range.Has(p) {
        assert HasEntry(taken, p);
        var i :| 0 <= i < |taken| && taken[i].page == p;
        assert ts[i] == t;
      } else {
        assert p in Minus(s, range) && Minus(s, range)[p].token == t;
      }
    }
  }

  lemma LedgerIssue(s: Swaps, orphans: seq<Token>, issued: multiset<Token>, settled: multiset<Token>, p: PageNo, e: SwapEntry)
    requires Ledger(s, orphans, issued, settled) && p !in s
    ensures Ledger(s[p := e], orphans, issued + multiset{e.token}, settled) <==> e.token !in Live(s) && e.token !in orphans
  {
    if e.token in Live(s) {
      var q :| q in s && s[q].token == e.token;
      assert s[p := e][q].token == s[p := e][p].token;
    } else if e.token in orphans {
      assert p in s[p := e] && s[p := e][p].token == e.token;
      assert e.token in Live(s[p := e]);
    } else {
      LedgerFresh(s, orphans, issued, settled, p, e);
    }
  }

  lemma LedgerFresh(s: Swaps, orphans: seq<Token>, issued: multiset<Token>, settled: multiset<Token>, p: PageNo, e: SwapEntry)
    requires Ledger(s, orphans, issued, settled) && p !in s && e.token !in Live(s) && e.token !in orphans
    ensures Ledger(s[p := e], orphans, issued + multiset{e.token}, settled)
  {
    var s' := s[p := e];
    forall t ensures t in Live(s') <==> t in Live(s) || t == e.token {
      if t in Live(s) { var q :| q in s && s[q].token == t; assert q in s' && s'[q].token == t; }
      if t == e.token { assert p in s' && s'[p].token == t; }
    }
    assert Live(s') == Live(s) + {e.token};
    assert multiset(Live(s')) == multiset(Live(s)) + multiset{e.token};
  }

  lemma LedgerSettle(s: Swaps, orphans: seq<Token>, issued: multiset<Token>, settled: multiset<Token>, p: PageNo)
    requires Ledger(s, orphans, issued, settled) && p in s
    ensures Ledger(s - {p}, orphans, issued, settled + multiset{s[p].token})
  {
    var s', t0 := s - {p}, s[p].token;
    forall t ensures t in Live(s') <==> t in Live(s) && t != t0 {
      if t in Live(s) && t != t0 { var q :| q in s && s[q].token == t; assert q in s' && s'[q].token == t; }
      if t in Live(s') { var q :| q in s' && s'[q].token == t; assert q in s && s[q].token == t; }
    }
    assert Live(s) == Live(s') + {t0};
    assert multiset(Live(s)) == multiset(Live(s')) + multiset{t0};
  }

  lemma LedgerDrain(s: Swaps, orphans: seq<Token>, issued: multiset<Token>, settled: multiset<Token>)
    requires Ledger(s, orphans, issued, settled)
    ensures Ledger(s, [], issued, settled + multiset(orphans))
  {
  }
}
