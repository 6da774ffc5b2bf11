/** The live page table: every operation is specified on `flat`, the map from
    page number to leaf descriptor that the radix tree implements. A page is a
    key of `flat` exactly when the walk finds a leaf table for it. */
module PageTables {
  import opened Options
  import opened PageWalk

  datatype Error =
    | Misaligned | EmptyRange | Overlap | NotReserved | NotCommitted | OutOfFrames
    | InvalidFlags | NotSwapped | BadPageBuffer | DeviceMapped | NotDemandCommit

  datatype Result<+T> = Ok(value: T) | Err(error: Error)

  datatype Unit = Unit

  type Flat = map<PageNo, Descriptor>

  /** First page of the 512-page block one leaf table maps. */
  function BlockFirst(p: PageNo): PageNo {
    p / FANOUT * FANOUT
  }

  /** `flat` once the leaf table for `p` exists. */
  function WithLeafTable(flat: Flat, p: PageNo): (r: Flat)
    ensures p in r
    ensures forall q :: q in r <==> q in flat || q / FANOUT == p / FANOUT
    ensures forall q :: q in r ==> r[q] == if q in flat then flat[q] else Absent
  {
    var blank := map q | BlockFirst(p) <= q < BlockFirst(p) + FANOUT && q !in flat :: Absent;
    assert forall q: nat :: BlockFirst(p) <= q < BlockFirst(p) + FANOUT <==> q / FANOUT == p / FANOUT;
    flat + blank
  }

  /** Leaf tables come and go in whole blocks. */
  ghost predicate BlockClosed(flat: Flat) {
    forall p, q :: p in flat && UserPage(q) && q / FANOUT == p / FANOUT ==> q in flat
  }

  ghost predicate Refines(tables: Tables, root: Frame, flat: Flat) {
    && (forall p :: p in flat ==> UserPage(p) && flat[p].IsLeaf())
    && (forall p: PageNo {:trigger LeafEntry(tables, root, p)} :: UserPage(p) ==>
          LeafEntry(tables, root, p) == if p in flat then Some(flat[p]) else None)
  }

  /** Two pages of one block walk through the same tables. */
  lemma {:induction false} SameBlock(tables: Tables, root: Frame, p: PageNo, q: PageNo, k: nat)
    requires k <= 3 && p / FANOUT == q / FANOUT
    ensures Walk(tables, root, p, k) == Walk(tables, root, q, k)
  {
    if k > 0 {
      SameBlock(tables, root, p, q, k - 1);
      assert p / 0x4_0000 == p / 512 / 512 && q / 0x4_0000 == q / 512 / 512;
      assert p / 0x800_0000 == p / 0x4_0000 / 512 && q / 0x800_0000 == q / 0x4_0000 / 512;
      assert Index(p, k - 1) == Index(q, k - 1);
    }
  }

  lemma RefinesIsBlockClosed(tables: Tables, places: Places, root: Frame, flat: Flat)
    requires WellFormed(tables, places, root) && Refines(tables, root, flat)
    ensures BlockClosed(flat)
  {
    forall p, q | p in flat && UserPage(q) && q / FANOUT == p / FANOUT
      ensures q in flat
    {
      SameBlock(tables, root, p, q, 3);
      WalkPlace(tables, places, root, p, 3);
      assert LeafEntry(tables, root, p) == Some(flat[p]);
      assert LeafEntry(tables, root, q).Some?;
    }
  }

  /** A store through `leaf_ptr` is one update of the flat map. */
  lemma LeafStoreRefines(tables: Tables, places: Places, root: Frame, flat: Flat, p: PageNo, t: Frame, d: Descriptor)
    requires WellFormed(tables, places, root) && Refines(tables, root, flat)
    requires UserPage(p) && d.IsLeaf() && Walk(tables, root, p, 3) == Some(t)
    ensures t in tables && p in flat && t != root
    ensures var tables' := tables[t := tables[t][Index(p, 3) := d]];
            WellFormed(tables', places, root) && Refines(tables', root, flat[p := d])
  {
    WalkPlace(tables, places, root, p, 3);
    LeafStoreShape(tables, places, root, p, t, d);
    forall q: PageNo | UserPage(q)
      ensures LeafEntry(tables[t := tables[t][Index(p, 3) := d]], root, q)
                == if q in flat[p := d] then Some(flat[p := d][q]) else None
    {
      LeafStoreAt(tables, places, root, p, t, d, q);
    }
    assert LeafEntry(tables, root, p).Some?;
  }

  lemma HangLeaf(tables: Tables, places: Places, root: Frame, flat: Flat, p: PageNo, k: nat, t: Frame, child: Frame, q: PageNo)
    requires WellFormed(tables, places, root) && Refines(tables, root, flat)
    requires UserPage(p) && k < 3 && Walk(tables, root, p, k) == Some(t) && t in tables && UserPage(q)
    requires places[t].level == k && Owned(k, Index(p, k)) && tables[t][Index(p, k)].Absent? && child !in tables
    ensures var flat' := if k == 2 then WithLeafTable(flat, p) else flat;
            LeafEntry(Hang(tables, t, Index(p, k), child), root, q)
              == if q in flat' then Some(flat'[q]) else None
  {
    HangWalk(tables, places, root, t, Index(p, k), child, q);
    assert LeafEntry(tables, root, q) == if q in flat then Some(flat[q]) else None;
    if k == 2 { BlockOfSlot(tables, places, root, p, q, t); }
  }

  /** Hanging a table on the path of `p` adds nothing to the flat map above the
      last level, and one block of absent entries at the last level. */
  lemma HangRefines(tables: Tables, places: Places, root: Frame, flat: Flat, p: PageNo, k: nat, t: Frame, child: Frame)
    requires WellFormed(tables, places, root) && Refines(tables, root, flat)
    requires UserPage(p) && k < 3 && Walk(tables, root, p, k) == Some(t) && t in tables
    requires places[t].level == k && Owned(k, Index(p, k)) && tables[t][Index(p, k)].Absent? && child !in tables
    ensures Refines(Hang(tables, t, Index(p, k), child), root, if k == 2 then WithLeafTable(flat, p) else flat)
  {
    var flat' := if k == 2 then WithLeafTable(flat, p) else flat;
    BlockInWindow(p);
    forall q: PageNo | UserPage(q)
      ensures LeafEntry(Hang(tables, t, Index(p, k), child), root, q)
                == if q in flat' then Some(flat'[q]) else None
    {
      HangLeaf(tables, places, root, flat, p, k, t, child, q);
    }
  }

  lemma BlockOfSlot(tables: Tables, places: Places, root: Frame, p: PageNo, q: PageNo, t: Frame)
    requires WellFormed(tables, places, root) && UserPage(p) && UserPage(q)
    requires Walk(tables, root, p, 2) == Some(t)
    ensures q / FANOUT == p / FANOUT <==>
            Walk(tables, root, q, 2) == Some(t) && Index(q, 2) == Index(p, 2)
  {
    WalkPlace(tables, places, root, p, 2);
    WalkPlace(tables, places, root, q, 2);
    PrefixStep(p, 2);
    PrefixStep(q, 2);
    if q / FANOUT == p / FANOUT { SameBlock(tables, root, p, q, 2); }
  }

  lemma BlockInWindow(p: PageNo)
    requires UserPage(p)
    ensures forall q: nat :: q / FANOUT == p / FANOUT ==> UserPage(q)
  {
  }

  lemma FreshFrame(used: set<Frame>) returns (f: Frame)
    ensures f !in used
  {
    f := 0;
    var seen: set<Frame> := {};
    while f in used
      invariant seen <= used && (forall g :: g in seen <==> 0 <= g < f)
      decreases |used - seen|
    {
      assert (used - (seen + {f})) + {f} == used - seen;
      seen := seen + {f};
      f := f + 1;
    }
  }

  class PageTable {
    const root: Frame
    var tables: Tables
    ghost var places: Places
    ghost var flat: Flat

    ghost predicate Valid()
      reads this
    {
      WellFormed(tables, places, root) && Refines(tables, root, flat)
    }

    /** The root slots that belong to the kernel's own map. */
    ghost function KernelHalf(): (s: seq<Descriptor>)
      reads this
      requires Valid()
    {
      tables[root][..ROOT_FIRST] + tables[root][ROOT_END..]
    }

    /** Starts from the root the boot loader left in TTBR1. */
    constructor (top: Frame, entries: seq<Descriptor>)
      requires |entries| == FANOUT
      requires forall i :: ROOT_FIRST <= i < ROOT_END ==> entries[i] == Absent
      ensures Valid() && flat == map[] && root == top
      ensures KernelHalf() == entries[..ROOT_FIRST] + entries[ROOT_END..]
    {
      root := top;
      tables := map[top := entries];
      places := map[top := Place(0, 0)];
      flat := map[];
      new;
      assert forall i :: Owned(0, i) ==> tables[top][i] == entries[i] == Absent;
      assert WellFormed(tables, places, root);
      forall p: PageNo | UserPage(p)
        ensures LeafEntry(tables, root, p) == None
      {
        RootIndex(p);
        assert Walk(tables, root, p, 1) == None;
        DeadBelow(tables, root, p, 1);
      }
    }

    method EnsureTable(parent: Frame, index: nat, ghost p: PageNo, ghost k: nat) returns (child: Frame)
      requires Valid() && UserPage(p) && k < 3
      requires Walk(tables, root, p, k) == Some(parent) && index == Index(p, k)
      modifies this
      ensures Valid() && Walk(tables, root, p, k + 1) == Some(child)
      ensures flat == if k == 2 then WithLeafTable(old(flat), p) else old(flat)
      ensures KernelHalf() == old(KernelHalf())
    {
      hide Index, Prefix;
      WalkPlace(tables, places, root, p, k);
      RootIndex(p);
      var entry := tables[parent][index];
      if entry.Table? {
        if k == 2 {
          WalkPlace(tables, places, root, p, 3);
          RefinesIsBlockClosed(tables, places, root, flat);
          BlockInWindow(p);
          assert LeafEntry(tables, root, p).Some?;
          assert WithLeafTable(flat, p) == flat;
        }
        return entry.next;
      }
      // Any other descriptor here would be a collision, which panics.
      assert entry.Absent?;
      ghost var unused := FreshFrame(tables.Keys);
      child :| child !in tables;
      HangShape(tables, places, root, parent, index, child);
      HangRefines(tables, places, root, flat, p, k, parent, child);
      StoreElsewhere(tables, places, root, parent, index, Table(child), Hang(tables, parent, index, child), p, k);
      flat := if k == 2 then WithLeafTable(flat, p) else flat;
      places := HangPlace(places, parent, index, child);
      tables := Hang(tables, parent, index, child);
    }

    method EnsureLeafTable(p: PageNo) returns (l3: Frame)
      requires Valid() && UserPage(p)
      modifies this
      ensures Valid() && Walk(tables, root, p, 3) == Some(l3)
      ensures flat == WithLeafTable(old(flat), p)
      ensures KernelHalf() == old(KernelHalf())
    {
      var l1 := EnsureTable(root, Index(p, 0), p, 0);
      var l2 := EnsureTable(l1, Index(p, 1), p, 1);
      l3 := EnsureTable(l2, Index(p, 2), p, 2);
    }

    /** The store through `leaf_ptr`. */
    method StoreLeaf(p: PageNo, t: Frame, d: Descriptor)
      requires Valid() && UserPage(p) && d.IsLeaf() && Walk(tables, root, p, 3) == Some(t)
      modifies this
      ensures Valid() && p in old(flat) && flat == old(flat)[p := d]
      ensures KernelHalf() == old(KernelHalf())
    {
      LeafStoreRefines(tables, places, root, flat, p, t, d);
      tables := tables[t := tables[t][Index(p, 3) := d]];
      flat := flat[p := d];
    }

    method LeafPtr(p: PageNo) returns (t: Option<Frame>, d: Descriptor)
      requires Valid() && UserPage(p)
      ensures t == Walk(tables, root, p, 3)
      ensures t.Some? <==> p in flat
      ensures t.Some? ==> d == flat[p]
    {
      t := Walk(tables, root, p, 3);
      d := Absent;
      WalkPlace(tables, places, root, p, 3);
      assert LeafEntry(tables, root, p) == if p in flat then Some(flat[p]) else None;
      if t.Some? { d := tables[t.value][Index(p, 3)]; }
    }

    method Map4kNoFlush(p: PageNo, frame: Frame, attrs: Attrs) returns (r: Result<Unit>)
      requires Valid() && UserPage(p)
      modifies this
      ensures Valid() && KernelHalf() == old(KernelHalf())
      ensures r == if p in old(flat) && old(flat)[p].Page? then Err(Overlap) else Ok(Unit)
      ensures flat == if r.Ok? then WithLeafTable(old(flat), p)[p := Page(frame, attrs)] else old(flat)
    {
      var l3 := EnsureLeafTable(p);
      var t, entry := LeafPtr(p);
      if entry.Page? {
        RefinesIsBlockClosed(old(tables), old(places), root, old(flat));
        BlockInWindow(p);
        assert flat == old(flat);
        return Err(Overlap);
      }
      StoreLeaf(p, l3, Page(frame, attrs));
      return Ok(Unit);
    }

    method Unmap4kNoFlush(p: PageNo) returns (r: Result<Descriptor>)
      requires Valid() && UserPage(p)
      modifies this
      ensures Valid() && KernelHalf() == old(KernelHalf())
      ensures r == if p in old(flat) && old(flat)[p].Page? then Ok(old(flat)[p]) else Err(NotCommitted)
      ensures flat == if r.Ok? then old(flat)[p := Absent] else old(flat)
    {
      var t, entry := LeafPtr(p);
      if t.None? || !entry.Page? { return Err(NotCommitted); }
      StoreLeaf(p, t.value, Absent);
      return Ok(entry);
    }

    /** Same frame, new attributes; the old descriptor is what rollback needs. */
    method Protect4kNoFlush(p: PageNo, attrs: Attrs) returns (r: Result<Descriptor>)
      requires Valid() && UserPage(p)
      modifies this
      ensures Valid() && KernelHalf() == old(KernelHalf())
      ensures r == if p in old(flat) && old(flat)[p].Page? then Ok(old(flat)[p]) else Err(NotCommitted)
      ensures flat == if r.Ok? then old(flat)[p := Page(r.value.frame, attrs)] else old(flat)
    {
      var t, entry := LeafPtr(p);
      if t.None? || !entry.Page? { return Err(NotCommitted); }
      StoreLeaf(p, t.value, Page(entry.frame, attrs));
      return Ok(entry);
    }

    /** `replace_4k` before its own invalidation. */
    method Replace4k(p: PageNo, d: Descriptor) returns (r: Result<Descriptor>)
      requires Valid() && UserPage(p) && d.IsLeaf()
      modifies this
      ensures Valid() && KernelHalf() == old(KernelHalf())
      ensures r == if p in old(flat) && old(flat)[p].Page? then Ok(old(flat)[p]) else Err(NotCommitted)
      ensures flat == if r.Ok? then old(flat)[p := d] else old(flat)
    {
      var t, entry := LeafPtr(p);
      if t.None? || !entry.Page? { return Err(NotCommitted); }
      StoreLeaf(p, t.value, d);
      return Ok(entry);
    }

    method Translate4k(p: PageNo) returns (r: Option<Descriptor>)
      requires Valid() && UserPage(p)
      ensures r == if p in flat && flat[p].Page? then Some(flat[p]) else None
    {
      var t, entry := LeafPtr(p);
      return if t.Some? && entry.Page? then Some(entry) else None;
    }
  }
}
