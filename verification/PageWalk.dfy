/** The four-level translation tree of the user window, as a heap of table
    frames, and the fact that makes it a flat map: every table frame has one
    place in the tree, so a store into one slot is seen by the pages below that
    slot and by no others. */
module PageWalk {
  import opened Options

  type Frame = nat
  type PageNo = nat
  type Token = nat

  /** What `page_flags_to_pte` and `device_pte` put beside the frame number. */
  datatype Attrs = Attrs(writable: bool, executable: bool, device: bool)

  /** One 64-bit descriptor. `Block` stands for a valid non-table descriptor
      above the leaves, which only the kernel's own half of the root uses. */
  datatype Descriptor =
    | Absent
    | Swap(token: Token)
    | Page(frame: Frame, attrs: Attrs)
    | Table(next: Frame)
    | Block
  {
    predicate IsLeaf() { Absent? || Swap? || Page? }
  }

  type Tables = map<Frame, seq<Descriptor>>

  /** Where a table hangs: `prefix` is the page number shifted down to the
      table's own reach. */
  datatype Place = Place(level: nat, prefix: nat)

  type Places = map<Frame, Place>

  const FANOUT := 512

  // The window [0xFFFF_C000_0000_0000, 0xFFFF_E000_0000_0000) in 4 KiB pages of
  // the low 48 address bits: exactly the root slots 384..448.
  const USER_FIRST := 0xC_0000_0000
  const USER_END := 0xE_0000_0000
  const ROOT_FIRST := 384
  const ROOT_END := 448

  predicate UserPage(p: int) {
    USER_FIRST <= p < USER_END
  }

  /** Pages one entry of a level-`k` table reaches. */
  function Span(k: nat): (s: nat)
    requires k <= 3
    ensures s > 0
  {
    if k == 0 then 0x800_0000 else if k == 1 then 0x4_0000 else if k == 2 then 0x200 else 1
  }

  /** `(virt >> (39 - 9 * k)) & 0x1ff`, for a page number. */
  function Index(p: PageNo, k: nat): (i: nat)
    requires k <= 3
    ensures i < FANOUT
  {
    (p / Span(k)) % FANOUT
  }

  function Prefix(p: PageNo, k: nat): nat
    requires k <= 4
  {
    if k == 0 then 0 else p / Span(k - 1)
  }

  lemma PrefixStep(p: PageNo, k: nat)
    requires UserPage(p) && k <= 3
    ensures Prefix(p, k + 1) == Prefix(p, k) * FANOUT + Index(p, k)
  {
  }

  lemma RootIndex(p: PageNo)
    requires UserPage(p)
    ensures ROOT_FIRST <= Index(p, 0) < ROOT_END
  {
  }

  /** The slots this address space owns: all of a lower table, and the user
      slots of the root it shares with the kernel. */
  predicate Owned(level: nat, i: int) {
    0 <= i < FANOUT && (level == 0 ==> ROOT_FIRST <= i < ROOT_END)
  }

  /** The user window is the 64 root slots from slot 384 on; those are the
      model's part of the root table, and all of every table below it. */
  lemma WindowExact(p: nat, i: int)
    ensures UserPage(p) <==> 384 <= p / (512 * 512 * 512) < 448
    ensures Owned(0, i) <==> 384 <= i < 448
    ensures forall k: nat :: k > 0 ==> (Owned(k, i) <==> 0 <= i < 512)
  {
  }

  predicate EntryOk(tables: Tables, places: Places, t: Frame, i: nat)
    requires t in tables && t in places && i < |tables[t]|
  {
    var d := tables[t][i];
    if places[t].level == 3 then d.IsLeaf()
    else
      d.Absent? ||
      (d.Table? && d.next in tables && d.next in places &&
       places[d.next] == Place(places[t].level + 1, places[t].prefix * FANOUT + i))
  }

  /** The tree's shape. `places` is what says that no table frame is shared. */
  ghost predicate WellFormed(tables: Tables, places: Places, root: Frame) {
    && root in tables && places.Keys == tables.Keys && places[root] == Place(0, 0)
    && (forall t :: t in tables ==> |tables[t]| == FANOUT && places[t].level <= 3)
    && (forall t, i {:trigger tables[t][i]} ::
          t in tables && Owned(places[t].level, i) ==> EntryOk(tables, places, t, i))
  }

  /** The level-`k` table on the path to `p`, if the walk gets that far. */
  function Walk(tables: Tables, root: Frame, p: PageNo, k: nat): Option<Frame>
    requires k <= 3
  {
    if k == 0 then Some(root)
    else
      match Walk(tables, root, p, k - 1)
      case None => None
      case Some(t) =>
        if t in tables && Index(p, k - 1) < |tables[t]| && tables[t][Index(p, k - 1)].Table?
        then Some(tables[t][Index(p, k - 1)].next)
        else None
  }

  /** `leaf_entry`: the level-3 descriptor whether or not it is valid. */
  function LeafEntry(tables: Tables, root: Frame, p: PageNo): Option<Descriptor> {
    match Walk(tables, root, p, 3)
    case None => None
    case Some(t) =>
      if t in tables && Index(p, 3) < |tables[t]| then Some(tables[t][Index(p, 3)]) else None
  }

  lemma {:induction false} WalkPlace(tables: Tables, places: Places, root: Frame, p: PageNo, k: nat)
    requires WellFormed(tables, places, root) && UserPage(p) && k <= 3
    ensures match Walk(tables, root, p, k)
            case None => true
            case Some(t) => t in tables && places[t] == Place(k, Prefix(p, k))
  {
    if k > 0 {
      WalkPlace(tables, places, root, p, k - 1);
      PrefixStep(p, k - 1);
      RootIndex(p);
      match Walk(tables, root, p, k - 1)
      case None =>
      case Some(t) =>
        assert Owned(places[t].level, Index(p, k - 1));
        var d := tables[t][Index(p, k - 1)];
    }
  }

  /** Storing into slot `i` of `t` is invisible to every page whose path does
      not go through that slot, at every level. */
  lemma {:induction false} StoreElsewhere(
      tables: Tables, places: Places, root: Frame, t: Frame, i: nat, d: Descriptor,
      tables': Tables, p: PageNo, k: nat)
    requires WellFormed(tables, places, root) && UserPage(p) && k <= 3
    requires t in tables && i < FANOUT
    requires t in tables' && |tables'[t]| == FANOUT && tables'[t] == tables[t][i := d]
    requires forall u :: u in tables && u != t ==> u in tables' && tables'[u] == tables[u]
    requires places[t].level < k ==>
               Prefix(p, places[t].level + 1) != places[t].prefix * FANOUT + i
    ensures Walk(tables', root, p, k) == Walk(tables, root, p, k)
  {
    hide Index, Prefix, EntryOk;
    if k > 0 {
      StoreElsewhere(tables, places, root, t, i, d, tables', p, k - 1);
      WalkPlace(tables, places, root, p, k - 1);
      PrefixStep(p, k - 1);
    }
  }

  /** A page's leaf slot belongs to that page alone. */
  lemma LeafStoreAt(tables: Tables, places: Places, root: Frame, p: PageNo, t: Frame, d: Descriptor, q: PageNo)
    requires WellFormed(tables, places, root) && UserPage(p) && UserPage(q) && d.IsLeaf()
    requires Walk(tables, root, p, 3) == Some(t) && t in tables
    ensures var tables' := tables[t := tables[t][Index(p, 3) := d]];
            LeafEntry(tables', root, q) == if q == p then Some(d) else LeafEntry(tables, root, q)
  {
    var i := Index(p, 3);
    var tables' := tables[t := tables[t][i := d]];
    WalkPlace(tables, places, root, p, 3);
    WalkPlace(tables, places, root, q, 3);
    StoreElsewhere(tables, places, root, t, i, d, tables', q, 3);
    PrefixStep(p, 3);
    PrefixStep(q, 3);
  }

  lemma LeafStoreShape(tables: Tables, places: Places, root: Frame, p: PageNo, t: Frame, d: Descriptor)
    requires WellFormed(tables, places, root) && UserPage(p) && d.IsLeaf()
    requires Walk(tables, root, p, 3) == Some(t) && t in tables
    ensures WellFormed(tables[t := tables[t][Index(p, 3) := d]], places, root)
  {
    WalkPlace(tables, places, root, p, 3);
    var tables' := tables[t := tables[t][Index(p, 3) := d]];
    forall u, j | u in tables' && Owned(places[u].level, j)
      ensures EntryOk(tables', places, u, j)
    {
      assert EntryOk(tables, places, u, j) by { var e := tables[u][j]; }
    }
  }

  function Empty(): (s: seq<Descriptor>)
    ensures |s| == FANOUT && forall i :: 0 <= i < FANOUT ==> s[i] == Absent
  {
    seq(FANOUT, _ => Absent)
  }

  /** `ensure_table`'s store: a fresh zeroed table hung on an absent slot. */
  function Hang(tables: Tables, t: Frame, i: nat, child: Frame): Tables
    requires t in tables && i < |tables[t]|
  {
    tables[t := tables[t][i := Table(child)]][child := Empty()]
  }

  function HangPlace(places: Places, t: Frame, i: nat, child: Frame): Places
    requires t in places
  {
    places[child := Place(places[t].level + 1, places[t].prefix * FANOUT + i)]
  }

  lemma HangShape(tables: Tables, places: Places, root: Frame, t: Frame, i: nat, child: Frame)
    requires WellFormed(tables, places, root)
    requires t in tables && places[t].level < 3 && Owned(places[t].level, i)
    requires tables[t][i].Absent? && child !in tables
    ensures WellFormed(Hang(tables, t, i, child), HangPlace(places, t, i, child), root)
  {
    var tables', places' := Hang(tables, t, i, child), HangPlace(places, t, i, child);
    forall u, j | u in tables' && Owned(places'[u].level, j)
      ensures EntryOk(tables', places', u, j)
    {
      if u != child {
        assert EntryOk(tables, places, u, j) by { var e := tables[u][j]; }
      }
    }
  }

  /** Hanging a table changes the walk of exactly the pages below the slot:
      they had no leaf table, and have an all-absent one if the new table is
      itself a leaf table. */
  lemma HangWalk(tables: Tables, places: Places, root: Frame, t: Frame, i: nat, child: Frame, q: PageNo)
    requires WellFormed(tables, places, root)
    requires t in tables && places[t].level < 3 && Owned(places[t].level, i)
    requires tables[t][i].Absent? && child !in tables && UserPage(q)
    ensures var below := places[t].level == 2 && Walk(tables, root, q, 2) == Some(t) && Index(q, 2) == i;
            && (below ==> LeafEntry(tables, root, q) == None)
            && LeafEntry(Hang(tables, t, i, child), root, q)
                 == if below then Some(Absent) else LeafEntry(tables, root, q)
  {
    var k := places[t].level;
    var tables' := Hang(tables, t, i, child);
    WalkPlace(tables, places, root, q, k);
    StoreElsewhere(tables, places, root, t, i, Table(child), tables', q, k);
    PrefixStep(q, k);
    if Prefix(q, k + 1) != places[t].prefix * FANOUT + i {
      StoreElsewhere(tables, places, root, t, i, Table(child), tables', q, 3);
      WalkPlace(tables, places, root, q, 3);
    } else if Walk(tables, root, q, k) == Some(t) {
      assert Walk(tables', root, q, k + 1) == Some(child);
      DeadBelow(tables, root, q, k + 1);
      if k + 1 < 3 {
        assert Walk(tables', root, q, k + 2) == None;
        DeadBelow(tables', root, q, k + 2);
      }
    } else {
      WalkOther(tables, places, root, t, i, child, q, k);
    }
  }

  lemma {:induction false} DeadBelow(tables: Tables, root: Frame, q: PageNo, k: nat)
    requires k <= 3 && Walk(tables, root, q, k) == None
    ensures LeafEntry(tables, root, q) == None
    decreases 3 - k
  {
    if k < 3 { DeadBelow(tables, root, q, k + 1); }
  }

  // A table with `t`'s place that the walk reaches instead of `t`: the walk
  // never meets `t`, so the store does not touch it.
  lemma {:induction false} WalkOther(tables: Tables, places: Places, root: Frame, t: Frame, i: nat, child: Frame, q: PageNo, k: nat)
    requires WellFormed(tables, places, root)
    requires t in tables && places[t].level == k < 3 && i < FANOUT && child !in tables && UserPage(q)
    requires Walk(tables, root, q, k) != Some(t)
    requires Walk(Hang(tables, t, i, child), root, q, k) == Walk(tables, root, q, k)
    ensures LeafEntry(Hang(tables, t, i, child), root, q) == LeafEntry(tables, root, q)
  {
    var tables' := Hang(tables, t, i, child);
    var j := k;
    while j < 3
      invariant k <= j <= 3
      invariant Walk(tables', root, q, j) == Walk(tables, root, q, j)
    {
      WalkPlace(tables, places, root, q, j);
      j := j + 1;
    }
    WalkPlace(tables, places, root, q, 3);
  }
}
