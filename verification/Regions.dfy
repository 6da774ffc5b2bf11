/** Lists of committed regions and swap entries, and the page maps they stand
    for. The lists are unordered bags of intervals that are cut, clipped and
    swap-removed in place; each operation is shown to be one operation on the
    map from page to grant. */
module Regions {
  import opened Options
  import opened PageWalk
  import opened PageTables

  datatype PageFlags = PageFlags(read: bool, write: bool, execute: bool)
  {
    predicate IsEmpty()
      ensures IsEmpty() <==> this == PageFlags(false, false, false)
    {
      !read && !write && !execute
    }
  }

  /** The leaf attributes of committed pages, and of device pages. */
  function AttrsOf(flags: PageFlags): Attrs {
    Attrs(flags.write, flags.execute, false)
  }

  function DeviceAttrs(writable: bool, device: bool): Attrs {
    Attrs(writable, false, device)
  }

  /** A page-aligned half-open range, counted in pages. */
  datatype Range = Range(first: PageNo, count: nat)
  {
    function End(): nat { first + count }
    predicate Has(p: int) { first <= p < End() }
    predicate Encloses(r: Range) { first <= r.first && r.End() <= End() }
    predicate Overlaps(r: Range) { first < r.End() && r.first < End() }
  }

  datatype Grant = Grant(flags: PageFlags, owner: nat)

  datatype Region = Region(range: Range, grant: Grant)

  datatype SwapEntry = SwapEntry(page: PageNo, token: Token, grant: Grant)

  type Grants = map<PageNo, Grant>
  type Swaps = map<PageNo, SwapEntry>

  function Minus<T>(m: map<PageNo, T>, cut: Range): (r: map<PageNo, T>)
  {
    map p | p in m && !cut.Has(p) :: m[p]
  }

  function Plus<T>(m: map<PageNo, T>, range: Range, v: T): (r: map<PageNo, T>)
    ensures forall p :: p in r <==> p in m || range.Has(p)
    ensures forall p :: p in r ==> r[p] == if range.Has(p) then v else m[p]
  {
    var added := map p: PageNo | range.first <= p < range.End() && range.Has(p) :: v;
    m + added
  }

  // ---- Committed regions

  ghost predicate Apart(regions: seq<Region>) {
    forall i, j :: 0 <= i < j < |regions| ==> !regions[i].range.Overlaps(regions[j].range)
  }

  ghost predicate Sound(regions: seq<Region>, hull: Range, m: Grants) {
    && (forall i :: 0 <= i < |regions| ==> regions[i].range.count > 0 && hull.Encloses(regions[i].range))
    && (forall i, p {:trigger regions[i].range.Has(p)} ::
          0 <= i < |regions| && regions[i].range.Has(p) ==> p in m && m[p] == regions[i].grant)
  }

  ghost predicate Covered(regions: seq<Region>, p: int) {
    exists i :: 0 <= i < |regions| && regions[i].range.Has(p)
  }

  ghost predicate Complete(regions: seq<Region>, hull: Range, m: Grants) {
    forall p :: p in m && hull.Has(p) ==> Covered(regions, p)
  }

  /** `regions` is a tiling of exactly the pages of `m` that lie in `hull`. */
  ghost predicate Tiles(regions: seq<Region>, hull: Range, m: Grants) {
    Apart(regions) && Sound(regions, hull, m) && Complete(regions, hull, m)
  }

  lemma TilesFrame(regions: seq<Region>, hull: Range, m: Grants, m': Grants)
    requires Tiles(regions, hull, m)
    requires forall p :: hull.Has(p) ==> (p in m <==> p in m') && (p in m ==> m[p] == m'[p])
    ensures Tiles(regions, hull, m')
  {
  }

  function SwapRemove<T>(s: seq<T>, i: nat): (r: seq<T>)
    requires i < |s|
    ensures |r| == |s| - 1
    ensures forall j :: 0 <= j < |r| ==> r[j] == if j == i then s[|s| - 1] else s[j]
  {
    s[i := s[|s| - 1]][..|s| - 1]
  }

  /** The parts of a region that a cut leaves. */
  function Pieces(region: Region, cut: Range): (r: seq<Region>)
    requires region.range.count > 0 && cut.count > 0 && region.range.Overlaps(cut)
    ensures forall i :: 0 <= i < |r| ==>
              r[i].range.count > 0 && r[i].grant == region.grant && region.range.Encloses(r[i].range)
              && !r[i].range.Overlaps(cut)
    ensures Apart(r)
    ensures forall p :: Covered(r, p) <==> region.range.Has(p) && !cut.Has(p)
  {
    var below := if region.range.first < cut.first
                 then [Region(Range(region.range.first, cut.first - region.range.first), region.grant)] else [];
    var above := if cut.End() < region.range.End()
                 then [Region(Range(cut.End(), region.range.End() - cut.End()), region.grant)] else [];
    var r := below + above;
    assert forall p :: region.range.Has(p) && p < cut.first ==> below != [] && r[0].range.Has(p);
    assert forall p :: region.range.Has(p) && cut.End() <= p ==> above != [] && r[|r| - 1].range.Has(p);
    r
  }

  function Intersection(a: Range, b: Range): (r: Range)
    requires a.count > 0 && b.count > 0 && a.Overlaps(b)
    ensures r.count > 0 && forall p :: r.Has(p) <==> a.Has(p) && b.Has(p)
  {
    var first := if a.first < b.first then b.first else a.first;
    var end := if a.End() < b.End() then a.End() else b.End();
    Range(first, end - first)
  }

  function Cut(regions: seq<Region>, i: nat, cut: Range): seq<Region>
    requires i < |regions| && regions[i].range.count > 0 && cut.count > 0 && regions[i].range.Overlaps(cut)
  {
    SwapRemove(regions, i) + Pieces(regions[i], cut)
  }

  lemma CutApart(regions: seq<Region>, i: nat, cut: Range)
    requires i < |regions| && regions[i].range.count > 0 && cut.count > 0 && regions[i].range.Overlaps(cut) && Apart(regions)
    ensures Apart(Cut(regions, i, cut))
  {
  }

  lemma CutSound(regions: seq<Region>, hull: Range, m: Grants, i: nat, cut: Range)
    requires Apart(regions) && Sound(regions, hull, m)
    requires i < |regions| && cut.count > 0 && regions[i].range.Overlaps(cut)
    ensures Sound(Cut(regions, i, cut), hull, Minus(m, Intersection(regions[i].range, cut)))
  {
    var region := regions[i];
    var kept, pieces := SwapRemove(regions, i), Pieces(region, cut);
    var regions' := kept + pieces;
    var m' := Minus(m, Intersection(region.range, cut));
    forall j, p | 0 <= j < |regions'| && regions'[j].range.Has(p)
      ensures p in m' && m'[p] == regions'[j].grant
    {
      if j < |kept| {
        var k := if j == i then |regions| - 1 else j;
        assert regions[k].range.Has(p) && !regions[k].range.Overlaps(region.range);
      } else {
        assert pieces[j - |kept|].range.Has(p);
        assert Covered(pieces, p);
        assert region.range.Has(p);
      }
    }
  }

  lemma CutComplete(regions: seq<Region>, hull: Range, m: Grants, i: nat, cut: Range)
    requires Complete(regions, hull, m)
    requires i < |regions| && regions[i].range.count > 0 && cut.count > 0 && regions[i].range.Overlaps(cut)
    ensures Complete(Cut(regions, i, cut), hull, Minus(m, Intersection(regions[i].range, cut)))
  {
    hide Cut, Covered;
    forall p | p in Minus(m, Intersection(regions[i].range, cut)) && hull.Has(p)
      ensures Covered(Cut(regions, i, cut), p)
    {
      assert Covered(regions, p);
      CutCovered(regions, i, cut, p);
    }
  }

  lemma CutCovered(regions: seq<Region>, i: nat, cut: Range, p: int)
    requires i < |regions| && regions[i].range.count > 0 && cut.count > 0 && regions[i].range.Overlaps(cut)
    requires Covered(regions, p) && !(regions[i].range.Has(p) && cut.Has(p))
    ensures Covered(Cut(regions, i, cut), p)
  {
    hide Apart, Pieces;
    var kept, pieces := SwapRemove(regions, i), Pieces(regions[i], cut);
    var regions' := kept + pieces;
    var k :| 0 <= k < |regions| && regions[k].range.Has(p);
    if k == i {
      assert Covered(pieces, p);
      var l :| 0 <= l < |pieces| && pieces[l].range.Has(p);
      assert regions'[|kept| + l] == pieces[l];
    } else {
      var l := if k == |regions| - 1 then i else k;
      assert regions'[l] == kept[l] == regions[k];
    }
  }

  /** One turn of the cutting loop takes exactly the cut part of one region
      out of the map. */
  lemma CutTiles(regions: seq<Region>, hull: Range, m: Grants, i: nat, cut: Range)
    requires Tiles(regions, hull, m) && i < |regions| && cut.count > 0 && regions[i].range.Overlaps(cut)
    ensures Tiles(Cut(regions, i, cut), hull, Minus(m, Intersection(regions[i].range, cut)))
  {
    CutApart(regions, i, cut);
    CutSound(regions, hull, m, i, cut);
    CutComplete(regions, hull, m, i, cut);
  }

  /** `remove_committed_range`. */
  method RemoveCommittedRange(start: seq<Region>, cut: Range, ghost hull: Range, ghost m: Grants)
    returns (regions: seq<Region>)
    requires Tiles(start, hull, m) && hull.Encloses(cut) && cut.count > 0
    ensures Tiles(regions, hull, Minus(m, cut))
  {
    regions := start;
    var index := 0;
    ghost var left := m;
    while index < |regions|
      invariant 0 <= index <= |regions|
      invariant Tiles(regions, hull, left)
      invariant forall j :: 0 <= j < index ==> !regions[j].range.Overlaps(cut)
      invariant Minus(left, cut) == Minus(m, cut)
      decreases set p | p in left && cut.Has(p), |regions| - index
    {
      var region := regions[index];
      if !region.range.Overlaps(cut) {
        index := index + 1;
        continue;
      }
      CutTiles(regions, hull, left, index, cut);
      ghost var gone := Intersection(region.range, cut);
      ghost var before := set p | p in left && cut.Has(p);
      assert gone.Has(gone.first) && region.range.Has(gone.first);
      assert gone.first in before;
      left := Minus(left, gone);
      assert gone.first !in (set p | p in left && cut.Has(p));
      regions := SwapRemove(regions, index) + Pieces(region, cut);
    }
    forall p | p in left && cut.Has(p)
      ensures false
    {
      assert Covered(regions, p);
      var j :| 0 <= j < |regions| && regions[j].range.Has(p);
      assert regions[j].range.Overlaps(cut);
    }
    assert left == Minus(left, cut);
  }

  /** No page of the range is granted. */
  ghost predicate NoneGranted(m: Grants, range: Range) {
    forall p :: range.Has(p) ==> p !in m
  }

  /** A region appended to a tiling gives a tiling exactly when it takes none
      of its pages. */
  lemma AppendTilesIff(regions: seq<Region>, hull: Range, m: Grants, range: Range, grant: Grant)
    requires Tiles(regions, hull, m) && hull.Encloses(range) && range.count > 0
    ensures Tiles(regions + [Region(range, grant)], hull, Plus(m, range, grant)) <==> NoneGranted(m, range)
  {
    var regions' := regions + [Region(range, grant)];
    if forall p :: range.Has(p) ==> p !in m {
      AppendTiles(regions, hull, m, range, grant);
    } else {
      var p :| range.Has(p) && p in m;
      assert Covered(regions, p);
      var k :| 0 <= k < |regions| && regions[k].range.Has(p);
      assert regions'[k].range.Overlaps(regions'[|regions|].range);
    }
  }

  lemma AppendTiles(regions: seq<Region>, hull: Range, m: Grants, range: Range, grant: Grant)
    requires Tiles(regions, hull, m) && hull.Encloses(range) && range.count > 0
    requires forall p :: range.Has(p) ==> p !in m
    ensures Tiles(regions + [Region(range, grant)], hull, Plus(m, range, grant))
  {
    var regions' := regions + [Region(range, grant)];
    var m' := Plus(m, range, grant);
    forall i | 0 <= i < |regions|
      ensures !regions[i].range.Overlaps(range)
    {
      var r := regions[i].range;
      var q := if r.first < range.first then range.first else r.first;
      assert r.Overlaps(range) ==> r.Has(q) && range.Has(q);
    }
    forall i, p | 0 <= i < |regions'| && regions'[i].range.Has(p)
      ensures p in m' && m'[p] == regions'[i].grant
    {
      if i < |regions| { assert regions[i].range.Has(p); }
    }
    forall p | p in m' && hull.Has(p)
      ensures Covered(regions', p)
    {
      if range.Has(p) {
        assert regions'[|regions|].range.Has(p);
      } else {
        assert Covered(regions, p);
        var k :| 0 <= k < |regions| && regions[k].range.Has(p);
        assert regions'[k].range.Has(p);
      }
    }
  }

  /** The region that holds page `p`, if any. */
  method FindRegion(regions: seq<Region>, p: PageNo) returns (r: Option<Region>)
    ensures r.Some? ==> r.value in regions && r.value.range.Has(p)
    ensures r.None? ==> !Covered(regions, p)
  {
    for i := 0 to |regions|
      invariant forall j :: 0 <= j < i ==> !regions[j].range.Has(p)
    {
      if regions[i].range.Has(p) { return Some(regions[i]); }
    }
    return None;
  }

  /** `committed_regions_cover` decides whether every page is granted. */
  method RegionsCover(regions: seq<Region>, range: Range, ghost hull: Range, ghost m: Grants) returns (b: bool)
    requires Tiles(regions, hull, m) && hull.Encloses(range)
    ensures b <==> forall p: PageNo :: range.Has(p) ==> p in m
  {
    var cursor, end := range.first, range.End();
    while cursor < end
      invariant range.first <= cursor <= end
      invariant forall p: PageNo :: range.first <= p < cursor ==> p in m
      decreases end - cursor
    {
      var found := FindRegion(regions, cursor);
      if found.None? {
        assert hull.Has(cursor) && range.Has(cursor);
        return false;
      }
      var region := found.value;
      var i :| 0 <= i < |regions| && regions[i] == region;
      forall p: PageNo | region.range.Has(p) ensures p in m { assert regions[i].range.Has(p); }
      cursor := if region.range.End() < end then region.range.End() else end;
    }
    return true;
  }

  method AnyOverlap(regions: seq<Region>, range: Range, ghost hull: Range, ghost m: Grants) returns (b: bool)
    requires Tiles(regions, hull, m) && hull.Encloses(range) && range.count > 0
    ensures b <==> exists p :: p in m && range.Has(p)
  {
    for i := 0 to |regions|
      invariant forall j :: 0 <= j < i ==> !regions[j].range.Overlaps(range)
    {
      if regions[i].range.Overlaps(range) {
        var x := Intersection(regions[i].range, range);
        assert x.Has(x.first) && regions[i].range.Has(x.first) && range.Has(x.first);
        return true;
      }
    }
    forall p | range.Has(p)
      ensures p !in m
    {
      forall j | 0 <= j < |regions| ensures !regions[j].range.Has(p) {
        assert !regions[j].range.Overlaps(range);
      }
      assert !Covered(regions, p) && hull.Has(p);
    }
    return false;
  }

  // ---- Range lists

  ghost predicate RangesApart(rs: seq<Range>) {
    forall i, j :: 0 <= i < j < |rs| ==> !rs[i].Overlaps(rs[j])
  }

  ghost predicate InSome(rs: seq<Range>, p: int) {
    exists i :: 0 <= i < |rs| && rs[i].Has(p)
  }

  /** `rs` lists, without repetition, exactly the pages of `pages`. */
  ghost predicate Lists(rs: seq<Range>, pages: set<PageNo>) {
    && RangesApart(rs)
    && (forall i :: 0 <= i < |rs| ==> rs[i].count > 0)
    && (forall i, p {:trigger rs[i].Has(p)} :: 0 <= i < |rs| && rs[i].Has(p) ==> p in pages)
    && (forall p :: p in pages ==> InSome(rs, p))
  }

  ghost function Keys<T>(m: map<PageNo, T>, range: Range): set<PageNo> {
    set p | p in m && range.Has(p)
  }

  lemma ListsAppend(rs: seq<Range>, pages: set<PageNo>, x: Range, more: set<PageNo>)
    requires Lists(rs, pages) && x.count > 0 && pages !! more
    requires forall p: PageNo :: p in more <==> x.Has(p)
    ensures Lists(rs + [x], pages + more)
  {
    var rs' := rs + [x];
    forall i | 0 <= i < |rs| ensures !rs[i].Overlaps(x) {
      var q := if rs[i].first < x.first then x.first else rs[i].first;
      assert rs[i].Overlaps(x) ==> rs[i].Has(q) && x.Has(q);
    }
    forall i, p | 0 <= i < |rs'| && rs'[i].Has(p) ensures p in pages + more {
      if i < |rs| { assert rs[i].Has(p); }
    }
    forall p | p in pages + more ensures InSome(rs', p) {
      if p in pages {
        assert InSome(rs, p);
        var k :| 0 <= k < |rs| && rs[k].Has(p);
        assert rs'[k].Has(p);
      } else {
        assert rs'[|rs|].Has(p);
      }
    }
  }

  lemma ListsWithin(rs: seq<Range>, pages: set<PageNo>, range: Range)
    requires Lists(rs, pages) && forall p :: p in pages ==> range.Has(p)
    ensures forall i :: 0 <= i < |rs| ==> range.Encloses(rs[i])
  {
    forall i | 0 <= i < |rs| ensures range.Encloses(rs[i]) {
      assert rs[i].Has(rs[i].first) && rs[i].Has(rs[i].End() - 1);
    }
  }

  ghost function KeysBelow(regions: seq<Region>, n: nat, m: Grants, range: Range): set<PageNo>
    requires n <= |regions|
  {
    set p | p in m && range.Has(p) && Covered(regions[..n], p)
  }

  lemma KeysBelowStep(regions: seq<Region>, n: nat, hull: Range, m: Grants, range: Range)
    requires Tiles(regions, hull, m) && n < |regions| && range.count > 0
    ensures var more := set p | p in m && range.Has(p) && regions[n].range.Has(p);
            && KeysBelow(regions, n + 1, m, range) == KeysBelow(regions, n, m, range) + more
            && KeysBelow(regions, n, m, range) !! more
  {
  }

  predicate Meets(a: Range, b: Range) {
    a.count > 0 && b.count > 0 && a.Overlaps(b)
  }

  /** The clipped committed parts of `range`, in list order. */
  function Clipped(regions: seq<Region>, range: Range): seq<Range> {
    if regions == [] then [] else
      var n := |regions| - 1;
      Clipped(regions[..n], range) + if Meets(regions[n].range, range) then [Intersection(regions[n].range, range)] else []
  }

  /** A range none of which was committed is one piece once it is. */
  lemma OnePiece(regions: seq<Region>, hull: Range, m: Grants, range: Range, grant: Grant)
    requires Tiles(regions, hull, m) && range.count > 0 && NoneGranted(m, range)
    ensures Clipped(regions + [Region(range, grant)], range) == [range]
  {
    forall i | 0 <= i < |regions| ensures !regions[i].range.Overlaps(range) {
      var r := regions[i].range;
      var q := if r.first < range.first then range.first else r.first;
      assert r.Overlaps(range) ==> r.Has(q) && range.Has(q);
    }
    NoneMeet(regions, range);
    var more := regions + [Region(range, grant)];
    assert more[..|regions|] == regions;
  }

  /** The first part is where the first overlapping region meets the range. */
  lemma {:induction false} FirstClipped(regions: seq<Region>, range: Range, i: nat)
    requires i < |regions| && Meets(regions[i].range, range) && forall j :: 0 <= j < i ==> !Meets(regions[j].range, range)
    ensures Clipped(regions, range) != [] && Clipped(regions, range)[0] == Intersection(regions[i].range, range)
  {
    var n := |regions| - 1;
    if i < n {
      FirstClipped(regions[..n], range, i);
    } else {
      forall j | 0 <= j < n ensures !Meets(regions[..n][j].range, range) {}
      NoneMeet(regions[..n], range);
    }
  }

  lemma {:induction false} NoneMeet(regions: seq<Region>, range: Range)
    requires forall i :: 0 <= i < |regions| ==> !Meets(regions[i].range, range)
    ensures Clipped(regions, range) == []
  {
    if regions != [] { NoneMeet(regions[..|regions| - 1], range); }
  }

  method Intersections(regions: seq<Region>, range: Range, ghost hull: Range, ghost m: Grants)
    returns (rs: seq<Range>)
    requires Tiles(regions, hull, m) && hull.Encloses(range) && range.count > 0
    ensures rs == Clipped(regions, range) && Lists(rs, Keys(m, range))
    ensures forall i :: 0 <= i < |rs| ==> range.Encloses(rs[i])
  {
    rs := [];
    for i := 0 to |regions|
      invariant rs == Clipped(regions[..i], range) && Lists(rs, KeysBelow(regions, i, m, range))
    {
      assert regions[..i + 1][..i] == regions[..i];
      KeysBelowStep(regions, i, hull, m, range);
      ghost var more := set p | p in m && range.Has(p) && regions[i].range.Has(p);
      if Meets(regions[i].range, range) {
        var x := Intersection(regions[i].range, range);
        assert x.Has(x.first) && x.Has(x.End() - 1);
        forall p: PageNo | x.Has(p) ensures p in more { assert regions[i].range.Has(p); }
        ListsAppend(rs, KeysBelow(regions, i, m, range), x, more);
        rs := rs + [x];
      } else {
        assert more == {};
        assert KeysBelow(regions, i + 1, m, range) == KeysBelow(regions, i, m, range);
      }
    }
    forall p | p in m && range.Has(p) ensures Covered(regions[..|regions|], p) {
      assert hull.Has(p) && Covered(regions, p);
      assert regions[..|regions|] == regions;
    }
    assert regions[..|regions|] == regions;
    assert KeysBelow(regions, |regions|, m, range) == Keys(m, range);
    ListsWithin(rs, Keys(m, range), range);
  }

  lemma InSomeStep(rs: seq<Range>, i: nat)
    requires i < |rs|
    ensures forall p :: InSome(rs[..i + 1], p) <==> InSome(rs[..i], p) || rs[i].Has(p)
  {
  }

  /** Cutting every clipped part out, one after another. */
  method RemoveAll(start: seq<Region>, cuts: seq<Range>, range: Range, ghost hull: Range, ghost m: Grants)
    returns (regions: seq<Region>)
    requires Tiles(start, hull, m) && hull.Encloses(range) && Lists(cuts, Keys(m, range))
    requires forall i :: 0 <= i < |cuts| ==> range.Encloses(cuts[i])
    ensures Tiles(regions, hull, Minus(m, range))
  {
    hide Apart, Sound, Complete;
    regions := start;
    ghost var left := m;
    for i := 0 to |cuts|
      invariant Tiles(regions, hull, left)
      invariant forall p :: p in left <==> p in m && !InSome(cuts[..i], p)
      invariant forall p :: p in left ==> left[p] == m[p]
    {
      InSomeStep(cuts, i);
      regions := RemoveCommittedRange(regions, cuts[i], hull, left);
      left := Minus(left, cuts[i]);
    }
    assert cuts[..|cuts|] == cuts;
    ListsMeans(cuts, Keys(m, range));
    assert left == Minus(m, range);
  }

  lemma ListsMeans(rs: seq<Range>, pages: set<PageNo>)
    requires Lists(rs, pages)
    ensures forall p: PageNo :: InSome(rs, p) <==> p in pages
  {
  }

  // ---- Swap entries

  ghost predicate Ascending(entries: seq<SwapEntry>) {
    forall i, j :: 0 <= i < j < |entries| ==> entries[i].page < entries[j].page
  }

  ghost predicate HasEntry(entries: seq<SwapEntry>, p: PageNo) {
    exists i :: 0 <= i < |entries| && entries[i].page == p
  }

  ghost predicate Truthful(entries: seq<SwapEntry>, hull: Range, m: Swaps) {
    forall i {:trigger entries[i]} :: 0 <= i < |entries| ==>
      hull.Has(entries[i].page) && entries[i].page in m && m[entries[i].page] == entries[i]
  }

  ghost predicate Exhaustive(entries: seq<SwapEntry>, hull: Range, m: Swaps) {
    forall p :: p in m && hull.Has(p) ==> HasEntry(entries, p)
  }

  /** `entries` lists, ascending and without repetition, exactly the entries
      `m` has for the pages of `hull`. */
  ghost predicate Records(entries: seq<SwapEntry>, hull: Range, m: Swaps) {
    Ascending(entries) && Truthful(entries, hull, m) && Exhaustive(entries, hull, m)
  }

  lemma RecordsFrame(entries: seq<SwapEntry>, hull: Range, m: Swaps, m': Swaps)
    requires Records(entries, hull, m)
    requires forall p :: hull.Has(p) ==> (p in m <==> p in m') && (p in m ==> m[p] == m'[p])
    ensures Records(entries, hull, m')
  {
  }

  lemma AppendRecords(entries: seq<SwapEntry>, e: SwapEntry, hull: Range, m: Swaps)
    requires Records(entries, hull, m) && hull.Has(e.page)
    requires forall p :: p in m ==> p < e.page
    ensures Records(entries + [e], hull, m[e.page := e])
  {
    var s := entries + [e];
    assert forall i :: 0 <= i < |entries| ==> s[i] == entries[i];
    forall p | p in m[e.page := e] && hull.Has(p)
      ensures HasEntry(s, p)
    {
      if p == e.page {
        assert s[|entries|].page == p;
      } else {
        assert HasEntry(entries, p);
        var i :| 0 <= i < |entries| && entries[i].page == p;
        assert s[i].page == p;
      }
    }
  }

  /** `take_swapped_range`: the retained and the taken entries split the list. */
  method TakeSwappedRange(entries: seq<SwapEntry>, range: Range, ghost hull: Range, ghost m: Swaps)
    returns (kept: seq<SwapEntry>, taken: seq<SwapEntry>)
    requires Records(entries, hull, m) && hull.Encloses(range)
    ensures Records(kept, hull, Minus(m, range))
    ensures Records(taken, range, m)
    ensures taken != [] ==> exists p :: p in m && range.Has(p)
  {
    hide Records;
    EmptyRecords(hull, range);
    kept, taken := [], [];
    ghost var seen: Swaps := map[];
    for n := 0 to |entries|
      invariant Records(kept, hull, Minus(seen, range)) && Records(taken, range, seen)
      invariant forall p :: p in seen ==> p in m && seen[p] == m[p] && (n < |entries| ==> p < entries[n].page)
      invariant forall i :: 0 <= i < n ==> entries[i].page in seen
    {
      var e := entries[n];
      ghost var seen' := seen[e.page := e];
      RecordAt(entries, hull, m, n);
      TakeStep(kept, taken, e, range, hull, seen);
      if range.Has(e.page) {
        taken := taken + [e];
      } else {
        kept := kept + [e];
      }
      seen := seen';
    }
    AllSeen(entries, hull, m, seen);
    TakenSome(taken, range, seen);
    RecordsFrame(taken, range, seen, m);
    RecordsFrame(kept, hull, Minus(seen, range), Minus(m, range));
  }

  lemma EmptyRecords(hull: Range, range: Range)
    ensures Records([], hull, Minus(map[], range)) && Records([], range, map[])
  {
  }

  lemma RecordAt(entries: seq<SwapEntry>, hull: Range, m: Swaps, n: nat)
    requires Records(entries, hull, m) && n < |entries|
    ensures hull.Has(entries[n].page) && entries[n].page in m && m[entries[n].page] == entries[n]
    ensures n + 1 < |entries| ==> entries[n].page < entries[n + 1].page
  {
  }

  lemma AllSeen(entries: seq<SwapEntry>, hull: Range, m: Swaps, seen: Swaps)
    requires Records(entries, hull, m) && forall i :: 0 <= i < |entries| ==> entries[i].page in seen
    ensures forall p :: p in m && hull.Has(p) ==> p in seen
  {
  }

  lemma TakenSome(taken: seq<SwapEntry>, range: Range, seen: Swaps)
    requires Records(taken, range, seen)
    ensures taken != [] ==> exists p :: p in seen && range.Has(p)
  {
    if taken != [] { assert taken[0].page in seen && range.Has(taken[0].page); }
  }

  lemma TakeStep(kept: seq<SwapEntry>, taken: seq<SwapEntry>, e: SwapEntry, range: Range, hull: Range, seen: Swaps)
    requires Records(kept, hull, Minus(seen, range)) && Records(taken, range, seen) && hull.Has(e.page)
    requires forall p :: p in seen ==> p < e.page
    ensures var seen' := seen[e.page := e];
            if range.Has(e.page) then Records(kept, hull, Minus(seen', range)) && Records(taken + [e], range, seen')
            else Records(kept + [e], hull, Minus(seen', range)) && Records(taken, range, seen')
  {
    hide Records;
    var seen' := seen[e.page := e];
    if range.Has(e.page) {
      assert Minus(seen', range) == Minus(seen, range);
      AppendRecords(taken, e, range, seen);
    } else {
      assert Minus(seen', range) == Minus(seen, range)[e.page := e];
      AppendRecords(kept, e, hull, Minus(seen, range));
      RecordsFrame(taken, range, seen, seen');
    }
  }

  function InsertAt<T>(s: seq<T>, at: nat, e: T): (r: seq<T>)
    requires at <= |s|
  {
    seq(|s| + 1, i requires 0 <= i <= |s| => if i < at then s[i] else if i == at then e else s[i - 1])
  }

  function RemoveAt<T>(s: seq<T>, at: nat): (r: seq<T>)
    requires at < |s|
  {
    seq(|s| - 1, i requires 0 <= i < |s| - 1 => if i < at then s[i] else s[i + 1])
  }

  lemma InsertExhaustive(entries: seq<SwapEntry>, at: nat, e: SwapEntry, hull: Range, m: Swaps)
    requires Exhaustive(entries, hull, m) && at <= |entries|
    ensures Exhaustive(InsertAt(entries, at, e), hull, m[e.page := e])
  {
    var r := InsertAt(entries, at, e);
    assert r[at].page == e.page;
    forall p | p in m && p != e.page && hull.Has(p)
      ensures HasEntry(r, p)
    {
      assert HasEntry(entries, p);
      var i :| 0 <= i < |entries| && entries[i].page == p;
      assert r[if i < at then i else i + 1].page == p;
    }
  }

  lemma InsertTruthful(entries: seq<SwapEntry>, at: nat, e: SwapEntry, hull: Range, m: Swaps)
    requires Ascending(entries) && Truthful(entries, hull, m) && at <= |entries|
    requires hull.Has(e.page) && e.page !in m
    requires forall i :: 0 <= i < |entries| ==> (i < at <==> entries[i].page < e.page)
    ensures Ascending(InsertAt(entries, at, e)) && Truthful(InsertAt(entries, at, e), hull, m[e.page := e])
  {
  }

  /** Where `partition_point` puts a new entry. */
  method InsertSwap(entries: seq<SwapEntry>, e: SwapEntry, ghost hull: Range, ghost m: Swaps)
    returns (r: seq<SwapEntry>)
    requires Records(entries, hull, m) && hull.Has(e.page) && e.page !in m
    ensures Records(r, hull, m[e.page := e])
  {
    var at := 0;
    while at < |entries| && entries[at].page < e.page
      invariant 0 <= at <= |entries|
      invariant forall i :: 0 <= i < at ==> entries[i].page < e.page
    {
      at := at + 1;
    }
    r := InsertAt(entries, at, e);
    InsertTruthful(entries, at, e, hull, m);
    InsertExhaustive(entries, at, e, hull, m);
  }

  method FindSwap(entries: seq<SwapEntry>, p: PageNo) returns (r: Option<nat>)
    ensures r.Some? ==> r.value < |entries| && entries[r.value].page == p
    ensures r.None? ==> !HasEntry(entries, p)
  {
    for i := 0 to |entries|
      invariant forall j :: 0 <= j < i ==> entries[j].page != p
    {
      if entries[i].page == p { return Some(i); }
    }
    return None;
  }

  lemma RemoveTruthful(entries: seq<SwapEntry>, at: nat, hull: Range, m: Swaps)
    requires Ascending(entries) && Truthful(entries, hull, m) && at < |entries|
    ensures Ascending(RemoveAt(entries, at)) && Truthful(RemoveAt(entries, at), hull, m - {entries[at].page})
  {
  }

  lemma RemoveSwap(entries: seq<SwapEntry>, at: nat, hull: Range, m: Swaps)
    requires Records(entries, hull, m) && at < |entries|
    ensures Records(RemoveAt(entries, at), hull, m - {entries[at].page})
  {
    RemoveTruthful(entries, at, hull, m);
    var r := RemoveAt(entries, at);
    forall p | p in m && p != entries[at].page && hull.Has(p)
      ensures HasEntry(r, p)
    {
      assert HasEntry(entries, p);
      var i :| 0 <= i < |entries| && entries[i].page == p;
      assert r[if i < at then i else i - 1].page == p;
    }
  }

  // ---- Splitting a range into granted and ungranted parts

  /** Start of the first region after `cursor`, or `end`. */
  method NextStart(regions: seq<Region>, cursor: PageNo, end: PageNo, ghost hull: Range, ghost m: Grants)
    returns (next: PageNo)
    requires Tiles(regions, hull, m) && hull.first <= cursor < end <= hull.End()
    requires !Covered(regions, cursor)
    ensures cursor < next <= end
    ensures forall p: PageNo :: cursor <= p < next ==> p !in m
  {
    next := end;
    for i := 0 to |regions|
      invariant cursor < next <= end
      invariant forall j :: 0 <= j < i && cursor < regions[j].range.first ==> next <= regions[j].range.first
    {
      var start := regions[i].range.first;
      if cursor < start && start < next { next := start; }
    }
    forall p: PageNo | cursor <= p < next
      ensures p !in m
    {
      forall j | 0 <= j < |regions| ensures !regions[j].range.Has(p) {
        assert !regions[j].range.Has(cursor);
      }
      assert !Covered(regions, p) && hull.Has(p);
    }
  }

  ghost function Ungranted(m: Grants, range: Range): set<PageNo> {
    set p: PageNo | range.first <= p < range.End() && p !in m
  }

  ghost predicate SplitAt(protect: seq<Range>, commit: seq<Range>, m: Grants, done: Range) {
    Lists(protect, Keys(m, done)) && Lists(commit, Ungranted(m, done))
  }

  lemma GrowGranted(protect: seq<Range>, commit: seq<Range>, m: Grants, done: Range, n: nat)
    requires SplitAt(protect, commit, m, done) && n > 0
    requires forall p: PageNo :: Range(done.End(), n).Has(p) ==> p in m
    ensures SplitAt(protect + [Range(done.End(), n)], commit, m, Range(done.first, done.count + n))
  {
    var part, done' := Range(done.End(), n), Range(done.first, done.count + n);
    var more := set p | p in m && part.Has(p);
    assert forall p :: done'.Has(p) <==> done.Has(p) || part.Has(p);
    assert Keys(m, done') == Keys(m, done) + more;
    assert Ungranted(m, done') == Ungranted(m, done);
    ListsAppend(protect, Keys(m, done), part, more);
  }

  lemma GrowUngranted(protect: seq<Range>, commit: seq<Range>, m: Grants, done: Range, n: nat)
    requires SplitAt(protect, commit, m, done) && n > 0
    requires forall p: PageNo :: Range(done.End(), n).Has(p) ==> p !in m
    ensures SplitAt(protect, commit + [Range(done.End(), n)], m, Range(done.first, done.count + n))
  {
    var part, done' := Range(done.End(), n), Range(done.first, done.count + n);
    var more := set p: PageNo | part.first <= p < part.End() && part.Has(p);
    assert forall p :: done'.Has(p) <==> done.Has(p) || part.Has(p);
    assert Keys(m, done') == Keys(m, done);
    forall p: PageNo ensures p in Ungranted(m, done') <==> p in Ungranted(m, done) + more {
      assert part.Has(p) ==> p !in m;
    }
    assert Ungranted(m, done') == Ungranted(m, done) + more;
    ListsAppend(commit, Ungranted(m, done), part, more);
  }

  /** All of the range is granted, and alike. */
  ghost predicate OneGrant(m: Grants, range: Range) {
    forall p: PageNo :: range.Has(p) ==> p in m && range.first in m && m[p] == m[range.first]
  }

  /** The stretch from `cursor` on that is granted by one region or by none. */
  method Stretch(regions: seq<Region>, cursor: PageNo, end: PageNo, ghost hull: Range, ghost m: Grants)
    returns (granted: bool, next: PageNo)
    requires Tiles(regions, hull, m) && hull.first <= cursor < end <= hull.End()
    ensures cursor < next <= end
    ensures forall p: PageNo :: Range(cursor, next - cursor).Has(p) ==> (p in m <==> granted)
    ensures granted ==> OneGrant(m, Range(cursor, next - cursor))
  {
    var found := FindRegion(regions, cursor);
    if found.None? {
      next := NextStart(regions, cursor, end, hull, m);
      return false, next;
    }
    var region := found.value;
    ghost var k :| 0 <= k < |regions| && regions[k] == region;
    next := if region.range.End() < end then region.range.End() else end;
    forall p: PageNo | Range(cursor, next - cursor).Has(p) ensures p in m && m[p] == region.grant { assert regions[k].range.Has(p); }
    granted := true;
  }

  lemma EmptySplit(m: Grants, first: PageNo)
    ensures SplitAt([], [], m, Range(first, 0))
  {
  }

  lemma SplitEnd(protect: seq<Range>, commit: seq<Range>, m: Grants, range: Range)
    requires SplitAt(protect, commit, m, range)
    ensures Lists(protect, Keys(m, range)) && Lists(commit, Ungranted(m, range))
  {
  }

  /** `accessibility_plan`: every page of `range` lands in exactly one of the
      two lists, by whether it is granted. */
  method Split(regions: seq<Region>, range: Range, ghost hull: Range, ghost m: Grants)
    returns (protect: seq<Range>, commit: seq<Range>)
    requires Tiles(regions, hull, m) && hull.Encloses(range)
    ensures Lists(protect, Keys(m, range)) && Lists(commit, Ungranted(m, range))
    ensures forall i :: 0 <= i < |protect| ==> range.Encloses(protect[i])
    ensures forall i :: 0 <= i < |commit| ==> range.Encloses(commit[i])
    ensures forall i :: 0 <= i < |protect| ==> OneGrant(m, protect[i])
  {
    hide SplitAt, Tiles, Lists, OneGrant;
    EmptySplit(m, range.first);
    var cursor, end := range.first, range.End();
    protect, commit := [], [];
    while cursor < end
      invariant range.first <= cursor <= end
      invariant SplitAt(protect, commit, m, Range(range.first, cursor - range.first))
      invariant forall i :: 0 <= i < |protect| ==> OneGrant(m, protect[i])
      decreases end - cursor
    {
      ghost var done := Range(range.first, cursor - range.first);
      var granted, next := Stretch(regions, cursor, end, hull, m);
      if granted {
        GrowGranted(protect, commit, m, done, next - cursor);
        protect := protect + [Range(cursor, next - cursor)];
      } else {
        GrowUngranted(protect, commit, m, done, next - cursor);
        commit := commit + [Range(cursor, next - cursor)];
      }
      cursor := next;
    }
    assert Range(range.first, end - range.first) == range;
    SplitEnd(protect, commit, m, range);
    ListsWithin(protect, Keys(m, range), range);
    ListsWithin(commit, Ungranted(m, range), range);
  }
}
