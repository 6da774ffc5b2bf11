/** The reservation tracker: disjoint reservations, each with its own list of
    committed regions and swap entries. Its two page maps, `committed` and
    `swapped`, are what the address space reasons with; every method is one
    operation on them, and no page is ever in both. */
module Tracker {
  import opened Options
  import opened PageWalk
  import opened PageTables
  import opened Regions

  datatype Reservation = Reservation(range: Range, committed: seq<Region>, swapped: seq<SwapEntry>)

  datatype Released = Released(committed: seq<Region>, swapped: seq<SwapEntry>)

  datatype Plan = Plan(protect: seq<Range>, commit: seq<Range>)

  datatype Lookup = Unreserved | Reserved | Committed(grant: Grant)

  function Hulls(rs: seq<Reservation>): (h: seq<Range>)
    ensures |h| == |rs| && forall i :: 0 <= i < |rs| ==> h[i] == rs[i].range
  {
    seq(|rs|, i requires 0 <= i < |rs| => rs[i].range)
  }

  ghost predicate Holds(r: Reservation, c: Grants, s: Swaps) {
    Tiles(r.committed, r.range, c) && Records(r.swapped, r.range, s)
  }

  ghost predicate AllHold(rs: seq<Reservation>, c: Grants, s: Swaps) {
    forall i :: 0 <= i < |rs| ==> Holds(rs[i], c, s)
  }

  ghost predicate Spans(hulls: seq<Range>) {
    RangesApart(hulls) && forall i :: 0 <= i < |hulls| ==>
      hulls[i].count > 0 && USER_FIRST <= hulls[i].first && hulls[i].End() <= USER_END
  }

  ghost predicate Inside<T>(hulls: seq<Range>, m: map<PageNo, T>) {
    forall p :: p in m ==> InSome(hulls, p)
  }

  ghost predicate Encloses(hulls: seq<Range>, virt: Range) {
    exists i :: 0 <= i < |hulls| && hulls[i].Encloses(virt)
  }

  /** Changing one reservation, and the maps only inside it, keeps the rest. */
  lemma UpdateOne(rs: seq<Reservation>, i: nat, r: Reservation, c: Grants, s: Swaps, c': Grants, s': Swaps)
    requires Spans(Hulls(rs)) && AllHold(rs, c, s) && i < |rs| && r.range == rs[i].range
    requires Holds(r, c', s')
    requires forall p :: !r.range.Has(p) ==> (p in c <==> p in c') && (p in c ==> c[p] == c'[p])
    requires forall p :: !r.range.Has(p) ==> (p in s <==> p in s') && (p in s ==> s[p] == s'[p])
    ensures AllHold(rs[i := r], c', s') && Hulls(rs[i := r]) == Hulls(rs)
  {
  }

  lemma InsideAfter<T>(hulls: seq<Range>, m: map<PageNo, T>, m': map<PageNo, T>, i: nat)
    requires Inside(hulls, m) && i < |hulls|
    requires forall p :: p in m' ==> p in m || hulls[i].Has(p)
    ensures Inside(hulls, m')
  {
  }

  /** A committed page becomes a swap entry with the grant it had. */
  method MoveOut(res: Reservation, p: PageNo, token: Token, ghost c: Grants, ghost s: Swaps)
    returns (r: Option<Reservation>, grant: Grant)
    requires Holds(res, c, s) && res.range.Has(p) && (p in c ==> p !in s)
    ensures r.Some? <==> p in c
    ensures r.Some? ==> grant == c[p] && r.value.range == res.range
                        && Holds(r.value, c - {p}, s[p := SwapEntry(p, token, grant)])
  {
    var found := FindRegion(res.committed, p);
    if found.None? { return None, Grant(PageFlags(false, false, false), 0); }
    grant := found.value.grant;
    ghost var k :| 0 <= k < |res.committed| && res.committed[k] == found.value;
    assert res.committed[k].range.Has(p);
    var regions := RemoveCommittedRange(res.committed, Range(p, 1), res.range, c);
    var entries := InsertSwap(res.swapped, SwapEntry(p, token, grant), res.range, s);
    assert Minus(c, Range(p, 1)) == c - {p};
    return Some(res.(committed := regions, swapped := entries)), grant;
  }

  /** A swap entry becomes a committed page again. */
  method MoveIn(res: Reservation, p: PageNo, ghost c: Grants, ghost s: Swaps)
    returns (r: Option<Reservation>, entry: SwapEntry)
    requires Holds(res, c, s) && res.range.Has(p) && (p in s ==> p !in c)
    ensures r.Some? <==> p in s
    ensures r.Some? ==> entry == s[p] && r.value.range == res.range
                        && Holds(r.value, c[p := entry.grant], s - {p})
  {
    var where := FindSwap(res.swapped, p);
    if where.None? { return None, SwapEntry(p, 0, Grant(PageFlags(false, false, false), 0)); }
    entry := res.swapped[where.value];
    RemoveSwap(res.swapped, where.value, res.range, s);
    AppendTiles(res.committed, res.range, c, Range(p, 1), entry.grant);
    assert Plus(c, Range(p, 1), entry.grant) == c[p := entry.grant];
    return Some(res.(committed := res.committed + [Region(Range(p, 1), entry.grant)],
                     swapped := RemoveAt(res.swapped, where.value))), entry;
  }

  /** All of `virt` has the new flags and the owner of its first committed
      part, in list order. */
  ghost predicate Reflagged(c: Grants, c': Grants, virt: Range, flags: PageFlags, parts: seq<Range>) {
    && parts != [] && virt.Has(parts[0].first) && parts[0].first in c
    && c' == Plus(c, virt, Grant(flags, c[parts[0].first].owner))
  }

  method FirstOwner(regions: seq<Region>, virt: Range, ghost hull: Range, ghost m: Grants) returns (owner: nat)
    requires Tiles(regions, hull, m) && hull.Encloses(virt) && virt.count > 0
    requires forall q: PageNo :: virt.Has(q) ==> q in m
    ensures var parts := Clipped(regions, virt);
            parts != [] && virt.Has(parts[0].first) && parts[0].first in m && m[parts[0].first].owner == owner
  {
    var i := 0;
    assert virt.Has(virt.first) && hull.Has(virt.first) && Covered(regions, virt.first);
    ghost var last :| 0 <= last < |regions| && regions[last].range.Has(virt.first);
    while !regions[i].range.Overlaps(virt)
      invariant 0 <= i <= last && forall j :: 0 <= j < i ==> !regions[j].range.Overlaps(virt)
      decreases last - i
    {
      i := i + 1;
    }
    FirstClipped(regions, virt, i);
    ghost var x := Intersection(regions[i].range, virt);
    assert x.Has(x.first) && regions[i].range.Has(x.first);
    return regions[i].grant.owner;
  }

  /** Replaces the flags of an all-committed range; the swap entries in the
      range, of which there are none, would take the new flags too. */
  method Reflag(res: Reservation, virt: Range, flags: PageFlags, ghost c: Grants, ghost s: Swaps)
    returns (r: Reservation, owner: nat)
    requires Holds(res, c, s) && res.range.Encloses(virt) && virt.count > 0 && c.Keys !! s.Keys
    requires forall p: PageNo :: virt.Has(p) ==> p in c
    ensures r.range == res.range && Holds(r, Plus(c, virt, Grant(flags, owner)), s)
    ensures Reflagged(c, Plus(c, virt, Grant(flags, owner)), virt, flags, Clipped(res.committed, virt))
  {
    hide Clipped, Tiles;
    owner := FirstOwner(res.committed, virt, res.range, c);
    var regions := RemoveCommittedRange(res.committed, virt, res.range, c);
    AppendTiles(regions, res.range, Minus(c, virt), virt, Grant(flags, owner));
    assert Plus(Minus(c, virt), virt, Grant(flags, owner)) == Plus(c, virt, Grant(flags, owner));
    var entries := seq(|res.swapped|, i requires 0 <= i < |res.swapped| =>
      var e := res.swapped[i];
      if virt.Has(e.page) then e.(grant := e.grant.(flags := flags)) else e);
    assert entries == res.swapped;
    r := res.(committed := regions + [Region(virt, Grant(flags, owner))], swapped := entries);
  }

  ghost predicate CarvedFrom(whole: seq<Range>, rest: seq<Range>) {
    forall i :: 0 <= i < |rest| ==> Encloses(whole, rest[i])
  }

  ghost predicate Vacated(hulls: seq<Range>, range: Range) {
    forall i :: 0 <= i < |hulls| ==> !hulls[i].Overlaps(range)
  }

  lemma CarvedClear(whole: seq<Range>, rest: seq<Range>, hulls: seq<Range>)
    requires CarvedFrom(whole, rest)
    requires forall j :: 0 <= j < |whole| ==> Vacated(hulls, whole[j])
    ensures forall j :: 0 <= j < |rest| ==> Vacated(hulls, rest[j])
  {
  }

  lemma SpansAppend(rest: seq<Range>, x: Range)
    requires Spans(rest) && Vacated(rest, x)
    requires x.count > 0 && USER_FIRST <= x.first && x.End() <= USER_END
    ensures Spans(rest + [x])
  {
  }

  lemma CarvedAppend(whole: seq<Range>, rest: seq<Range>, x: Range)
    requires CarvedFrom(whole, rest) && Encloses(whole, x)
    ensures CarvedFrom(whole, rest + [x])
  {
    var all := rest + [x];
    assert forall i :: 0 <= i < |all| ==> all[i] == if i < |rest| then rest[i] else x;
  }

  lemma DropRange(ranges: seq<Range>, i: nat)
    requires Spans(ranges) && i < |ranges|
    ensures Spans(SwapRemove(ranges, i)) && CarvedFrom(ranges, SwapRemove(ranges, i))
    ensures Vacated(SwapRemove(ranges, i), ranges[i])
  {
  }

  /** Range `i` is the first with `count` pages; its first pages are taken and
      what is left of it goes to the end of the list. */
  ghost predicate CutAt(ranges: seq<Range>, count: nat, i: nat, taken: Range, rest: seq<Range>)
    requires i < |ranges|
  {
    && count <= ranges[i].count && (forall j :: 0 <= j < i ==> ranges[j].count < count)
    && taken == Range(ranges[i].first, count)
    && rest == SwapRemove(ranges, i)
               + if ranges[i].count > count then [Range(ranges[i].first + count, ranges[i].count - count)] else []
  }

  /** First fit from the released ranges, the leftover going back. */
  method FirstFit(ranges: seq<Range>, count: nat) returns (r: Option<Range>, rest: seq<Range>)
    requires Spans(ranges) && count > 0
    ensures r.None? ==> rest == ranges && forall i :: 0 <= i < |ranges| ==> ranges[i].count < count
    ensures r.Some? ==> r.value.count == count && Spans(rest) && Spans(rest + [r.value])
                        && CarvedFrom(ranges, rest + [r.value])
    ensures r.Some? ==> forall p :: InSome(ranges, p) ==> InSome(rest + [r.value], p)
    ensures r.Some? ==> exists i :: 0 <= i < |ranges| && CutAt(ranges, count, i, r.value, rest)
  {
    var i := 0;
    while i < |ranges| && ranges[i].count < count
      invariant 0 <= i <= |ranges|
      invariant forall j :: 0 <= j < i ==> ranges[j].count < count
    {
      i := i + 1;
    }
    if i == |ranges| { return None, ranges; }
    var reused := ranges[i];
    rest := SwapRemove(ranges, i);
    var taken := Range(reused.first, count);
    DropRange(ranges, i);
    assert ranges[i].Encloses(taken);
    assert Vacated(rest, taken);
    if reused.count > count {
      var leftover := Range(reused.first + count, reused.count - count);
      assert ranges[i].Encloses(leftover) && Vacated(rest, leftover) && Vacated([leftover], taken);
      SpansAppend(rest, leftover);
      CarvedAppend(ranges, rest, leftover);
      ClearAppend(rest, leftover, taken);
      rest := rest + [leftover];
    }
    SpansAppend(rest, taken);
    CarvedAppend(ranges, rest, taken);
    NoneLost(ranges, i, count, rest);
    assert CutAt(ranges, count, i, taken, rest);
    r := Some(taken);
  }

  /** Cutting a range in two loses no page of the list. */
  lemma NoneLost(ranges: seq<Range>, i: nat, count: nat, rest: seq<Range>)
    requires i < |ranges| && 0 < count <= ranges[i].count
    requires rest == if ranges[i].count > count
                     then SwapRemove(ranges, i) + [Range(ranges[i].first + count, ranges[i].count - count)]
                     else SwapRemove(ranges, i)
    ensures forall p :: InSome(ranges, p) ==> InSome(rest + [Range(ranges[i].first, count)], p)
  {
    var all := rest + [Range(ranges[i].first, count)];
    forall p | InSome(ranges, p) ensures InSome(all, p) {
      var k :| 0 <= k < |ranges| && ranges[k].Has(p);
      if k != i {
        assert all[if k == |ranges| - 1 then i else k] == ranges[k];
      } else if p < ranges[i].first + count {
        assert all[|rest|].Has(p);
      } else {
        assert all[|ranges| - 1].Has(p);
      }
    }
  }

  lemma ClearAppend(hulls: seq<Range>, x: Range, range: Range)
    requires Vacated(hulls, range) && !x.Overlaps(range)
    ensures Vacated(hulls + [x], range)
  {
  }

  /** The clipped committed parts of the first reservation that holds `virt`. */
  function PiecesIn(rs: seq<Reservation>, virt: Range): seq<Range> {
    if rs == [] then []
    else if rs[0].range.Encloses(virt) then Clipped(rs[0].committed, virt)
    else PiecesIn(rs[1..], virt)
  }

  lemma {:induction false} PiecesAt(rs: seq<Reservation>, virt: Range, i: nat)
    requires i < |rs| && rs[i].range.Encloses(virt) && forall j :: 0 <= j < i ==> !rs[j].range.Encloses(virt)
    ensures PiecesIn(rs, virt) == Clipped(rs[i].committed, virt)
  {
    if i > 0 { PiecesAt(rs[1..], virt, i - 1); }
  }

  class ReservationTracker {
    var reservations: seq<Reservation>
    var freeList: seq<Range>
    ghost var committed: Grants
    ghost var swapped: Swaps

    ghost function Ranges(): seq<Range>
      reads this
    {
      Hulls(reservations)
    }

    /** The committed parts of `virt`, in the order they are handed out. */
    function Pieces(virt: Range): seq<Range>
      reads this
    {
      PiecesIn(reservations, virt)
    }

    ghost predicate Valid()
      reads this
    {
      && Spans(Ranges()) && Spans(freeList)
      && (forall j :: 0 <= j < |freeList| ==> Vacated(Ranges(), freeList[j]))
      && AllHold(reservations, committed, swapped)
      && Inside(Ranges(), committed) && Inside(Ranges(), swapped)
      && committed.Keys !! swapped.Keys
    }

    constructor ()
      ensures Valid() && reservations == [] && freeList == []
      ensures committed == map[] && swapped == map[]
    {
      reservations, freeList := [], [];
      committed, swapped := map[], map[];
    }

    /** `find`: the one reservation that holds all of `virt`. */
    method Find(virt: Range) returns (r: Option<nat>)
      ensures r.Some? ==> r.value < |reservations| && reservations[r.value].range.Encloses(virt)
      ensures r.Some? <==> Encloses(Ranges(), virt)
      ensures r.Some? ==> forall j :: 0 <= j < r.value ==> !reservations[j].range.Encloses(virt)
    {
      for i := 0 to |reservations|
        invariant forall j :: 0 <= j < i ==> !reservations[j].range.Encloses(virt)
      {
        if reservations[i].range.Encloses(virt) {
          assert Ranges()[i].Encloses(virt);
          return Some(i);
        }
      }
      return None;
    }

    method PrecheckCommit(virt: Range) returns (r: Result<Unit>)
      requires Valid() && virt.count > 0
      ensures r == if !Encloses(Ranges(), virt) then Err(NotReserved)
                   else if exists p :: p in committed && virt.Has(p) then Err(Overlap)
                   else Ok(Unit)
    {
      var at := Find(virt);
      if at.None? { return Err(NotReserved); }
      var res := reservations[at.value];
      var clash := AnyOverlap(res.committed, virt, res.range, committed);
      return if clash then Err(Overlap) else Ok(Unit);
    }

    method EnsureCommitted(virt: Range) returns (r: Result<Unit>)
      requires Valid()
      ensures r == if !Encloses(Ranges(), virt) then Err(NotReserved)
                   else if exists p: PageNo :: virt.Has(p) && p !in committed then Err(NotCommitted)
                   else Ok(Unit)
    {
      var at := Find(virt);
      if at.None? { return Err(NotReserved); }
      var res := reservations[at.value];
      var all := RegionsCover(res.committed, virt, res.range, committed);
      return if all then Ok(Unit) else Err(NotCommitted);
    }

    /** Stores reservation `i` back together with its effect on the maps. */
    method Put(i: nat, res: Reservation, ghost c: Grants, ghost s: Swaps)
      requires Valid() && i < |reservations| && res.range == reservations[i].range
      requires Holds(res, c, s) && c.Keys !! s.Keys
      requires forall p :: !res.range.Has(p) ==> (p in c <==> p in committed) && (p in c ==> c[p] == committed[p])
      requires forall p :: !res.range.Has(p) ==> (p in s <==> p in swapped) && (p in s ==> s[p] == swapped[p])
      modifies this
      ensures Valid() && committed == c && swapped == s && reservations == old(reservations)[i := res]
      ensures Ranges() == old(Ranges()) && freeList == old(freeList)
    {
      UpdateOne(reservations, i, res, committed, swapped, c, s);
      InsideAfter(Ranges(), committed, c, i);
      InsideAfter(Ranges(), swapped, s, i);
      reservations := reservations[i := res];
      committed, swapped := c, s;
    }

    /** The books stay right exactly when no page of the range was committed;
        it is handed out in one piece then. */
    method RecordCommit(virt: Range, grant: Grant) returns (r: Result<seq<SwapEntry>>)
      requires Valid() && virt.count > 0
      modifies this
      ensures Ranges() == old(Ranges()) && freeList == old(freeList)
      ensures Valid() <==> r.Err? || NoneGranted(old(committed), virt)
      ensures r.Ok? <==> Encloses(Ranges(), virt)
      ensures r.Err? ==> r.error == NotReserved && committed == old(committed) && swapped == old(swapped)
      ensures r.Ok? ==> Records(r.value, virt, old(swapped))
                        && committed == Plus(old(committed), virt, grant)
                        && swapped == Minus(old(swapped), virt)
      ensures r.Ok? && NoneGranted(old(committed), virt) ==> Pieces(virt) == [virt]
    {
      hide Tiles, Records, NoneGranted, PiecesIn, Clipped, Holds;
      var at := Find(virt);
      if at.None? { return Err(NotReserved); }
      var i, res := at.value, reservations[at.value];
      HoldsParts(reservations, i, committed, swapped);
      var kept, taken := TakeSwappedRange(res.swapped, virt, res.range, swapped);
      var res' := res.(committed := res.committed + [Region(virt, grant)], swapped := kept);
      ghost var c, sw := Plus(committed, virt, grant), Minus(swapped, virt);
      Recorded(reservations, i, res', virt, grant, committed, swapped);
      SameHulls(reservations, i, res');
      if NoneGranted(committed, virt) {
        InsideAfter(Ranges(), committed, c, i);
        InsideAfter(Ranges(), swapped, sw, i);
      }
      reservations := reservations[i := res'];
      committed, swapped := c, sw;
      PiecesAt(reservations, virt, i);
      return Ok(taken);
    }

    lemma HoldsParts(rs: seq<Reservation>, i: nat, c: Grants, s: Swaps)
      requires AllHold(rs, c, s) && i < |rs|
      ensures Tiles(rs[i].committed, rs[i].range, c) && Records(rs[i].swapped, rs[i].range, s)
    {
      assert Holds(rs[i], c, s);
    }

    lemma Recorded(rs: seq<Reservation>, i: nat, res: Reservation, virt: Range, grant: Grant, c: Grants, s: Swaps)
      requires Spans(Hulls(rs)) && AllHold(rs, c, s) && i < |rs| && rs[i].range.Encloses(virt) && virt.count > 0
      requires res == rs[i].(committed := rs[i].committed + [Region(virt, grant)], swapped := res.swapped)
      requires Records(res.swapped, res.range, Minus(s, virt))
      ensures AllHold(rs[i := res], Plus(c, virt, grant), Minus(s, virt)) <==> NoneGranted(c, virt)
      ensures NoneGranted(c, virt) ==> Clipped(res.committed, virt) == [virt]
    {
      hide Tiles, Records, NoneGranted, Clipped;
      HoldsParts(rs, i, c, s);
      AppendTilesIff(rs[i].committed, rs[i].range, c, virt, grant);
      if NoneGranted(c, virt) {
        OnePiece(rs[i].committed, rs[i].range, c, virt, grant);
        UpdateOne(rs, i, res, c, s, Plus(c, virt, grant), Minus(s, virt));
      } else {
        assert !Holds(rs[i := res][i], Plus(c, virt, grant), Minus(s, virt));
      }
    }

    lemma SameHulls(rs: seq<Reservation>, i: nat, res: Reservation)
      requires i < |rs| && res.range == rs[i].range
      ensures Hulls(rs[i := res]) == Hulls(rs)
    {
    }

    method RecordDecommit(virt: Range) returns (r: Result<seq<SwapEntry>>)
      requires Valid() && virt.count > 0
      modifies this
      ensures Valid() && Ranges() == old(Ranges()) && freeList == old(freeList)
      ensures r.Err? ==> committed == old(committed) && swapped == old(swapped)
      ensures r.Err? ==> r.error == if Encloses(Ranges(), virt) then NotCommitted else NotReserved
      ensures r.Ok? <==> Encloses(Ranges(), virt) && forall p: PageNo :: virt.Has(p) ==> p in old(committed)
      ensures r.Ok? ==> r.value == [] && committed == Minus(old(committed), virt) && swapped == old(swapped)
    {
      var check := EnsureCommitted(virt);
      if check.Err? { return Err(check.error); }
      var at := Find(virt);
      var res := reservations[at.value];
      var regions := RemoveCommittedRange(res.committed, virt, res.range, committed);
      var kept, taken := TakeSwappedRange(res.swapped, virt, res.range, swapped);
      assert Minus(swapped, virt) == swapped;
      Put(at.value, res.(committed := regions, swapped := kept), Minus(committed, virt), swapped);
      return Ok(taken);
    }

    method TakeSwapEntriesIn(virt: Range) returns (taken: seq<SwapEntry>)
      requires Valid()
      modifies this
      ensures Valid() && Ranges() == old(Ranges()) && freeList == old(freeList)
      ensures committed == old(committed)
      ensures if Encloses(Ranges(), virt)
              then Records(taken, virt, old(swapped)) && swapped == Minus(old(swapped), virt)
              else taken == [] && swapped == old(swapped)
      ensures Pieces(virt) == old(Pieces(virt))
    {
      var at := Find(virt);
      if at.None? { return []; }
      var res := reservations[at.value];
      PiecesAt(reservations, virt, at.value);
      var kept;
      kept, taken := TakeSwappedRange(res.swapped, virt, res.range, swapped);
      Put(at.value, res.(swapped := kept), committed, Minus(swapped, virt));
      PiecesAt(reservations, virt, at.value);
    }

    method RecordSwapOut(p: PageNo, token: Token) returns (r: Result<PageFlags>)
      requires Valid()
      modifies this
      ensures Valid() && Ranges() == old(Ranges()) && freeList == old(freeList)
      ensures r.Err? ==> committed == old(committed) && swapped == old(swapped)
      ensures r.Err? ==> r.error == if Encloses(Ranges(), Range(p, 1)) then NotCommitted else NotReserved
      ensures r.Ok? <==> p in old(committed)
      ensures r.Ok? ==> r.value == old(committed)[p].flags
                        && committed == old(committed) - {p}
                        && swapped == old(swapped)[p := SwapEntry(p, token, old(committed)[p])]
    {
      var at := Find(Range(p, 1));
      if at.None? {
        if p in committed { OnePage(Ranges(), p); }
        return Err(NotReserved);
      }
      var res := reservations[at.value];
      var moved, grant := MoveOut(res, p, token, committed, swapped);
      if moved.None? { return Err(NotCommitted); }
      Put(at.value, moved.value, committed - {p}, swapped[p := SwapEntry(p, token, grant)]);
      return Ok(grant.flags);
    }

    method TakeSwapEntry(p: PageNo) returns (r: Result<SwapEntry>)
      requires Valid()
      modifies this
      ensures Valid() && Ranges() == old(Ranges()) && freeList == old(freeList)
      ensures r.Err? ==> committed == old(committed) && swapped == old(swapped)
      ensures r.Err? ==> r.error == if Encloses(Ranges(), Range(p, 1)) then NotSwapped else NotReserved
      ensures r.Ok? <==> p in old(swapped)
      ensures r.Ok? ==> r.value == old(swapped)[p]
                        && swapped == old(swapped) - {p}
                        && committed == old(committed)[p := r.value.grant]
    {
      var at := Find(Range(p, 1));
      if at.None? {
        if p in swapped { OnePage(Ranges(), p); }
        return Err(NotReserved);
      }
      var res := reservations[at.value];
      var moved, entry := MoveIn(res, p, committed, swapped);
      if moved.None? { return Err(NotSwapped); }
      Put(at.value, moved.value, committed[p := entry.grant], swapped - {p});
      return Ok(entry);
    }

    /** A nonempty range of the window that no reservation and no released
        range overlaps. */
    ghost predicate Unclaimed(range: Range)
      reads this
    {
      && range.count > 0 && USER_FIRST <= range.first && range.End() <= USER_END
      && Vacated(Ranges(), range) && Vacated(freeList, range)
    }

    /** The caller owns address selection; the tracker stays right exactly when
        it picks a range nothing uses. */
    method Reserve(range: Range)
      requires Valid()
      modifies this
      ensures Valid() <==> old(Unclaimed(range))
      ensures Ranges() == old(Ranges()) + [range] && freeList == old(freeList)
      ensures committed == old(committed) && swapped == old(swapped)
    {
      hide Tiles, Records;
      ghost var hulls := Ranges();
      if Unclaimed(range) {
        Vacant(Ranges(), committed, range);
        Vacant(Ranges(), swapped, range);
        SpansAppend(Ranges(), range);
        InsideAppend(Ranges(), range, committed);
        InsideAppend(Ranges(), range, swapped);
        NothingHeld(range, committed, swapped);
      }
      var res := Reservation(range, [], []);
      assert Hulls(reservations + [res]) == hulls + [range];
      reservations := reservations + [res];
      LastUnclaimed(hulls, range, freeList);
    }

    lemma NothingHeld(range: Range, c: Grants, s: Swaps)
      requires forall p :: range.Has(p) ==> p !in c && p !in s
      ensures Holds(Reservation(range, [], []), c, s)
    {
    }

    lemma LastUnclaimed(hulls: seq<Range>, x: Range, free: seq<Range>)
      ensures Spans(hulls + [x]) ==> x.count > 0 && USER_FIRST <= x.first && x.End() <= USER_END && Vacated(hulls, x)
      ensures (forall j :: 0 <= j < |free| ==> Vacated(hulls + [x], free[j])) ==> Vacated(free, x)
    {
      var all, n := hulls + [x], |hulls|;
      assert all[n] == x;
      if Spans(all) {
        forall i | 0 <= i < n ensures !hulls[i].Overlaps(x) { assert !all[i].Overlaps(all[n]); }
      }
      if forall j :: 0 <= j < |free| ==> Vacated(all, free[j]) {
        forall j | 0 <= j < |free| ensures !free[j].Overlaps(x) { assert !all[n].Overlaps(free[j]); }
      }
    }

    lemma InsideAppend<T>(hulls: seq<Range>, x: Range, m: map<PageNo, T>)
      requires Inside(hulls, m)
      ensures Inside(hulls + [x], m)
    {
      var all := hulls + [x];
      forall p | p in m ensures InSome(all, p) {
        assert InSome(hulls, p);
        var i :| 0 <= i < |hulls| && hulls[i].Has(p);
        assert all[i].Has(p);
      }
    }

    lemma Vacant<T>(hulls: seq<Range>, m: map<PageNo, T>, range: Range)
      requires Inside(hulls, m) && Vacated(hulls, range)
      ensures forall p :: range.Has(p) ==> p !in m
    {
    }

    method Position(range: Range) returns (r: Option<nat>)
      ensures r.Some? ==> r.value < |reservations| && reservations[r.value].range == range
      ensures r.Some? <==> range in Ranges()
    {
      for i := 0 to |reservations|
        invariant forall j :: 0 <= j < i ==> reservations[j].range != range
      {
        if reservations[i].range == range {
          assert Ranges()[i] == range;
          return Some(i);
        }
      }
      return None;
    }

    /** Removes exactly the reservation `range` and hands back what it held. */
    method Release(range: Range) returns (r: Result<Released>)
      requires Valid()
      modifies this
      ensures Valid() && freeList == old(freeList)
      ensures r.Ok? <==> range in old(Ranges())
      ensures r.Err? ==> r.error == NotReserved && reservations == old(reservations)
                         && committed == old(committed) && swapped == old(swapped)
      ensures r.Ok? ==> Tiles(r.value.committed, range, old(committed))
                        && Records(r.value.swapped, range, old(swapped))
                        && committed == Minus(old(committed), range)
                        && swapped == Minus(old(swapped), range)
      ensures r.Ok? ==> exists i :: 0 <= i < |old(Ranges())| && old(Ranges())[i] == range && Ranges() == SwapRemove(old(Ranges()), i)
      ensures r.Ok? ==> Vacated(Ranges(), range) && Vacated(freeList, range)
      ensures r.Ok? ==> range.count > 0 && USER_FIRST <= range.first && range.End() <= USER_END
    {
      hide Tiles, Records, Inside;
      var at := Position(range);
      if at.None? { return Err(NotReserved); }
      var i := at.value;
      var res := reservations[i];
      assert Ranges()[i] == range;
      DropOne(reservations, i, committed, swapped);
      ghost var before := Ranges();
      reservations := SwapRemove(reservations, i);
      assert Ranges() == SwapRemove(before, i);
      DropInside(before, committed, i);
      DropInside(before, swapped, i);
      committed, swapped := Minus(committed, range), Minus(swapped, range);
      return Ok(Released(res.committed, res.swapped));
    }

    lemma DropOne(rs: seq<Reservation>, i: nat, c: Grants, s: Swaps)
      requires Spans(Hulls(rs)) && AllHold(rs, c, s) && i < |rs|
      ensures AllHold(SwapRemove(rs, i), Minus(c, rs[i].range), Minus(s, rs[i].range))
      ensures Spans(Hulls(SwapRemove(rs, i)))
      ensures forall j :: 0 <= j < |rs| - 1 ==> !Hulls(SwapRemove(rs, i))[j].Overlaps(rs[i].range)
    {
      var c', s' := Minus(c, rs[i].range), Minus(s, rs[i].range);
      var h := Hulls(rs);
      forall j | 0 <= j < |rs| && j != i
        ensures Holds(rs[j], c', s') && !rs[j].range.Overlaps(rs[i].range)
      {
        assert !h[i].Overlaps(h[j]) && !h[j].Overlaps(h[i]);
        TilesFrame(rs[j].committed, rs[j].range, c, c');
        RecordsFrame(rs[j].swapped, rs[j].range, s, s');
      }
    }

    lemma DropInside<T>(hulls: seq<Range>, m: map<PageNo, T>, i: nat)
      requires Inside(hulls, m) && i < |hulls|
      ensures Inside(SwapRemove(hulls, i), Minus(m, hulls[i]))
    {
    }

    lemma HeldAt(i: nat)
      requires Valid() && i < |reservations|
      ensures Holds(reservations[i], committed, swapped) && committed.Keys !! swapped.Keys
    {
    }

    method RecordProtect(virt: Range, flags: PageFlags) returns (r: Result<Unit>)
      requires Valid() && virt.count > 0
      requires forall p: PageNo :: virt.Has(p) ==> p in committed
      modifies this
      ensures Valid() && Ranges() == old(Ranges()) && freeList == old(freeList)
      ensures r == if Encloses(Ranges(), virt) then Ok(Unit) else Err(NotReserved)
      ensures swapped == old(swapped)
      ensures r.Err? ==> committed == old(committed)
      ensures r.Ok? ==> Reflagged(old(committed), committed, virt, flags, old(Pieces(virt)))
    {
      hide ReservationTracker.Valid, Holds, Reflagged, Clipped, PiecesIn;
      var at := Find(virt);
      if at.None? { return Err(NotReserved); }
      PiecesAt(reservations, virt, at.value);
      HeldAt(at.value);
      var res, owner := Reflag(reservations[at.value], virt, flags, committed, swapped);
      Put(at.value, res, Plus(committed, virt, Grant(flags, owner)), swapped);
      return Ok(Unit);
    }

    /** Takes the committed parts of `virt` out and lists them. */
    method TakeCommittedIntersections(virt: Range) returns (r: Result<seq<Range>>)
      requires Valid() && virt.count > 0
      modifies this
      ensures Valid() && Ranges() == old(Ranges()) && freeList == old(freeList)
      ensures swapped == old(swapped)
      ensures r.Ok? <==> Encloses(Ranges(), virt)
      ensures r.Err? ==> r.error == NotReserved && committed == old(committed)
      ensures r.Ok? ==> r.value == old(Pieces(virt)) && Lists(r.value, Keys(old(committed), virt))
                        && (forall i :: 0 <= i < |r.value| ==> virt.Encloses(r.value[i]))
                        && committed == Minus(old(committed), virt)
    {
      var at := Find(virt);
      if at.None? { return Err(NotReserved); }
      var res := reservations[at.value];
      PiecesAt(reservations, virt, at.value);
      var overlaps := Intersections(res.committed, virt, res.range, committed);
      var regions := RemoveAll(res.committed, overlaps, virt, res.range, committed);
      Put(at.value, res.(committed := regions), Minus(committed, virt), swapped);
      return Ok(overlaps);
    }

    method AccessibilityPlan(virt: Range) returns (r: Result<Plan>)
      requires Valid()
      ensures r.Ok? <==> Encloses(Ranges(), virt)
      ensures r.Err? ==> r.error == NotReserved
      ensures r.Ok? ==> Lists(r.value.protect, Keys(committed, virt)) && Lists(r.value.commit, Ungranted(committed, virt))
      ensures r.Ok? ==> forall i :: 0 <= i < |r.value.protect| ==> virt.Encloses(r.value.protect[i])
      ensures r.Ok? ==> forall i :: 0 <= i < |r.value.commit| ==> virt.Encloses(r.value.commit[i])
      ensures r.Ok? ==> forall i :: 0 <= i < |r.value.protect| ==> OneGrant(committed, r.value.protect[i])
    {
      var at := Find(virt);
      if at.None? { return Err(NotReserved); }
      var res := reservations[at.value];
      var protect, commit := Split(res.committed, virt, res.range, committed);
      return Ok(Plan(protect, commit));
    }

    method LookupPage(p: PageNo) returns (r: Lookup)
      requires Valid()
      ensures r == if p in committed then Committed(committed[p])
                   else if InSome(Ranges(), p) then Reserved else Unreserved
    {
      var at := Find(Range(p, 1));
      if at.None? {
        if p in committed || InSome(Ranges(), p) { OnePage(Ranges(), p); }
        return Unreserved;
      }
      var res := reservations[at.value];
      assert Ranges()[at.value].Has(p);
      var found := FindRegion(res.committed, p);
      if found.None? { return Reserved; }
      ghost var k :| 0 <= k < |res.committed| && res.committed[k] == found.value;
      assert res.committed[k].range.Has(p);
      return Committed(found.value.grant);
    }

    method ReuseFreeRange(count: nat) returns (r: Option<Range>)
      requires Valid() && count > 0
      modifies this
      ensures Valid() && reservations == old(reservations)
      ensures committed == old(committed) && swapped == old(swapped)
      ensures r.None? ==> freeList == old(freeList) && forall i :: 0 <= i < |freeList| ==> freeList[i].count < count
      ensures r.Some? ==> r.value.count == count && Spans(freeList + [r.value])
      ensures r.Some? ==> CarvedFrom(old(freeList), freeList + [r.value]) && Vacated(Ranges(), r.value)
      ensures r.Some? ==> forall p :: InSome(old(freeList), p) ==> InSome(freeList + [r.value], p)
      ensures r.Some? ==> exists i :: 0 <= i < |old(freeList)| && CutAt(old(freeList), count, i, r.value, freeList)
    {
      var rest;
      r, rest := FirstFit(freeList, count);
      if r.Some? {
        CarvedClear(freeList, rest + [r.value], Ranges());
        assert (rest + [r.value])[|rest|] == r.value;
        forall j | 0 <= j < |rest| ensures Vacated(Ranges(), rest[j]) {
          assert (rest + [r.value])[j] == rest[j];
        }
        freeList := rest;
      }
    }

    method PushFreeRange(range: Range)
      requires Valid()
      modifies this
      ensures Valid() <==> old(Unclaimed(range))
      ensures freeList == old(freeList) + [range] && reservations == old(reservations)
      ensures committed == old(committed) && swapped == old(swapped)
    {
      hide Tiles, Records;
      ghost var free := freeList;
      if Unclaimed(range) { SpansAppend(freeList, range); }
      freeList := freeList + [range];
      assert freeList[|free|] == range;
      LastUnclaimed(free, range, []);
    }

    lemma OnePage(hulls: seq<Range>, p: PageNo)
      requires InSome(hulls, p)
      ensures Encloses(hulls, Range(p, 1))
    {
    }
  }
}
