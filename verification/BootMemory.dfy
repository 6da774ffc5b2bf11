/** Usable memory once the boot-time reservations are taken out of it. */
module BootMemory {
  import opened Options

  const MAX_BOOT_RESERVED_RANGES := 4
  const MAX_USABLE_REGION_SEGMENTS := 6

  datatype Span = Span(start: nat, end: nat)
  {
    predicate Has(p: nat) { start <= p < end }
  }

  predicate InSome(segs: seq<Span>, p: nat) {
    exists i :: 0 <= i < |segs| && segs[i].Has(p)
  }

  /** Nonempty, ascending and apart. */
  predicate Ascending(segs: seq<Span>) {
    && (forall i :: 0 <= i < |segs| ==> segs[i].start < segs[i].end)
    && (forall i, j :: 0 <= i < j < |segs| ==> segs[i].end <= segs[j].start)
  }

  /** `split_segment`: the part below and the part above. */
  function SplitSegment(segment: Span, reserved: Span): seq<Option<Span>> {
    if reserved.end <= segment.start || reserved.start >= segment.end then [Some(segment), None]
    else [if reserved.start > segment.start then Some(Span(segment.start, reserved.start)) else None,
          if reserved.end < segment.end then Some(Span(reserved.end, segment.end)) else None]
  }

  function Flatten(xs: seq<Option<Span>>): (r: seq<Span>)
    ensures |r| <= |xs|
  {
    if xs == [] then [] else
      var n := |xs| - 1;
      Flatten(xs[..n]) + if xs[n].Some? then [xs[n].value] else []
  }

  function Pieces(segment: Span, reserved: Span): (r: seq<Span>)
    ensures |r| <= 2
  {
    Flatten(SplitSegment(segment, reserved))
  }

  function Subtract(segs: seq<Span>, reserved: Span): seq<Span> {
    if segs == [] then [] else
      var n := |segs| - 1;
      Subtract(segs[..n], reserved) + Pieces(segs[n], reserved)
  }

  function SubtractAll(segs: seq<Span>, reserved: seq<Span>): seq<Span> {
    if reserved == [] then segs else
      var n := |reserved| - 1;
      Subtract(SubtractAll(segs, reserved[..n]), reserved[n])
  }

  // ---- One segment

  lemma PiecesAre(segment: Span, reserved: Span)
    ensures Pieces(segment, reserved) ==
              if reserved.end <= segment.start || reserved.start >= segment.end then [segment]
              else (if reserved.start > segment.start then [Span(segment.start, reserved.start)] else [])
                   + (if reserved.end < segment.end then [Span(reserved.end, segment.end)] else [])
  {
    var xs := SplitSegment(segment, reserved);
    assert xs[..1][..0] == [] && xs == xs[..1] + [xs[1]];
    assert Flatten(xs[..1]) == (if xs[0].Some? then [xs[0].value] else []);
  }

  lemma PiecesExact(segment: Span, reserved: Span)
    requires segment.start < segment.end && reserved.start <= reserved.end
    ensures var r := Pieces(segment, reserved);
            && Ascending(r)
            && (forall i :: 0 <= i < |r| ==> segment.start <= r[i].start && r[i].end <= segment.end)
            && (forall p: nat :: InSome(r, p) <==> segment.Has(p) && !reserved.Has(p))
  {
    var r := Pieces(segment, reserved);
    PiecesAre(segment, reserved);
    hide Pieces;
    forall p: nat ensures InSome(r, p) <==> segment.Has(p) && !reserved.Has(p) {
      if segment.Has(p) && !reserved.Has(p) {
        assert r[0].Has(p) || (|r| == 2 && r[1].Has(p));
      }
    }
  }

  /** The pieces are apart exactly when the reserved range is not inverted
      inside the segment; an inverted one hands out the bytes between twice. */
  lemma PiecesApartIff(segment: Span, reserved: Span)
    requires segment.start < segment.end
    ensures Ascending(Pieces(segment, reserved)) <==>
              reserved.start <= reserved.end || reserved.end <= segment.start || reserved.start >= segment.end
  {
    PiecesAre(segment, reserved);
    hide Pieces;
    var r := Pieces(segment, reserved);
    if reserved.start <= reserved.end {
      PiecesExact(segment, reserved);
    } else if reserved.end > segment.start && reserved.start < segment.end {
      assert r[0].end > r[1].start;
    }
  }

  lemma InvertedReservation()
    ensures Pieces(Span(0, 10), Span(7, 3)) == [Span(0, 7), Span(3, 10)]
  {
  }

  // ---- All segments

  lemma InSomeConcat(a: seq<Span>, b: seq<Span>, p: nat)
    ensures InSome(a + b, p) <==> InSome(a, p) || InSome(b, p)
  {
    var c := a + b;
    if InSome(a, p) { var i :| 0 <= i < |a| && a[i].Has(p); assert c[i].Has(p); }
    if InSome(b, p) { var i :| 0 <= i < |b| && b[i].Has(p); assert c[|a| + i].Has(p); }
    if InSome(c, p) {
      var i :| 0 <= i < |c| && c[i].Has(p);
      if i < |a| { assert a[i].Has(p); } else { assert b[i - |a|].Has(p); }
    }
  }

  lemma InOne(x: Span, p: nat)
    ensures InSome([x], p) <==> x.Has(p)
  {
    if x.Has(p) { assert [x][0].Has(p); }
  }

  lemma AscendingConcat(a: seq<Span>, b: seq<Span>, cut: nat)
    requires Ascending(a) && Ascending(b)
    requires (forall i :: 0 <= i < |a| ==> a[i].end <= cut) && forall i :: 0 <= i < |b| ==> cut <= b[i].start
    ensures Ascending(a + b)
  {
  }

  lemma {:induction false} SubtractAscends(segs: seq<Span>, reserved: Span)
    requires Ascending(segs) && reserved.start <= reserved.end
    ensures Ascending(Subtract(segs, reserved))
    ensures segs != [] ==> forall i :: 0 <= i < |Subtract(segs, reserved)| ==> Subtract(segs, reserved)[i].end <= segs[|segs| - 1].end
  {
    if segs != [] {
      var n := |segs| - 1;
      var head, last := segs[..n], segs[n];
      SubtractAscends(head, reserved);
      PiecesExact(last, reserved);
      assert n > 0 ==> head[n - 1] == segs[n - 1] && segs[n - 1].end <= last.start;
      AscendingConcat(Subtract(head, reserved), Pieces(last, reserved), last.start);
    }
  }

  lemma {:induction false} SubtractHas(segs: seq<Span>, reserved: Span, p: nat)
    requires Ascending(segs) && reserved.start <= reserved.end
    ensures InSome(Subtract(segs, reserved), p) <==> InSome(segs, p) && !reserved.Has(p)
  {
    if segs != [] {
      var n := |segs| - 1;
      var head, last := segs[..n], segs[n];
      SubtractHas(head, reserved, p);
      PiecesExact(last, reserved);
      hide Pieces, InSome;
      InSomeConcat(Subtract(head, reserved), Pieces(last, reserved), p);
      InSomeConcat(head, [last], p);
      InOne(last, p);
      assert segs == head + [last];
    }
  }

  /** Each reserved range splits at most one segment, so the count grows by at
      most one. */
  lemma {:induction false} SubtractCount(segs: seq<Span>, reserved: Span)
    requires Ascending(segs) && reserved.start <= reserved.end
    ensures |Subtract(segs, reserved)| <= |segs| + 1
    ensures segs == [] || segs[|segs| - 1].end <= reserved.start || segs[|segs| - 1].end <= reserved.end
            ==> |Subtract(segs, reserved)| <= |segs|
  {
    if segs != [] {
      var n := |segs| - 1;
      var head, last := segs[..n], segs[n];
      assert Ascending(head);
      SubtractCount(head, reserved);
      PiecesAre(last, reserved);
      assert n > 0 ==> head[n - 1] == segs[n - 1] && segs[n - 1].end <= last.start;
    }
  }

  lemma {:induction false} SubtractAllAscends(segs: seq<Span>, reserved: seq<Span>)
    requires Ascending(segs) && forall i :: 0 <= i < |reserved| ==> reserved[i].start <= reserved[i].end
    ensures Ascending(SubtractAll(segs, reserved)) && |SubtractAll(segs, reserved)| <= |segs| + |reserved|
  {
    if reserved != [] {
      var n := |reserved| - 1;
      SubtractAllAscends(segs, reserved[..n]);
      SubtractAscends(SubtractAll(segs, reserved[..n]), reserved[n]);
      SubtractCount(SubtractAll(segs, reserved[..n]), reserved[n]);
    }
  }

  lemma {:induction false} SubtractAllHas(segs: seq<Span>, reserved: seq<Span>, p: nat)
    requires Ascending(segs) && forall i :: 0 <= i < |reserved| ==> reserved[i].start <= reserved[i].end
    ensures InSome(SubtractAll(segs, reserved), p) <==> InSome(segs, p) && !InSome(reserved, p)
  {
    if reserved != [] {
      var n := |reserved| - 1;
      var head, last := reserved[..n], reserved[n];
      var rest := SubtractAll(segs, head);
      assert SubtractAll(segs, reserved) == Subtract(rest, last);
      assert reserved == head + [last];
      SubtractAllAscends(segs, head);
      SubtractAllHas(segs, head, p);
      hide Subtract, SubtractAll, Ascending, InSome;
      SubtractHas(rest, last, p);
      InSomeConcat(head, [last], p);
      InOne(last, p);
    }
  }

  /** What is left is what was there minus all reserved ranges, in nonempty
      ascending segments, at most one more than there were ranges. */
  lemma SubtractAllExact(segs: seq<Span>, reserved: seq<Span>)
    requires Ascending(segs) && forall i :: 0 <= i < |reserved| ==> reserved[i].start <= reserved[i].end
    ensures Ascending(SubtractAll(segs, reserved)) && |SubtractAll(segs, reserved)| <= |segs| + |reserved|
    ensures forall p: nat :: InSome(SubtractAll(segs, reserved), p) <==> InSome(segs, p) && !InSome(reserved, p)
  {
    SubtractAllAscends(segs, reserved);
    forall p: nat ensures InSome(SubtractAll(segs, reserved), p) <==> InSome(segs, p) && !InSome(reserved, p) {
      SubtractAllHas(segs, reserved, p);
    }
  }

  // ---- In the fixed-size array

  /** The first `next` slots hold `segs`; the rest are empty. */
  ghost predicate Holding(slots: array<Option<Span>>, next: nat, segs: seq<Span>)
    reads slots
  {
    && slots.Length == MAX_USABLE_REGION_SEGMENTS && next == |segs| <= slots.Length
    && (forall i :: 0 <= i < next ==> slots[i] == Some(segs[i]))
    && (forall i :: next <= i < slots.Length ==> slots[i] == None)
  }

  /** The inner loop: the pieces of one segment go to the next free slots, if
      there are enough. */
  method StorePieces(result: array<Option<Span>>, next: nat, ghost done: seq<Span>, segment: Span, reserved: Span) returns (ok: bool, after: nat)
    requires Holding(result, next, done)
    modifies result
    ensures ok <==> |done| + |Pieces(segment, reserved)| <= MAX_USABLE_REGION_SEGMENTS
    ensures ok ==> Holding(result, after, done + Pieces(segment, reserved))
  {
    var pieces := SplitSegment(segment, reserved);
    after := next;
    for k := 0 to 2
      invariant Holding(result, after, done + Flatten(pieces[..k]))
    {
      assert pieces[..k + 1][..k] == pieces[..k];
      FlattenGrows(pieces, k + 1);
      if pieces[k].Some? {
        if after >= MAX_USABLE_REGION_SEGMENTS { return false, after; }
        result[after] := pieces[k];
        after := after + 1;
      }
    }
    assert pieces[..2] == pieces;
    return true, after;
  }

  /** `subtract_reserved_range`; `!ok` is its capacity assertion. */
  method SubtractReservedRange(segments: array<Option<Span>>, ghost segs: seq<Span>, reserved: Span) returns (ok: bool, result: array<Option<Span>>)
    requires Holding(segments, |segs|, segs)
    ensures fresh(result)
    ensures ok <==> |Subtract(segs, reserved)| <= MAX_USABLE_REGION_SEGMENTS
    ensures ok ==> Holding(result, |Subtract(segs, reserved)|, Subtract(segs, reserved))
  {
    hide Pieces;
    result := new Option<Span>[MAX_USABLE_REGION_SEGMENTS](_ => None);
    var next := 0;
    for i := 0 to segments.Length
      invariant Holding(segments, |segs|, segs)
      invariant Holding(result, next, Subtract(segs[..Least(i, |segs|)], reserved))
    {
      if segments[i].Some? {
        assert segs[..i + 1][..i] == segs[..i];
        SubtractGrows(segs, i + 1, reserved);
        ok, next := StorePieces(result, next, Subtract(segs[..i], reserved), segments[i].value, reserved);
        if !ok { return; }
      }
    }
    assert segs[..|segs|] == segs;
    ok := true;
  }

  function Least(a: nat, b: nat): nat { if a < b then a else b }

  lemma {:induction false} SubtractGrows(segs: seq<Span>, i: nat, reserved: Span)
    requires i <= |segs|
    ensures |Subtract(segs[..i], reserved)| <= |Subtract(segs, reserved)|
    decreases |segs| - i
  {
    if i < |segs| {
      assert segs[..i + 1][..i] == segs[..i];
      SubtractGrows(segs, i + 1, reserved);
    } else {
      assert segs[..i] == segs;
    }
  }

  lemma {:induction false} FlattenGrows(xs: seq<Option<Span>>, i: nat)
    requires i <= |xs|
    ensures |Flatten(xs[..i])| <= |Flatten(xs)|
    decreases |xs| - i
  {
    if i < |xs| {
      assert xs[..i + 1][..i] == xs[..i];
      FlattenGrows(xs, i + 1);
    } else {
      assert xs[..i] == xs;
    }
  }

  predicate Upright(reserved: seq<Span>) {
    forall i :: 0 <= i < |reserved| ==> reserved[i].start <= reserved[i].end
  }

  /** The segments left after any number of the reserved ranges fit the array. */
  ghost predicate Fits(whole: seq<Span>, reserved: seq<Span>) {
    forall i :: 0 <= i <= |reserved| ==> |SubtractAll(whole, reserved[..i])| <= MAX_USABLE_REGION_SEGMENTS
  }

  function Whole(usable: bool, start: nat, end: nat): seq<Span> {
    if !usable || end <= start then [] else [Span(start, end)]
  }

  lemma UprightFits(whole: seq<Span>, reserved: seq<Span>)
    requires Ascending(whole) && |whole| <= 1 && Upright(reserved) && |reserved| <= MAX_BOOT_RESERVED_RANGES
    ensures Fits(whole, reserved)
  {
    forall i | 0 <= i <= |reserved| ensures |SubtractAll(whole, reserved[..i])| <= MAX_USABLE_REGION_SEGMENTS {
      SubtractAllAscends(whole, reserved[..i]);
    }
  }

  lemma {:induction false} NothingLeft(reserved: seq<Span>)
    ensures SubtractAll([], reserved) == []
  {
    if reserved != [] { NothingLeft(reserved[..|reserved| - 1]); }
  }

  /** `usable_region_segments`: the region minus every reserved range. `!ok` is
      the capacity assertion; ranges that are not inverted never reach it and
      leave nonempty ascending segments with a slot to spare. */
  method UsableRegionSegments(usable: bool, start: nat, end: nat, reserved: seq<Span>)
    returns (ok: bool, segments: array<Option<Span>>, ghost segs: seq<Span>)
    requires |reserved| <= MAX_BOOT_RESERVED_RANGES
    ensures fresh(segments) && (ok ==> segments.Length == 6 == MAX_BOOT_RESERVED_RANGES + 2)
    ensures segs == SubtractAll(Whole(usable, start, end), reserved)
    ensures ok <==> Fits(Whole(usable, start, end), reserved)
    ensures ok ==> Holding(segments, |segs|, segs)
    ensures Upright(reserved) ==> ok && Ascending(segs) && |segs| <= 1 + |reserved|
    ensures Upright(reserved) && usable ==> forall p: nat :: InSome(segs, p) <==> start <= p < end && !InSome(reserved, p)
  {
    hide SubtractAll, Fits, Upright, Ascending, InSome, Holding;
    segs := SubtractAll(Whole(usable, start, end), reserved);
    if Upright(reserved) { UprightExact(usable, start, end, reserved); }
    if !usable || end <= start {
      NothingFits(reserved);
      segments := NoSegments();
      return true, segments, segs;
    }
    ok, segments := SubtractEach(Span(start, end), reserved);
  }

  method NoSegments() returns (segments: array<Option<Span>>)
    ensures fresh(segments) && segments.Length == MAX_USABLE_REGION_SEGMENTS && Holding(segments, 0, [])
  {
    segments := new Option<Span>[MAX_USABLE_REGION_SEGMENTS](_ => None);
  }

  lemma NothingFits(reserved: seq<Span>)
    ensures SubtractAll([], reserved) == [] && Fits([], reserved)
  {
    NothingLeft(reserved);
    forall i | 0 <= i <= |reserved| ensures SubtractAll([], reserved[..i]) == [] { NothingLeft(reserved[..i]); }
  }

  lemma UprightExact(usable: bool, start: nat, end: nat, reserved: seq<Span>)
    requires Upright(reserved) && |reserved| <= MAX_BOOT_RESERVED_RANGES
    ensures var whole := Whole(usable, start, end);
            var segs := SubtractAll(whole, reserved);
            && Fits(whole, reserved) && Ascending(segs) && |segs| <= 1 + |reserved|
            && (usable ==> forall p: nat :: InSome(segs, p) <==> start <= p < end && !InSome(reserved, p))
  {
    var whole := Whole(usable, start, end);
    UprightFits(whole, reserved);
    SubtractAllExact(whole, reserved);
    forall p: nat ensures InSome(whole, p) <==> usable && start <= p < end { InOne(Span(start, end), p); }
  }

  /** The outer loop, range by range. */
  method SubtractEach(span: Span, reserved: seq<Span>) returns (ok: bool, segments: array<Option<Span>>)
    ensures fresh(segments) && (ok <==> Fits([span], reserved))
    ensures ok ==> segments.Length == MAX_USABLE_REGION_SEGMENTS
    ensures ok ==> Holding(segments, |SubtractAll([span], reserved)|, SubtractAll([span], reserved))
  {
    hide Subtract;
    segments := new Option<Span>[MAX_USABLE_REGION_SEGMENTS](_ => None);
    segments[0] := Some(span);
    assert reserved[..0] == [];
    for i := 0 to |reserved|
      invariant fresh(segments) && Holding(segments, |SubtractAll([span], reserved[..i])|, SubtractAll([span], reserved[..i]))
      invariant forall k :: 0 <= k <= i ==> |SubtractAll([span], reserved[..k])| <= MAX_USABLE_REGION_SEGMENTS
    {
      assert reserved[..i + 1][..i] == reserved[..i];
      ok, segments := SubtractReservedRange(segments, SubtractAll([span], reserved[..i]), reserved[i]);
      if !ok { return; }
    }
    assert reserved[..|reserved|] == reserved;
    ok := true;
  }
}
