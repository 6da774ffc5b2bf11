/** Device addresses through DMA windows. */
module Dma {
  import opened Options

  const U64_SPAN := 0x1_0000_0000_0000_0000

  datatype DmaWindow = DmaWindow(physicalStart: nat, bytes: nat, iovaStart: nat)
  {
    predicate Has(physical: nat) { physicalStart <= physical < physicalStart + bytes }

    /** Neither end of the window wraps. */
    predicate Sound() { bytes > 0 && physicalStart + bytes <= U64_SPAN && iovaStart + bytes <= U64_SPAN }

    /** What the window adds to a physical address, modulo 2^64. */
    function Offset(): nat { (iovaStart + U64_SPAN - physicalStart % U64_SPAN) % U64_SPAN }

    function Translate(physical: nat): Option<nat> {
      var offset := WrappingSub(physical, physicalStart);
      if physical < physicalStart || offset >= bytes then None else Some(iovaStart + offset)
    }
  }

  function WrappingSub(a: nat, b: nat): nat {
    (a + U64_SPAN - b % U64_SPAN) % U64_SPAN
  }

  datatype IommuError = TooManyWindows | OutOfRange | Unmapped(physical: nat)

  datatype Result<T> = Ok(value: T) | Err(error: IommuError)

  datatype DmaTranslation = DmaTranslation(windows: seq<Option<DmaWindow>>, direct: bool)

  function WindowAddress(windows: seq<DmaWindow>, physical: nat): Result<nat> {
    if windows == [] then Err(Unmapped(physical))
    else if windows[0].Translate(physical).Some? then Ok(windows[0].Translate(physical).value)
    else WindowAddress(windows[1..], physical)
  }

  /** `device_address`: on a platform without a translation unit the physical
      address itself. */
  function DeviceAddress(t: DmaTranslation, physical: nat): Result<nat> {
    if t.direct then Ok(physical) else WindowAddress(Flatten(t.windows), physical)
  }

  function DeviceRange(t: DmaTranslation, physical: nat, bytes: nat): Result<nat>
    requires bytes > 0
  {
    if t.direct then Ok(physical)
    else if physical + (bytes - 1) >= U64_SPAN then Err(OutOfRange)
    else
      var start := DeviceAddress(t, physical);
      if start.Err? then start
      else
        var end := DeviceAddress(t, physical + (bytes - 1));
        if end.Err? then end
        else if WrappingSub(end.value, start.value) != bytes - 1 then Err(Unmapped(physical))
        else start
  }

  // ---- Windows

  function Flatten(slots: seq<Option<DmaWindow>>): seq<DmaWindow> {
    if slots == [] then []
    else (if slots[0].Some? then [slots[0].value] else []) + Flatten(slots[1..])
  }

  /** The occupied slots come first. */
  predicate Packed(slots: seq<Option<DmaWindow>>) {
    forall i, j :: 0 <= i < j < |slots| && slots[j].Some? ==> slots[i].Some?
  }

  lemma {:induction false} FlattenFull(slots: seq<Option<DmaWindow>>, k: nat, w: DmaWindow)
    requires k < |slots| && slots[k].None? && Packed(slots) && forall i :: 0 <= i < k ==> slots[i].Some?
    ensures Flatten(slots[k := Some(w)]) == Flatten(slots) + [w]
    decreases k
  {
    if k == 0 {
      NoneLeft(slots[1..]);
      assert slots[0 := Some(w)][1..] == slots[1..];
    } else {
      FlattenFull(slots[1..], k - 1, w);
      assert slots[k := Some(w)][1..] == slots[1..][k - 1 := Some(w)];
    }
  }

  lemma {:induction false} NoneLeft(slots: seq<Option<DmaWindow>>)
    requires forall i :: 0 <= i < |slots| ==> slots[i].None?
    ensures Flatten(slots) == []
  {
    if slots != [] { NoneLeft(slots[1..]); }
  }

  /** `with_window` on a translation built by itself: the new window goes last,
      and it fails exactly when all slots are taken. */
  method WithWindow(t: DmaTranslation, window: DmaWindow) returns (r: Result<DmaTranslation>)
    requires !t.direct && Packed(t.windows)
    ensures r.Err? <==> forall i :: 0 <= i < |t.windows| ==> t.windows[i].Some?
    ensures r.Err? ==> r.error == TooManyWindows
    ensures r.Ok? ==> !r.value.direct && Packed(r.value.windows) && |r.value.windows| == |t.windows|
                      && Flatten(r.value.windows) == Flatten(t.windows) + [window]
  {
    for i := 0 to |t.windows|
      invariant forall j :: 0 <= j < i ==> t.windows[j].Some?
    {
      if t.windows[i].None? {
        FlattenFull(t.windows, i, window);
        return Ok(t.(windows := t.windows[i := Some(window)]));
      }
    }
    return Err(TooManyWindows);
  }

  // ---- Translation

  predicate AllSound(ws: seq<DmaWindow>) {
    forall i :: 0 <= i < |ws| ==> ws[i].Sound()
  }

  ghost predicate Disjoint(ws: seq<DmaWindow>) {
    forall i, j, p: nat {:trigger ws[i].Has(p), ws[j].Has(p)} :: 0 <= i < j < |ws| && ws[i].Has(p) ==> !ws[j].Has(p)
  }

  lemma TranslateIn(w: DmaWindow, physical: nat)
    requires w.Sound() && physical < U64_SPAN
    ensures w.Translate(physical) == if w.Has(physical) then Some(w.iovaStart + (physical - w.physicalStart)) else None
    ensures w.Has(physical) ==> w.iovaStart + (physical - w.physicalStart) == (physical + w.Offset()) % U64_SPAN
  {
  }

  /** The one window that has the address decides. */
  lemma {:induction false} AddressIs(ws: seq<DmaWindow>, k: nat, physical: nat)
    requires AllSound(ws) && Disjoint(ws) && k < |ws| && ws[k].Has(physical) && physical < U64_SPAN
    ensures WindowAddress(ws, physical) == Ok((physical + ws[k].Offset()) % U64_SPAN)
    ensures WindowAddress(ws, physical) == Ok(ws[k].iovaStart + (physical - ws[k].physicalStart))
  {
    TranslateIn(ws[0], physical);
    if k > 0 {
      assert ws[k].Has(physical) && !ws[0].Has(physical);
      assert Disjoint(ws[1..]) by {
        forall i, j, p: nat | 0 <= i < j < |ws[1..]| && ws[1..][i].Has(p) ensures !ws[1..][j].Has(p) {
          assert ws[i + 1].Has(p);
          assert 0 <= i + 1 < j + 1 < |ws| ==> !ws[j + 1].Has(p);
        }
      }
      AddressIs(ws[1..], k - 1, physical);
    }
  }

  lemma {:induction false} AddressNone(ws: seq<DmaWindow>, physical: nat)
    requires AllSound(ws) && physical < U64_SPAN && forall i :: 0 <= i < |ws| ==> !ws[i].Has(physical)
    ensures WindowAddress(ws, physical) == Err(Unmapped(physical))
  {
    if ws != [] {
      TranslateIn(ws[0], physical);
      AddressNone(ws[1..], physical);
    }
  }

  predicate Reaches(ws: seq<DmaWindow>, k: nat, physical: nat, bytes: nat)
    requires bytes > 0
  {
    k < |ws| && ws[k].Has(physical) && ws[k].Has(physical + (bytes - 1))
  }

  predicate InOneWindow(ws: seq<DmaWindow>, physical: nat, bytes: nat)
    requires bytes > 0
  {
    exists k :: 0 <= k < |ws| && Reaches(ws, k, physical, bytes)
  }

  /** Equal differences modulo 2^64. */
  lemma SameOffset(p: nat, n: nat, a: nat, b: nat)
    requires p + n < U64_SPAN && a < U64_SPAN && b < U64_SPAN
    ensures WrappingSub((p + n + b) % U64_SPAN, (p + a) % U64_SPAN) == n <==> a == b
  {
  }

  lemma OffsetSmall(w: DmaWindow)
    ensures w.Offset() < U64_SPAN
  {
  }

  /** Accepted means: first and last byte lie in windows of equal offset. */
  lemma RangeAccepts(t: DmaTranslation, physical: nat, bytes: nat)
    requires !t.direct && bytes > 0 && AllSound(Flatten(t.windows)) && Disjoint(Flatten(t.windows))
    ensures var ws := Flatten(t.windows);
            DeviceRange(t, physical, bytes).Ok? <==>
              physical + (bytes - 1) < U64_SPAN &&
              exists j, k {:trigger ws[j], ws[k]} :: 0 <= j < |ws| && 0 <= k < |ws| && ws[j].Has(physical) && ws[k].Has(physical + (bytes - 1))
                           && ws[j].Offset() == ws[k].Offset()
  {
    var ws, last := Flatten(t.windows), physical + (bytes - 1);
    if last < U64_SPAN {
      if j :| 0 <= j < |ws| && ws[j].Has(physical) {
        AddressIs(ws, j, physical);
        if k :| 0 <= k < |ws| && ws[k].Has(last) {
          AddressIs(ws, k, last);
          OffsetSmall(ws[j]);
          OffsetSmall(ws[k]);
          SameOffset(physical, bytes - 1, ws[j].Offset(), ws[k].Offset());
          OnlyOne(ws, physical, j);
          OnlyOne(ws, last, k);
        } else {
          AddressNone(ws, last);
        }
      } else {
        AddressNone(ws, physical);
      }
    }
  }

  lemma OnlyOne(ws: seq<DmaWindow>, p: nat, k: nat)
    requires Disjoint(ws) && k < |ws| && ws[k].Has(p)
    ensures forall i :: 0 <= i < |ws| && ws[i].Has(p) ==> i == k
  {
  }

  predicate DistinctOffsets(ws: seq<DmaWindow>) {
    forall i, j :: 0 <= i < j < |ws| ==> ws[i].Offset() != ws[j].Offset()
  }

  /** With distinct offsets: accepted exactly inside one window, and then every
      byte is as far from the start of the device range as from the start of
      the physical one. */
  lemma RangeExact(t: DmaTranslation, physical: nat, bytes: nat)
    requires !t.direct && bytes > 0 && AllSound(Flatten(t.windows)) && Disjoint(Flatten(t.windows)) && DistinctOffsets(Flatten(t.windows))
    ensures DeviceRange(t, physical, bytes).Ok? <==> physical + (bytes - 1) < U64_SPAN && InOneWindow(Flatten(t.windows), physical, bytes)
    ensures DeviceRange(t, physical, bytes).Ok? ==>
              forall q: nat :: physical <= q < physical + bytes ==>
                DeviceAddress(t, q) == Ok(DeviceRange(t, physical, bytes).value + (q - physical))
  {
    var ws, last := Flatten(t.windows), physical + (bytes - 1);
    RangeAccepts(t, physical, bytes);
    if DeviceRange(t, physical, bytes).Ok? {
      var j, k :| 0 <= j < |ws| && 0 <= k < |ws| && ws[j].Has(physical) && ws[k].Has(last) && ws[j].Offset() == ws[k].Offset();
      assert j == k;
      assert Reaches(ws, j, physical, bytes);
      AddressIs(ws, j, physical);
      forall q: nat | physical <= q < physical + bytes
        ensures WindowAddress(ws, q) == Ok(DeviceRange(t, physical, bytes).value + (q - physical))
      {
        AddressIs(ws, j, q);
      }
    }
  }

  /** Without a translation unit every range is accepted as it is, and every
      byte of it has its own address. */
  lemma DirectExact(t: DmaTranslation, physical: nat, bytes: nat)
    requires t.direct && bytes > 0
    ensures DeviceRange(t, physical, bytes) == Ok(physical)
    ensures forall q: nat :: physical <= q < physical + bytes ==>
              DeviceAddress(t, q) == Ok(DeviceRange(t, physical, bytes).value + (q - physical))
  {
  }

  /** Why a range is refused: it runs past the last address, or names the first
      end that no window has, or its start when the ends are in windows of
      different offsets. */
  lemma RangeErrors(t: DmaTranslation, physical: nat, bytes: nat)
    requires !t.direct && bytes > 0 && AllSound(Flatten(t.windows)) && Disjoint(Flatten(t.windows))
    ensures DeviceRange(t, physical, bytes) == Err(OutOfRange) <==> physical + (bytes - 1) >= U64_SPAN
    ensures var ws, last := Flatten(t.windows), physical + (bytes - 1);
            last < U64_SPAN && DeviceRange(t, physical, bytes).Err? ==>
              DeviceRange(t, physical, bytes) ==
                if (exists j :: 0 <= j < |ws| && ws[j].Has(physical)) && (forall k :: 0 <= k < |ws| ==> !ws[k].Has(last))
                then Err(Unmapped(last)) else Err(Unmapped(physical))
  {
    var ws, last := Flatten(t.windows), physical + (bytes - 1);
    if last < U64_SPAN {
      if j :| 0 <= j < |ws| && ws[j].Has(physical) {
        AddressIs(ws, j, physical);
        if k :| 0 <= k < |ws| && ws[k].Has(last) { AddressIs(ws, k, last); } else { AddressNone(ws, last); }
      } else {
        AddressNone(ws, physical);
      }
    }
  }

  /** The hypothesis is exact: if two windows share an offset, the span from the
      first byte of one to the last of the other is accepted although it lies
      in no single window. */
  lemma DistinctOffsetsNeeded(t: DmaTranslation)
    requires !t.direct && AllSound(Flatten(t.windows)) && Disjoint(Flatten(t.windows))
    ensures DistinctOffsets(Flatten(t.windows)) <==>
              forall physical: nat, bytes: nat :: bytes > 0 && DeviceRange(t, physical, bytes).Ok? ==> InOneWindow(Flatten(t.windows), physical, bytes)
  {
    var ws := Flatten(t.windows);
    if DistinctOffsets(ws) {
      forall physical: nat, bytes: nat | bytes > 0 && DeviceRange(t, physical, bytes).Ok? ensures InOneWindow(ws, physical, bytes) {
        RangeExact(t, physical, bytes);
      }
    } else {
      var i, j :| 0 <= i < j < |ws| && ws[i].Offset() == ws[j].Offset();
      if ws[i].physicalStart < ws[j].physicalStart { Straddle(t, i, j); } else { Straddle(t, j, i); }
    }
  }

  lemma Straddle(t: DmaTranslation, i: nat, j: nat)
    requires !t.direct && AllSound(Flatten(t.windows)) && Disjoint(Flatten(t.windows))
    requires i < |Flatten(t.windows)| && j < |Flatten(t.windows)| && i != j
    requires Flatten(t.windows)[i].Offset() == Flatten(t.windows)[j].Offset()
    requires Flatten(t.windows)[i].physicalStart <= Flatten(t.windows)[j].physicalStart
    ensures var physical := Flatten(t.windows)[i].physicalStart;
            var bytes := Flatten(t.windows)[j].physicalStart + Flatten(t.windows)[j].bytes - physical;
            bytes > 0 && DeviceRange(t, physical, bytes).Ok? && !InOneWindow(Flatten(t.windows), physical, bytes)
  {
    var ws := Flatten(t.windows);
    var physical := ws[i].physicalStart;
    var last := ws[j].physicalStart + ws[j].bytes - 1;
    var bytes := last - physical + 1;
    assert ws[i].Has(physical) && ws[j].Has(last);
    RangeAccepts(t, physical, bytes);
    OnlyOne(ws, physical, i);
    OnlyOne(ws, last, j);
    forall k | 0 <= k < |ws| ensures !Reaches(ws, k, physical, bytes) {}
  }

  /** Two windows with equal offsets and a gap: the range over the gap is
      accepted, and its sixth byte has no device address. */
  lemma GapAccepted()
    ensures var t := DmaTranslation([Some(DmaWindow(0, 10, 100)), Some(DmaWindow(20, 10, 120))], false);
            DeviceRange(t, 5, 20) == Ok(105) && DeviceAddress(t, 10) == Err(Unmapped(10))
  {
  }
}
