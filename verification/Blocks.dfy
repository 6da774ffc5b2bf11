/** `VirtRange::block_starts`: one address in each aligned block a range
    touches. */
module Blocks {
  import opened Arithmetic

  /** `from`, `from + span`, ... below `end`. */
  function Steps(from: nat, end: nat, span: nat): seq<nat>
    requires span > 0
    decreases end - from
  {
    if from >= end then [] else [from] + Steps(from + span, end, span)
  }

  function BlockStarts(start: nat, len: nat, span: nat): seq<nat>
    requires span > 0
  {
    if len == 0 then [] else [start] + Steps(start / span * span + span, start + len, span)
  }

  lemma Next(b: nat, span: nat)
    ensures (b + 1) * span == b * span + span
  {
  }

  /** The list from block `b` on: entry `i` is where block `b + i` starts. */
  lemma {:induction false} StepsAt(b: nat, end: nat, span: nat, i: nat)
    requires span > 0 && i < |Steps(b * span, end, span)|
    ensures Steps(b * span, end, span)[i] == (b + i) * span < end
    decreases i
  {
    if i > 0 {
      Next(b, span);
      StepsAt(b + 1, end, span, i - 1);
      assert b + 1 + (i - 1) == b + i;
    }
  }

  lemma {:induction false} StepsCover(b: nat, end: nat, span: nat, x: nat)
    requires span > 0 && b * span <= x < end
    ensures b <= x / span < b + |Steps(b * span, end, span)|
    decreases x - b * span
  {
    Next(b, span);
    if x < b * span + span {
      Quotient(x, span, b);
    } else {
      StepsCover(b + 1, end, span, x);
    }
  }

  lemma BlockAt(start: nat, len: nat, span: nat, i: nat)
    requires span > 0 && 0 < i < |BlockStarts(start, len, span)|
    ensures BlockStarts(start, len, span)[i] == (start / span + i) * span < start + len
  {
    var b := start / span;
    Next(b, span);
    StepsAt(b + 1, start + len, span, i - 1);
    var k := i - 1;
    assert b + 1 + k == b + i;
  }

  /** Entry `i` lies in the range and in block `i` counted from the first. */
  lemma BlockOf(start: nat, len: nat, span: nat, i: nat)
    requires span > 0 && i < |BlockStarts(start, len, span)|
    ensures BlockStarts(start, len, span)[i] / span == start / span + i
    ensures start <= BlockStarts(start, len, span)[i] < start + len
  {
    if i == 0 {
      BlockFirst(start, len, span);
    } else {
      BlockAt(start, len, span, i);
      Lands(start, span, i, BlockStarts(start, len, span)[i]);
    }
  }

  lemma Lands(start: nat, span: nat, i: nat, a: nat)
    requires span > 0 && i > 0 && a == (start / span + i) * span
    ensures a / span == start / span + i && start < a
  {
    var b, k := start / span, start / span + i;
    Quotient(a, span, k);
    assert start < b * span + span;
    MulStep(b, k, span);
  }

  lemma BlocksEnough(start: nat, len: nat, span: nat, x: nat)
    requires span > 0 && start <= x < start + len
    ensures start / span <= x / span < start / span + |BlockStarts(start, len, span)|
  {
    var b := start / span;
    Next(b, span);
    if x < b * span + span {
      Quotient(x, span, b);
    } else {
      StepsCover(b + 1, start + len, span, x);
    }
  }

  /** Every address of the range has exactly one listed address in its block,
      and that address is the first of the range inside the block. */
  lemma BlockStartsExact(start: nat, len: nat, span: nat, x: nat)
    requires span > 0 && start <= x < start + len
    ensures var r, i := BlockStarts(start, len, span), x / span - start / span;
            && 0 <= i < |r| && r[i] / span == x / span && start <= r[i] <= x
            && forall j :: 0 <= j < |r| && r[j] / span == x / span ==> j == i
  {
    hide BlockStarts;
    var r, b := BlockStarts(start, len, span), start / span;
    BlocksEnough(start, len, span, x);
    var i := x / span - b;
    BlockOf(start, len, span, i);
    forall j | 0 <= j < |r| && r[j] / span == x / span ensures j == i {
      BlockOf(start, len, span, j);
    }
    if i == 0 {
      BlockFirst(start, len, span);
    } else {
      BlockAt(start, len, span, i);
      assert b + i == x / span;
      assert x / span * span <= x;
    }
  }

  lemma BlockFirst(start: nat, len: nat, span: nat)
    requires span > 0 && len > 0
    ensures BlockStarts(start, len, span) != [] && BlockStarts(start, len, span)[0] == start
  {
  }

  function Scale(s: seq<nat>, k: nat): (r: seq<nat>)
    ensures |r| == |s| && forall i :: 0 <= i < |r| ==> r[i] == s[i] * k
  {
    if s == [] then [] else [s[0] * k] + Scale(s[1..], k)
  }

  lemma {:induction false} StepsScale(from: nat, end: nat, span: nat, k: nat)
    requires span > 0 && k > 0 && span * k > 0
    ensures Steps(from * k, end * k, span * k) == Scale(Steps(from, end, span), k)
    decreases end - from
  {
    if from < end {
      assert from * k < end * k;
      assert (from + span) * k == from * k + span * k;
      StepsScale(from + span, end, span, k);
      assert Steps(from, end, span)[1..] == Steps(from + span, end, span);
    } else {
      assert from * k >= end * k;
    }
  }

  /** The list for a byte range is the list for its page range, in bytes. */
  lemma BlockStartsScale(start: nat, len: nat, span: nat, k: nat)
    requires span > 0 && k > 0 && span * k > 0
    ensures BlockStarts(start * k, len * k, span * k) == Scale(BlockStarts(start, len, span), k)
  {
    if len > 0 {
      var b := start / span;
      ScaledBlock(start, span, k);
      StepsScale(b * span + span, start + len, span, k);
      assert (start + len) * k == start * k + len * k;
      assert len * k > 0;
      assert BlockStarts(start, len, span)[1..] == Steps(b * span + span, start + len, span);
    }
  }

  lemma ScaledBlock(start: nat, span: nat, k: nat)
    requires span > 0 && k > 0 && span * k > 0
    ensures start * k / (span * k) == start / span
    ensures start * k / (span * k) * (span * k) + span * k == (start / span * span + span) * k
  {
    var b := start / span;
    assert b * span <= start < b * span + span;
    assert b * span * k <= start * k < (b * span + span) * k;
    assert (b * span + span) * k == b * (span * k) + span * k;
    Quotient(start * k, span * k, b);
  }
}
