/** Giving a demand-commit region back. `unmap_demand_pages` skips the pages
    nothing faulted on without restarting its batch, so a flush of `count` pages
    from the first one covers the batch exactly when the batch has no gap. */
module DemandRuns {
  import opened PageWalk
  import opened PageTables
  import opened Machine
  import opened Runs

  /** The mapped pages of `[first, first + n)`, ascending. */
  function Hits(leaf: Flat, first: PageNo, n: nat): seq<PageNo> {
    if n == 0 then []
    else
      Hits(leaf, first, n - 1) + (if Mapped(leaf, first + n - 1) then [first + n - 1] else [])
  }

  /** No gap inside any batch of 128 consecutive hits. */
  ghost predicate OneRun(hits: seq<PageNo>) {
    forall k :: 0 < k < |hits| && k % BATCH != 0 ==> hits[k] == hits[k - 1] + 1
  }

  ghost predicate Rising(hits: seq<PageNo>) {
    forall i, j :: 0 <= i < j < |hits| ==> hits[i] < hits[j]
  }

  function Gone(leaf: Flat, first: int, n: int): Flat {
    map p | p in leaf :: if In(p, first, n) && leaf[p].Page? then Absent else leaf[p]
  }

  lemma {:induction false} HitsFull(leaf: Flat, first: PageNo, n: nat)
    requires forall p: PageNo :: first <= p < first + n ==> Mapped(leaf, p)
    ensures |Hits(leaf, first, n)| == n && forall k :: 0 <= k < n ==> Hits(leaf, first, n)[k] == first + k
  {
    if n > 0 { HitsFull(leaf, first, n - 1); }
  }

  /** One hole after `n` mapped pages, and one more page behind it: harmless
      exactly when the hole falls between two batches of 128. */
  lemma HoleBetweenBatches(leaf: Flat, first: PageNo, n: nat)
    requires (forall p: PageNo :: first <= p < first + n ==> Mapped(leaf, p)) && !Mapped(leaf, first + n) && Mapped(leaf, first + n + 1)
    ensures OneRun(Hits(leaf, first, n + 2)) <==> n % 128 == 0
  {
    HitsFull(leaf, first, n);
    var hits := Hits(leaf, first, n + 2);
    assert Hits(leaf, first, n + 1) == Hits(leaf, first, n);
    assert hits == Hits(leaf, first, n) + [first + n + 1];
    assert hits[n] == first + n + 1;
    assert n > 0 ==> hits[n] != hits[n - 1] + 1;
  }

  lemma {:induction false} HitsRise(leaf: Flat, first: PageNo, n: nat)
    ensures Rising(Hits(leaf, first, n))
    ensures forall i :: 0 <= i < |Hits(leaf, first, n)| ==> first <= Hits(leaf, first, n)[i] < first + n
  {
    if n > 0 { HitsRise(leaf, first, n - 1); }
  }

  /** The last `c` hits are `start`, `start + 1`, ... exactly when the last of
      them is `start + c - 1`. */
  lemma {:induction false} GapLow(hits: seq<PageNo>, base: nat, k: nat)
    requires Rising(hits) && base <= k < |hits|
    ensures hits[k] >= hits[base] + (k - base)
  {
    if k > base { GapLow(hits, base, k - 1); }
  }

  lemma {:induction false} RunExact(hits: seq<PageNo>, base: nat, k: nat)
    requires OneRun(hits) && base % BATCH == 0 && base <= k < |hits| && k - base < BATCH
    ensures hits[k] == hits[base] + (k - base)
  {
    if k > base {
      RunExact(hits, base, k - 1);
      assert k % BATCH != 0 by { assert k == base + (k - base); }
    }
  }

  lemma PrefixRun(hits: seq<PageNo>, base: nat)
    requires base <= |hits| && OneRun(hits)
    ensures OneRun(hits[..base])
  {
  }

  lemma ExtendRun(hits: seq<PageNo>, base: nat)
    requires Rising(hits) && base % BATCH == 0 && base < |hits| <= base + BATCH
    requires OneRun(hits[..base]) && hits[|hits| - 1] == hits[base] + (|hits| - 1 - base)
    ensures OneRun(hits)
  {
    forall k | 0 < k < |hits| && k % BATCH != 0 ensures hits[k] == hits[k - 1] + 1 {
      if k < base {
        assert hits[..base][k] == hits[k] && hits[..base][k - 1] == hits[k - 1];
      } else {
        Squeeze(hits, base, k);
        if k > base { Squeeze(hits, base, k - 1); }
      }
    }
  }

  lemma Squeeze(hits: seq<PageNo>, base: nat, k: nat)
    requires Rising(hits) && base <= k < |hits|
    requires hits[|hits| - 1] == hits[base] + (|hits| - 1 - base)
    ensures hits[k] == hits[base] + (k - base)
  {
    GapLow(hits, base, k);
    GapLow(hits, k, |hits| - 1);
  }

  // ---- The loop

  ghost predicate Waiting(s0: State, s: State, hits: seq<PageNo>, batch: seq<Descriptor>) {
    && |batch| <= |hits|
    && (forall i {:trigger batch[i]} :: 0 <= i < |batch| ==>
          batch[i] == At(s0.leaf, hits[|hits| - |batch| + i]) && (hits[|hits| - |batch| + i], batch[i]) in s.tlb)
  }

  ghost predicate OnlyWaiting(s: State, hits: seq<PageNo>, c: nat)
    requires c <= |hits|
  {
    forall p, d :: (p, d) in s.tlb ==> Current(s, p, d) || p in hits[|hits| - c..]
  }

  ghost predicate Demanding(s0: State, s: State, pool: set<Frame>, first: PageNo, done: nat, batch: seq<Descriptor>) {
    var hits := Hits(s0.leaf, first, done);
    && Core(s, pool) && |batch| <= BATCH && Waiting(s0, s, hits, batch) && (|hits| - |batch|) % BATCH == 0
    && s == s0.(leaf := Gone(s0.leaf, first, done), limbo := s0.limbo + FramesOf(batch),
                free := s.free, home := s.home, tlb := s.tlb, tainted := s.tainted)
    && s0.limbo !! FramesOf(batch) && DistinctFrames(batch)
    && s.tainted == (s0.tainted || !OneRun(hits[..|hits| - |batch|]))
    && (OneRun(hits[..|hits| - |batch|]) ==> OnlyWaiting(s, hits, |batch|))
  }

  lemma DemandStart(s: State, pool: set<Frame>, first: PageNo)
    requires Core(s, pool) && Fresh(s)
    ensures Demanding(s, s, pool, first, 0, [])
  {
  }

  lemma DemandSkip(s0: State, s: State, pool: set<Frame>, first: PageNo, done: nat, batch: seq<Descriptor>)
    requires Demanding(s0, s, pool, first, done, batch) && !Mapped(s.leaf, first + done)
    ensures !Mapped(s0.leaf, first + done)
    ensures Demanding(s0, s, pool, first, done + 1, batch)
  {
    assert Mapped(s.leaf, first + done) <==> Mapped(s0.leaf, first + done);
    assert Hits(s0.leaf, first, done + 1) == Hits(s0.leaf, first, done);
    assert Gone(s0.leaf, first, done + 1) == Gone(s0.leaf, first, done);
  }

  lemma DemandPush(s0: State, s: State, pool: set<Frame>, first: PageNo, done: nat, batch: seq<Descriptor>, p: PageNo)
    requires Demanding(s0, s, pool, first, done, batch) && |batch| < BATCH
    requires p == first + done && Mapped(s.leaf, p) && p !in s.dev
    ensures s.leaf[p] == At(s0.leaf, p) && s.leaf[p].frame !in s.limbo
    ensures Hits(s0.leaf, first, done + 1) == Hits(s0.leaf, first, done) + [p]
    ensures Demanding(s0, Detach(s, p, Absent), pool, first, done + 1, batch + [s.leaf[p]])
  {
    hide Core;
    var hits, d := Hits(s0.leaf, first, done), s.leaf[p];
    DetachCore(s, pool, p);
    GoneStep(s0.leaf, first, done);
    FramesAppend(batch, d);
    WaitingPush(s0, s, hits, batch, p, d);
    var base: nat := |hits| - |batch|;
    hide Waiting, OnlyWaiting, OneRun, Gone, Hits, FramesOf, DistinctFrames;
    assert (hits + [p])[..base] == hits[..base];
    if OneRun(hits[..base]) { OnlyWaitingPush(s, hits, |batch|, p); }
  }

  lemma GoneStep(leaf: Flat, first: PageNo, done: nat)
    requires Mapped(Gone(leaf, first, done), first + done)
    ensures Mapped(leaf, first + done) && Gone(leaf, first, done)[first + done] == leaf[first + done]
    ensures Gone(leaf, first, done)[first + done := Absent] == Gone(leaf, first, done + 1)
    ensures Hits(leaf, first, done + 1) == Hits(leaf, first, done) + [first + done]
  {
  }

  lemma WaitingPush(s0: State, s: State, hits: seq<PageNo>, batch: seq<Descriptor>, p: PageNo, d: Descriptor)
    requires Waiting(s0, s, hits, batch) && d == At(s0.leaf, p) && (p, d) in s.tlb
    ensures Waiting(s0, s, hits + [p], batch + [d])
  {
  }

  lemma OnlyWaitingPush(s: State, hits: seq<PageNo>, c: nat, p: PageNo)
    requires c <= |hits| && OnlyWaiting(s, hits, c) && Mapped(s.leaf, p)
    ensures OnlyWaiting(Detach(s, p, Absent), hits + [p], c + 1)
  {
    var t, base := Detach(s, p, Absent), |hits| - c;
    assert (hits + [p])[base..] == hits[base..] + [p];
    forall q, e | (q, e) in t.tlb ensures Current(t, q, e) || q in hits[base..] + [p] {
      assert Current(s, q, e) || q in hits[base..];
    }
  }

  /** Without a gap the flush reaches every page of the batch. */
  lemma FlushCovers(s: State, hits: seq<PageNo>, c: nat, start: PageNo)
    requires 0 < c <= BATCH && c <= |hits| && (|hits| - c) % BATCH == 0
    requires start == hits[|hits| - c] && OneRun(hits) && OnlyWaiting(s, hits, c)
    ensures Fresh(Flush(s, start, c))
  {
    var t, base := Flush(s, start, c), |hits| - c;
    forall p, d | (p, d) in t.tlb ensures Current(t, p, d) {
      assert (p, d) in s.tlb;
      if p in hits[base..] {
        var k :| 0 <= k < |hits[base..]| && hits[base..][k] == p;
        RunExact(hits, base, base + k);
      }
    }
  }

  /** With a gap it misses at least the last one, whose frame is then freed
      while the translation survives. */
  lemma FlushMisses(s0: State, s: State, hits: seq<PageNo>, batch: seq<Descriptor>, start: PageNo)
    requires Waiting(s0, s, hits, batch) && 0 < |batch| <= BATCH && (|hits| - |batch|) % BATCH == 0 && Rising(hits)
    requires start == hits[|hits| - |batch|] && DistinctFrames(batch)
    requires OneRun(hits[..|hits| - |batch|]) && !OneRun(hits)
    ensures exists f :: f in FramesOf(batch) && Reachable(Flush(s, start, |batch|), f)
  {
    var c, base, last := |batch|, |hits| - |batch|, |hits| - 1;
    GapLow(hits, base, last);
    if hits[last] == hits[base] + (last - base) { ExtendRun(hits, base); }
    assert hits[last] >= start + c;
    var d := batch[c - 1];
    assert (hits[last], d) in Flush(s, start, c).tlb;
    assert d.frame in FramesOf(batch);
  }

  /** One flush of a batch: the frames come back, and the run is tainted
      exactly when some batch so far had a gap. */
  lemma DemandFlush(s0: State, s: State, pool: set<Frame>, first: PageNo, done: nat, batch: seq<Descriptor>, start: PageNo)
    requires Demanding(s0, s, pool, first, done, batch) && batch != []
    requires start == Hits(s0.leaf, first, done)[|Hits(s0.leaf, first, done)| - |batch|]
    ensures var hits, s' := Hits(s0.leaf, first, done), GiveBack(Flush(s, start, |batch|), FramesOf(batch));
            && s' == s0.(leaf := Gone(s0.leaf, first, done), free := s'.free, home := s'.home, tlb := s'.tlb, tainted := s'.tainted)
            && s'.tainted == (s0.tainted || !OneRun(hits)) && (OneRun(hits) ==> Fresh(s'))
  {
    hide Core;
    var hits, f := Hits(s0.leaf, first, done), Flush(s, start, |batch|);
    var s' := GiveBack(f, FramesOf(batch));
    assert s'.limbo == s0.limbo;
    HitsRise(s0.leaf, first, done);
    FlushKeeps(s, pool, start, |batch|);
    if OneRun(hits) {
      PrefixRun(hits, |hits| - |batch|);
      FlushCovers(s, hits, |batch|, start);
      GiveBackSafe(f, pool, FramesOf(batch));
    } else if OneRun(hits[..|hits| - |batch|]) {
      FlushMisses(s0, s, hits, batch, start);
    }
  }

  lemma DemandResume(s0: State, s: State, pool: set<Frame>, first: PageNo, done: nat)
    requires Core(s, pool) && |Hits(s0.leaf, first, done)| % BATCH == 0
    requires s == s0.(leaf := Gone(s0.leaf, first, done), free := s.free, home := s.home, tlb := s.tlb, tainted := s.tainted)
    requires s.tainted == (s0.tainted || !OneRun(Hits(s0.leaf, first, done)))
    requires OneRun(Hits(s0.leaf, first, done)) ==> Fresh(s)
    ensures Demanding(s0, s, pool, first, done, [])
  {
  }

  lemma DetachCore(s: State, pool: set<Frame>, p: PageNo)
    requires Core(s, pool) && Mapped(s.leaf, p) && p !in s.dev
    ensures Core(Detach(s, p, Absent), pool) && s.leaf[p].frame !in s.limbo
    ensures (p, s.leaf[p]) in s.tlb
  {
  }

  /** `start` is the first page of the `c` hits that wait. */
  ghost predicate StartOf(s0: State, first: PageNo, done: nat, c: nat, start: PageNo) {
    var hits := Hits(s0.leaf, first, done);
    0 < c <= |hits| && start == hits[|hits| - c]
  }

  lemma StartSkip(s0: State, first: PageNo, done: nat, c: nat, start: PageNo)
    requires StartOf(s0, first, done, c, start) && !Mapped(s0.leaf, first + done)
    ensures StartOf(s0, first, done + 1, c, start)
  {
  }

  lemma StartPush(s0: State, first: PageNo, done: nat, c: nat, start: PageNo)
    requires Mapped(s0.leaf, first + done)
    requires if c == 0 then start == first + done else StartOf(s0, first, done, c, start)
    ensures StartOf(s0, first, done + 1, c + 1, start)
  {
  }

  lemma DemandEnd(s0: State, s: State, pool: set<Frame>, first: PageNo, done: nat)
    requires Demanding(s0, s, pool, first, done, [])
    ensures s == s0.(leaf := Gone(s0.leaf, first, done), free := s.free, home := s.home, tlb := s.tlb, tainted := s.tainted)
    ensures s.tainted == (s0.tainted || !OneRun(Hits(s0.leaf, first, done)))
    ensures OneRun(Hits(s0.leaf, first, done)) ==> Fresh(s)
  {
  }
}
