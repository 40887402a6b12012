/** Whole runs of the allocator: what its free list is, whatever happened before. */
module KrRuns {
  import opened FreeList
  import opened FreeChain
  import opened HeapState
  import opened KrMalloc

  /** Over any run from the empty heap the state stays consistent. */
  lemma {:induction false} RunConsistent(run: seq<State>, base: int, i: nat)
    requires Run(run, base) && i < |run|
    ensures Consistent(run[i], base)
  {
    hide Consistent, AllocStep, FreeStep, GrowStep;
    if i == 0 {
      StartIsConsistent(base);
    } else {
      RunConsistent(run, base, i - 1);
      assert Step(run[i - 1], run[i], base);
      StepKeeps(run[i - 1], run[i], base);
    }
  }

  lemma StepKeeps(s: State, t: State, base: int)
    requires Consistent(s, base) && Step(s, t, base)
    ensures Consistent(t, base) && s.owned <= t.owned
  {
    hide Consistent, AllocStep, FreeStep, GrowStep;
    if a, n :| AllocStep(s, t, a, n) {
      AllocStepKeeps(s, t, base, a, n);
    } else if a :| FreeStep(s, t, a) {
      FreeStepKeeps(s, t, base, a);
    } else {
      var r :| GrowStep(s, t, base, r);
      GrowStepKeeps(s, t, base, r);
    }
  }

  /** The free list is a function of the units obtained and the units in use: any two
      histories that agree on those end in the same list. */
  lemma HistoryDoesNotMatter(run: seq<State>, other: seq<State>, base: int)
    requires Run(run, base) && Run(other, base)
    requires var s, t := run[|run| - 1], other[|other| - 1];
      s.owned == t.owned && LiveUnits(s.live) == LiveUnits(t.live)
    ensures run[|run| - 1].fl == other[|other| - 1].fl
  {
    RunConsistent(run, base, |run| - 1);
    RunConsistent(other, base, |other| - 1);
    SameUnitsSameList(run[|run| - 1], other[|other| - 1], base);
  }

  lemma SameUnitsSameList(s: State, t: State, base: int)
    requires Consistent(s, base) && Consistent(t, base)
    requires s.owned == t.owned && LiveUnits(s.live) == LiveUnits(t.live)
    ensures s.fl == t.fl
  {
    assert FreeUnits(s.fl) == s.owned - LiveUnits(s.live);
    assert FreeUnits(t.fl) == t.owned - LiveUnits(t.live);
    Canonical(s.fl, t.fl, base);
  }

  /** `b` is a run of units that were obtained and are not in use, and cannot be extended. */
  ghost predicate MaximalFreeRun(s: State, b: Block) {
    && b.size > 0 && UnitsOf(b) <= s.owned - LiveUnits(s.live)
    && b.addr - 1 !in s.owned - LiveUnits(s.live) && End(b) !in s.owned - LiveUnits(s.live)
  }

  /** At any point of any run the list is `base` and exactly the maximal runs of free units. */
  lemma ListIsMaximalRuns(run: seq<State>, base: int, i: nat, b: Block)
    requires Run(run, base) && i < |run|
    ensures b in run[i].fl <==> b == Block(base, 0) || MaximalFreeRun(run[i], b)
  {
    hide Run, FreeUnits, LiveUnits;
    RunConsistent(run, base, i);
    var s := run[i];
    assert FreeUnits(s.fl) == s.owned - LiveUnits(s.live);
    if b in s.fl && b.size > 0 {
      var k :| 0 <= k < |s.fl| && s.fl[k] == b;
      BlockIsMaximalRun(s.fl, base, k);
    }
    if MaximalFreeRun(s, b) {
      MaximalRunIsBlock(s.fl, base, b);
    }
  }

  /** So it is in the program, after any calls. */
  lemma HeapList(h: KrHeap, b: Block)
    requires h.Valid()
    ensures b in h.now.fl <==> b == Block(h.base, 0) || MaximalFreeRun(h.now, b)
  {
    hide Run, Consistent;
    ListIsMaximalRuns(h.trace, h.base, |h.trace| - 1, b);
  }

  /** When everything has been released, in whatever order, the list is base and the maximal
      runs of the units obtained. */
  lemma AllReleased(run: seq<State>, base: int, i: nat, b: Block)
    requires Run(run, base) && i < |run| && run[i].live == map[]
    ensures FreeUnits(run[i].fl) == run[i].owned
    ensures b in run[i].fl <==>
              || b == Block(base, 0)
              || (b.size > 0 && UnitsOf(b) <= run[i].owned && b.addr - 1 !in run[i].owned && End(b) !in run[i].owned)
  {
    RunConsistent(run, base, i);
    ListIsMaximalRuns(run, base, i, b);
    hide Run, FreeUnits;
    assert LiveUnits(run[i].live) == {};
  }

  /** No unit is lost or used twice. */
  lemma Conservation(run: seq<State>, base: int, i: nat)
    requires Run(run, base) && i < |run|
    ensures |FreeUnits(run[i].fl)| + |LiveUnits(run[i].live)| == |run[i].owned|
    ensures forall a, b :: NoOverlap(run[i].live, a, b)
  {
    RunConsistent(run, base, i);
    DisjointSize(FreeUnits(run[i].fl), LiveUnits(run[i].live));
  }

  /** Releasing the block just allocated restores the whole state, free list included. */
  lemma RoundTrip(s: State, t: State, u: State, base: int, a: int, n: nat)
    requires Consistent(s, base) && AllocStep(s, t, a, n) && FreeStep(t, u, a)
    ensures u == s
  {
    hide Consistent, AllocStep, FreeStep;
    AllocStepKeeps(s, t, base, a, n);
    FreeStepKeeps(t, u, base, a);
    PutAndDrop(s.live, a, n);
    SameUnitsSameList(s, u, base);
  }

  lemma {:induction false} OwnedGrows(run: seq<State>, base: int, i: nat, j: nat)
    requires Run(run, base) && i <= j < |run|
    ensures run[i].owned <= run[j].owned
  {
    hide Consistent, AllocStep, FreeStep, GrowStep;
    if i < j {
      OwnedGrows(run, base, i, j - 1);
      RunConsistent(run, base, j - 1);
      assert Step(run[j - 1], run[j], base);
      StepKeeps(run[j - 1], run[j], base);
    }
  }

  /** memorylab/umalloc.c: morecore hands out the same array every time. As a run it is possible
      with one growth only: no two growths of a run obtain regions with a common unit. */
  lemma PoolOnlyOnce(run: seq<State>, base: int, i: nat, j: nat, r: Block, q: Block)
    requires Run(run, base) && i < j && j + 1 < |run|
    requires GrowStep(run[i], run[i + 1], base, r) && GrowStep(run[j], run[j + 1], base, q)
    ensures UnitsOf(r) !! UnitsOf(q) && r.addr != q.addr
  {
    hide Consistent, Run, FreeStep;
    RunConsistent(run, base, i);
    GrowStepKeeps(run[i], run[i + 1], base, r);
    OwnedGrows(run, base, i + 1, j);
    assert r.addr in UnitsOf(r) && q.addr in UnitsOf(q);
  }

  /** The same of the program: after a call that had to grow the heap by the pool, no later
      answer can be the pool again. */
  method UmallocGrowsOnce(h: KrHeap, nbytes: uint32, more: uint32, pool: int, contents: Memory)
    returns (first: int)
    requires h.Valid() && h.nalloc == 4096 && TooSmall(h.now.fl, UnitsFor(nbytes))
    requires Answers(Sbrk.At(pool, contents), h.now, h.base, Max(UnitsFor(nbytes), 4096))
    modifies h
    ensures h.Valid() && first != NULL
    ensures !Answers(Sbrk.At(pool, contents), h.now, h.base, Max(UnitsFor(more), 4096))
  {
    hide Consistent, Holds, Run, FreeStep, AllocStep, GrowStep, TooSmall, FitAfter, Predecessor;
    ghost var was := h.now;
    ghost var g, grew, start;
    first, g, grew, start := h.KrMalloc(nbytes, Sbrk.At(pool, contents));
    PoolTaken(was, g, h.now, h.base, UnitsFor(nbytes), 4096, pool, contents, grew, first, UnitsFor(more));
  }

  lemma PoolTaken(s: State, g: State, t: State, base: int, n: nat, nalloc: nat, pool: int, contents: Memory,
                  grew: bool, r: int, more: nat)
    requires Consistent(s, base) && TooSmall(s.fl, n) && Progress(s, g, base, n, nalloc, Sbrk.At(pool, contents), grew)
    requires AllocStep(g, t, r - 1, n) && 0 < nalloc
    ensures !FreshRegion(t, base, Block(pool, Max(more, nalloc)))
  {
    if !grew {
      NoneFits(s, t, r - 1, n);
    } else {
      hide Consistent, AllocStep, GrowStep, TooSmall, Progress;
      MallocLive(base, s, g, t, n, nalloc, Sbrk.At(pool, contents), grew, r - 1);
      assert pool in UnitsOf(Block(pool, Max(n, nalloc))) && pool in UnitsOf(Block(pool, Max(more, nalloc)));
    }
  }

  lemma NoneFits(s: State, t: State, a: int, n: nat)
    requires TooSmall(s.fl, n)
    ensures !AllocStep(s, t, a, n)
  {
  }

  // ---------- the next request ----------

  lemma SameEnd(fl: seq<Block>, i: nat, j: nat)
    requires Ascending(fl) && i < |fl| && j < |fl| && End(fl[i]) == End(fl[j])
    ensures i == j
  {
    assert i < j ==> Before(fl[i], fl[j]);
    assert j < i ==> Before(fl[j], fl[i]);
  }

  /** The block at `f` has served `n` units and keeps some. */
  ghost predicate Shrunk(fl: seq<Block>, gl: seq<Block>, f: nat, n: nat) {
    f < |fl| && n < fl[f].size && gl == fl[f := Block(fl[f].addr, fl[f].size - n)]
  }

  lemma ServedBlock(g: State, t: State, base: int, a: int, n: nat, f: nat)
    requires Ordered(g.fl, base) && AllocStep(g, t, a, n) && f < |g.fl| && End(g.fl[f]) == a + n && n < g.fl[f].size
    ensures Shrunk(g.fl, t.fl, f, n) && n > 0
  {
    var e: nat :| e < |g.fl| && 0 < n <= g.fl[e].size && a == Taken(g.fl, e, n).addr && t == Allocated(g, e, n);
    SameEnd(g.fl, e, f);
  }

  /** freep is at the block before the one that served. */
  lemma BeforeServed(fl: seq<Block>, start: int, n: nat, a: int, p: int, f: nat)
    requires Ascending(fl) && FitAfter(fl, start, n, a, p) && f < |fl| && End(fl[f]) == a + n
    ensures p == fl[if f == 0 then |fl| - 1 else f - 1].addr
  {
    var i: nat, e: nat :| i < |fl| && fl[i].addr == start && NextFit(fl, i, n, e) && a == End(fl[e]) - n
          && p == fl[if e == 0 then |fl| - 1 else e - 1].addr;
    SameEnd(fl, e, f);
  }

  /** From there the block that served is looked at first. */
  lemma FirstAfter(fl: seq<Block>, f: nat, m: nat, p: int, a: int, q: int)
    requires DistinctAddrs(fl) && f < |fl| && |fl| > 1 && fl[f].size >= m
    requires p == fl[if f == 0 then |fl| - 1 else f - 1].addr && FitAfter(fl, p, m, a, q)
    ensures a == End(fl[f]) - m && q == p
  {
    var i: nat, e: nat :| i < |fl| && fl[i].addr == p && NextFit(fl, i, m, e) && a == End(fl[e]) - m
          && q == fl[if e == 0 then |fl| - 1 else e - 1].addr;
    assert i == if f == 0 then |fl| - 1 else f - 1;
    assert Around(i, 1, |fl|) == f && StepsTo(i, f, |fl|) == 1;
    assert StepsTo(i, e, |fl|) > 1 || e == f;
  }

  lemma TwoBlocks(fl: seq<Block>, base: int, f: nat)
    requires Ordered(fl, base) && f < |fl| && fl[f].size > 0
    ensures |fl| > 1 && DistinctAddrs(fl)
  {
    OrderedAddrs(fl);
  }

  /** Where a block has room left after serving `n` units, it is the first that the next request
      looks at, and serves that one directly below, if it has the units. */
  lemma NextServedBelow(g: State, t: State, base: int, start: int, n: nat, a: int, p: int, f: nat,
                        m: nat, a2: int, p2: int)
    requires Ordered(g.fl, base) && AllocStep(g, t, a, n) && FitAfter(g.fl, start, n, a, p)
    requires f < |g.fl| && End(g.fl[f]) == a + n && g.fl[f].size >= n + m && m > 0
    requires FitAfter(t.fl, p, m, a2, p2)
    ensures a2 == a - m && p2 == p
  {
    hide FitAfter, AllocStep, Ordered, Ascending;
    TwoBlocks(g.fl, base, f);
    assert Ascending(g.fl) by { OrderedAscends(g.fl, base); }
    ServedBlock(g, t, base, a, n, f);
    BeforeServed(g.fl, start, n, a, p, f);
    assert forall i :: 0 <= i < |t.fl| ==> t.fl[i].addr == g.fl[i].addr;
    FirstAfter(t.fl, f, m, p, a2, p2);
  }

  lemma OrderedAscends(fl: seq<Block>, base: int)
    requires Ordered(fl, base)
    ensures Ascending(fl)
  {
  }

  /** A block of the list that ends at `e` has at least `n` units. */
  ghost predicate HoldsBelow(fl: seq<Block>, e: int, n: nat) {
    exists f :: 0 <= f < |fl| && End(fl[f]) == e && fl[f].size >= n
  }

  lemma StillOrdered(s: State, g: State, base: int, n: nat, nalloc: nat, brk: Sbrk, grew: bool)
    requires Consistent(s, base) && Progress(s, g, base, n, nalloc, brk, grew)
    ensures Ordered(g.fl, base)
  {
    hide GrowStep;
    if grew { GrowStepKeeps(s, g, base, Block(brk.addr, Max(n, nalloc))); }
  }

  lemma RoomLeft(g: State, t: State, base: int, a: int, n: nat, m: nat)
    requires Ordered(g.fl, base) && AllocStep(g, t, a, n) && m > 0 && HoldsBelow(g.fl, a + n, n + m)
    ensures !TooSmall(t.fl, m)
  {
    var f: nat :| f < |g.fl| && End(g.fl[f]) == a + n && g.fl[f].size >= n + m;
    ServedBlock(g, t, base, a, n, f);
    assert t.fl[f].size >= m;
  }

  /** Two requests in a row: if the block that serves the first holds both, the second lies directly
      below the first, without asking the system, and the next search starts where the second did. */
  method TwoRequests(h: KrHeap, nbytes: uint32, more: uint32, brk: Sbrk)
    returns (first: int, second: int, ghost g: State, ghost grew: bool)
    requires h.Valid() && Answers(brk, h.now, h.base, Max(UnitsFor(nbytes), h.nalloc))
    modifies h
    ensures h.Valid()
    ensures Progress(old(h.now), g, h.base, UnitsFor(nbytes), h.nalloc, brk, grew)
    ensures first != NULL && HoldsBelow(g.fl, first - 1 + UnitsFor(nbytes), UnitsFor(nbytes) + UnitsFor(more)) ==>
              second == first - UnitsFor(more)
  {
    hide Run, Progress, TooSmall, Predecessor, Answers, Consistent, Holds, AllocStep, FitAfter, HoldsBelow, Ordered;
    ghost var start, g2, grew2, start2;
    ghost var s, n, m := h.now, UnitsFor(nbytes), UnitsFor(more);
    first, g, grew, start := h.KrMalloc(nbytes, brk);
    ghost var t, p := h.now, h.freep;
    NothingAnswered(t, h.base, Max(m, h.nalloc));
    second, g2, grew2, start2 := h.KrMalloc(more, Sbrk.Fail);
    if first != NULL {
      StillOrdered(s, g, h.base, n, h.nalloc, brk, grew);
      NotGrown(t, g2, h.base, m, h.nalloc, grew2);
      if HoldsBelow(g.fl, first - 1 + n, n + m) {
        RoomLeft(g, t, h.base, first - 1, n, m);
        SecondServed(g, t, h.base, start, n, first - 1, p, m, second - 1, h.freep);
      }
    }
  }

  lemma SecondServed(g: State, t: State, base: int, start: int, n: nat, a: int, p: int, m: nat, a2: int, p2: int)
    requires Ordered(g.fl, base) && AllocStep(g, t, a, n) && FitAfter(g.fl, start, n, a, p)
    requires HoldsBelow(g.fl, a + n, n + m) && m > 0 && FitAfter(t.fl, p, m, a2, p2)
    ensures a2 == a - m && p2 == p
  {
    hide AllocStep, FitAfter, Ordered;
    var f: nat :| f < |g.fl| && End(g.fl[f]) == a + n && g.fl[f].size >= n + m;
    NextServedBelow(g, t, base, start, n, a, p, f, m, a2, p2);
  }

  lemma NotGrown(s: State, g: State, base: int, n: nat, nalloc: nat, grew: bool)
    requires Progress(s, g, base, n, nalloc, Sbrk.Fail, grew)
    ensures !grew && g == s
  {
  }

  lemma NothingAnswered(s: State, base: int, n: nat)
    ensures Answers(Sbrk.Fail, s, base, n)
  {
  }
}
